# Deadlock transcription tools: a Dafny model

This project models the text-processing core of three small Python tools that maintain a
set of JSON transcription files, and proves properties of that model.

- **Bulk find and replace** (`commonMistakeFix.py`, module `CommonMistakeFix`). A preview
  pass walks a directory and keeps the files whose name ends with the chosen extension,
  adding a leading dot to the extension when it lacks one. It records one entry for every
  line that contains the search text, as a case-sensitive substring. An apply pass then
  takes the sorted set of previewed paths, reads the search and replacement texts again,
  and rewrites each file whole with Python's `str.replace`. A file is written, and counted,
  only when its content changes. The tool is the class `FindReplaceApp`: its Tk variables
  and its preview list are fields, and preview and apply are methods with loops.
- **Upper-case fixer** (`allCapsFix.py`, module `AllCapsFix`). A string under a `"text"`
  key whose letters are at least 60 percent upper case is put in sentence case:
  - words are split on single spaces;
  - a word ending in `'s` (ignoring trailing `.,!?`) is capitalised, every other word is
    lower-cased;
  - the first character of the result is upper-cased.

  `process_json_data` is a recursive method with loops over dict members and list items.
  Its result is proved equal to the specification function `Fix` and the predicate
  `Modified`. `process_files` is a loop over the directory walk.
- **Changed-file viewer** (`changedFileViewer.py`, module `ChangedFileViewer`). It
  extracts the display text of a transcription, filters git's list of modified paths down
  to `.json` files, and counts the files whose display text differs between two commits.

The shared Python behaviour lives in these modules:
- `PyStr`: `isspace`, `strip`, `split` on one character, `join`, ASCII
  `upper`/`lower`/`capitalize`, and the substring test `in`.
- `PyReplace`: `str.replace`, `str.count`, and how iterating over a text file cuts it into
  lines.
- `PySorted`: `sorted(set(...))` over strings.
- `PyOs`: walk entries and `os.path.join`.
- `JsonValue`: the JSON tree as the `json` module returns it.

Inputs and outputs become parameters and results:
- the directory walk is a sequence of (directory, name) pairs;
- the disk is a map from path to content or document. A path missing from the map is a
  file that cannot be opened. A set `readOnly` holds the paths whose write fails;
- git's output is an `Option<string>`, and the two commits' files are two maps.

Four facts about the code fix what the model does:
- the search is the case-sensitive substring test `find_str in line`
  (commonMistakeFix.py:148);
- a preview entry holds only the file's path (commonMistakeFix.py:152-154);
- apply replaces every occurrence in the whole content, not only the previewed lines
  (commonMistakeFix.py:200);
- apply visits the files in `sorted(set(...))` order (commonMistakeFix.py:187).

Apply reads the search text again at apply time and does not check it for emptiness. When
the field was cleared after a preview, Python's `replace` of the empty string inserts the
replacement around every character. `PyReplace.ReplaceAll` models that case too.

## Model

| member | source | states |
|---|---|---|
| CommonMistakeFix.NormalizeExtension | commonMistakeFix.py:131-133 | the extension then starts with a dot, one that already does is unchanged, and it still ends with the entered text |
| CommonMistakeFix.NormalizeIdempotent | commonMistakeFix.py:131-133 | normalising twice is normalising once |
| CommonMistakeFix.FileOccurrences | commonMistakeFix.py:147-154 | defines the preview records of one file: one record, with its line number, the line and the line after replace, for each line holding the search text, top to bottom; `FileOccurrencesSound`, `FileOccurrencesOrdered` and `FileOccurrencesComplete` state its properties |
| CommonMistakeFix.ScanWalk | commonMistakeFix.py:141-158 | defines the records of a whole walk: those of each readable walked file whose name ends with the extension, in walk order; `ScanWalkSources` states where they come from and `ScanWalkInto` builds the same list |
| CommonMistakeFix.FindReplaceApp.constructor | commonMistakeFix.py:19-23 | empty directory, find and replace fields, extension ".txt", empty preview, button disabled |
| CommonMistakeFix.FindReplaceApp.SelectDirectory | commonMistakeFix.py:101-108 | a chosen directory replaces the old one; a cancelled dialog keeps it |
| CommonMistakeFix.FindReplaceApp.PreviewChanges | commonMistakeFix.py:110-170 | the list is cleared first and the button disabled; no directory or no search text stops there; otherwise the extension is normalised, the list holds one path per record of the walk, the button is enabled and "found" is reported iff that count is positive |
| CommonMistakeFix.FindReplaceApp.ScanWalkInto | commonMistakeFix.py:139-160 | starting from an empty list, it ends holding, in walk order, one path per record of every readable walked file with the extension, and the counter equals the list's length |
| CommonMistakeFix.FindReplaceApp.ScanLines | commonMistakeFix.py:146-158 | one path is appended per line of the file that holds the search text, and the counter stays equal to the list's length |
| CommonMistakeFix.FileOccurrencesSound | commonMistakeFix.py:147-154 | every record names an existing line of that file, the line holds the search text, and its new text is the line with every match replaced |
| CommonMistakeFix.FileOccurrencesOrdered | commonMistakeFix.py:147-148 | line numbers strictly increase, so a line with several matches has a single record |
| CommonMistakeFix.FileOccurrencesComplete | commonMistakeFix.py:147-148 | every line that holds the search text has a record |
| CommonMistakeFix.ScanWalkSources | commonMistakeFix.py:141-146 | every record comes from a readable walked file whose name ends with the extension |
| CommonMistakeFix.PreviewedIsReplaceEach | commonMistakeFix.py:147-149 | the new lines the preview shows, with the other lines kept, are the file's lines each passed through replace |
| CommonMistakeFix.WrittenMatchesPreview | commonMistakeFix.py:196-200 | for a non-empty search text without a newline, the content apply writes is the concatenation of the lines the preview showed |
| CommonMistakeFix.RewrittenIff | commonMistakeFix.py:200-205 | a previewed, readable, writable file is written and counted iff it contains the search text and the replacement differs from it |
| CommonMistakeFix.RewrittenBound | commonMistakeFix.py:187-205 | the number of files changed never exceeds the number of distinct previewed paths |
| CommonMistakeFix.SameApplied | commonMistakeFix.py:187 | the outcome depends only on which paths were previewed, not on their order or repeats |
| CommonMistakeFix.Applied | commonMistakeFix.py:194-205 | defines the disk after apply: each previewed, readable, writable file holds its content with every match replaced, all other files are unchanged; `ReplaceFiles`, `RewriteEach` and `SameApplied` are stated with it |
| CommonMistakeFix.Rewritten | commonMistakeFix.py:200-205 | defines the set of files apply writes and counts: previewed, readable, writable, and changed by the replacement; `RewrittenIff` and `RewrittenBound` state its properties |
| CommonMistakeFix.FindReplaceApp.PerformReplace | commonMistakeFix.py:172-220 | an empty preview or a refusal changes nothing; otherwise each previewed readable, writable file holds its content with every match replaced, the count is the number of files whose content changed, and the preview is cleared with the button disabled |
| CommonMistakeFix.ReplaceFiles | commonMistakeFix.py:187-207 | the disk afterwards is the disk with every previewed readable, writable file holding its content with all matches replaced, and the count is the number of those files whose content changed |
| CommonMistakeFix.RewriteEach | commonMistakeFix.py:194-207 | over a list of distinct paths, the same disk and count as apply defines for that list |
| CommonMistakeFix.RewriteFile | commonMistakeFix.py:196-207 | a readable, writable file gets its content with every match replaced; it is counted iff that changed it; a missing or read-only file is left alone |
| PyOs.PathJoin | commonMistakeFix.py:144 | the joined path ends with the file name |
| PySorted.Less | commonMistakeFix.py:187 | defines Python's `<` on strings: code points compared left to right, a proper prefix first; `LessIrreflexive`, `LessTransitive` and `LessTotal` make it a strict total order, which `SortedSet` uses |
| PySorted.SortedSet | commonMistakeFix.py:187 | the result is strictly increasing and holds exactly the previewed paths |
| PySorted.SortedDistinct | commonMistakeFix.py:187 | a strictly sorted list holds each path once |
| PySorted.LessTotal | commonMistakeFix.py:187 | two different strings are ordered one way or the other |
| PySorted.LessTransitive | commonMistakeFix.py:187 | Python's string order is transitive |
| PyStr.ContainsAt | commonMistakeFix.py:148 | the substring test holds iff the text occurs at some position |
| PyReplace.ReplaceAll | commonMistakeFix.py:200 | defines `str.replace`, used here and on each previewed line at line 149: non-overlapping matches from the left, with an empty search text matching before every character and at the end; `ReplaceExamples`, `ReplaceAbsent`, `ReplaceIdentity`, `ReplaceLength` and `ReplaceChangesIff` state its properties |
| PyReplace.Lines | commonMistakeFix.py:146-147 | defines how iterating over a file cuts its content: after every newline, the last line without one when the content does not end with it; `LinesShape` states that the lines put back together give the content |
| PyReplace.ReplaceExamples | commonMistakeFix.py:200 | matches are taken from the left without overlap, inserted text is not searched again, and an empty search text matches around every character |
| PyReplace.ReplaceAbsent | commonMistakeFix.py:200 | a text without the search text comes back unchanged |
| PyReplace.ReplaceIdentity | commonMistakeFix.py:200 | replacing a text by itself changes nothing |
| PyReplace.ReplaceLength | commonMistakeFix.py:200 | the length grows by the number of matches times the length difference |
| PyReplace.MatchCountPositive | commonMistakeFix.py:148-149 | the match count is positive iff the search text occurs |
| PyReplace.ReplaceChangesIff | commonMistakeFix.py:200-202 | the content changes iff the search text occurs and the replacement differs from it |
| PyReplace.LinesShape | commonMistakeFix.py:147 | the lines of a file put back together are its content, and each line but the last ends with its newline |
| PyReplace.ReplaceContentByLines | commonMistakeFix.py:200 | for a search text without a newline, replacing in the whole content equals replacing line by line |
| AllCapsFix.UpperCount | allCapsFix.py:15-19 | there are never more upper-case letters than letters |
| AllCapsFix.AlphaCount | allCapsFix.py:15 | defines the number of letters of the text, never more than its length; `UpperCount`, `IsMostlyUppercase` and `BlankHasNoLetters` use it |
| AllCapsFix.IsMostlyUppercase | allCapsFix.py:7-21 | false for blank text; true iff there is a letter and upper-case letters are at least 60 percent of the letters |
| AllCapsFix.LowerNotMostlyUppercase | allCapsFix.py:15-21 | lower-case text is never picked up |
| AllCapsFix.UpperMostlyUppercase | allCapsFix.py:15-21 | upper-case text is picked up iff it has a letter |
| AllCapsFix.HasPossessiveS | allCapsFix.py:44-45 | defines the test for a possessive word: upper-cased, with trailing `.,!?` removed, it ends in "'S"; `SentenceWordExamples` shows it on "BOB'S," and "CAR" |
| AllCapsFix.CapitalizeFirst | allCapsFix.py:58-59 | the first character is upper-cased and every other character and the length are kept |
| AllCapsFix.SentenceWord | allCapsFix.py:42-52 | a word keeps its length and its letters, only their case changes |
| AllCapsFix.SentenceWordIgnoresCase | allCapsFix.py:44-52 | a word's treatment does not depend on the case it came in |
| AllCapsFix.SentenceWordExamples | allCapsFix.py:44-52 | "BOB'S," becomes "Bob's," and "CAR" becomes "car" |
| AllCapsFix.SentenceCase | allCapsFix.py:35-59 | defines sentence case of a stripped text: split on single spaces, each word treated by `SentenceWord`, joined with single spaces, first character upper-cased; `SentenceCaseKeepsText` and `SentenceCaseFixed` state its properties |
| AllCapsFix.ToSentenceCase | allCapsFix.py:23-61 | defines `to_sentence_case`: blank text as it is, otherwise sentence case of the stripped text; `ToSentenceCaseShape`, `ToSentenceCaseWords` and `ToSentenceCaseIdempotent` state its properties |
| AllCapsFix.SentenceCaseKeepsText | allCapsFix.py:32-59 | the result has the stripped text's length and the same letters up to case |
| AllCapsFix.ToSentenceCaseShape | allCapsFix.py:28-61 | blank text is returned unchanged; otherwise the result is the stripped text up to case, begins with a non-blank character that is not lower case, and ends with a non-blank one |
| AllCapsFix.ToSentenceCaseWords | allCapsFix.py:35-59 | the result splits on spaces into the stripped text's pieces, in order, each treated by the word rule, the first also upper-cased at its start |
| AllCapsFix.ToSentenceCaseIdempotent | allCapsFix.py:23-61 | applying sentence case twice equals applying it once |
| AllCapsFix.SentenceCaseFixed | allCapsFix.py:28-61 | once a text with no whitespace at either end is in sentence case, a second call returns it unchanged |
| AllCapsFix.ProcessJsonData | allCapsFix.py:63-87 | the rewritten document is `Fix` of the input and the flag is `Modified` of it |
| AllCapsFix.ProcessMembers | allCapsFix.py:69-79 | the dict branch rewrites every member in place and reports whether any member was modified |
| AllCapsFix.ProcessMember | allCapsFix.py:72-79 | a "text" string is rewritten iff it is mostly upper case; a dict or list value is visited; anything else is kept |
| AllCapsFix.ProcessItems | allCapsFix.py:80-86 | the list branch visits only dict and list items |
| AllCapsFix.FixKeepsShape | allCapsFix.py:69-86 | the pass changes only strings under "text" keys: keys, order, nesting, strings in lists and all other values stay |
| AllCapsFix.FixUnmodified | allCapsFix.py:63-87 | when no change is reported, the document is unchanged |
| AllCapsFix.FixIdempotent | allCapsFix.py:63-87 | running the pass on its own output changes nothing more |
| AllCapsFix.ModifiedWithoutChange | allCapsFix.py:73-75 | a change is reported, and the file rewritten, even when the text comes back equal ("A") |
| AllCapsFix.Fix | allCapsFix.py:63-87 | defines the document after `process_json_data`: a mostly upper-case string under a "text" key is put in sentence case, in dicts and lists at any depth; `FixKeepsShape`, `FixUnmodified`, `FixIdempotent` and `FixKeepsDistinctKeys` state its properties and `ProcessJsonData` computes it |
| AllCapsFix.Modified | allCapsFix.py:63-87 | defines the flag `process_json_data` returns: some string under a "text" key, at any depth, is mostly upper case; `FixUnmodified` and `ModifiedWithoutChange` relate it to `Fix` and `ProcessJsonData` computes it |
| AllCapsFix.ProcessFiles | allCapsFix.py:152-181 | given documents as `json.load` returns them, the disk and both counters are those of visiting the walk's files in order, and what is written back is again such a document |
| AllCapsFix.ProcessFile | allCapsFix.py:158-178 | a `.json` file is counted as scanned; when it opens, decodes and is reported modified it is counted and written back unless the write fails |
| AllCapsFix.VisitFile | allCapsFix.py:159-178 | defines one file of the walk: a `.json` file is counted as scanned, and one that opens, decodes and is modified is counted and written back unless the write fails; `ProcessFile` computes it and `ProcessWalkWrites` uses it |
| AllCapsFix.ProcessWalk | allCapsFix.py:152-181 | defines the run as the walk's files visited in order from the given disk and zero counters; `ProcessWalkCounts`, `ProcessWalkWrites`, `ProcessWalkFixes` and `ProcessWalkDecoded` state its properties and `ProcessFiles` computes it |
| AllCapsFix.JsonPaths | allCapsFix.py:157-160 | defines the paths of the walk's `.json` files, entry by entry; `JsonPathsLast` states the step |
| AllCapsFix.ProcessWalkCounts | allCapsFix.py:154-169 | files modified never exceed files scanned, which never exceed files walked; no file appears or vanishes |
| AllCapsFix.ProcessWalkWrites | allCapsFix.py:164-171 | each file afterwards holds its old document or the fixed form of it, and changes only if it is a writable `.json` file of the walk reported as modified |
| AllCapsFix.ProcessWalkFixes | allCapsFix.py:164-171 | a writable `.json` file of the walk whose document is reported modified ends holding the fixed document, however often the walk visits it |
| AllCapsFix.ProcessWalkDecoded | allCapsFix.py:165-171 | when every document on disk has each key once per dict, so does every document after the run |
| AllCapsFix.FixKeepsDistinctKeys | allCapsFix.py:63-87 | the pass keeps every key, so a document with distinct keys in each dict keeps them |
| JsonValue.Get | changedFileViewer.py:32 | lookup finds a value iff the key is present, and the value is that of a member with the key |
| JsonValue.GetDistinct | changedFileViewer.py:32 | in a dict whose keys are distinct, lookup of a member's key gives that member's value |
| JsonValue.GetAppend | changedFileViewer.py:32-35 | a later member with the same key hides earlier ones; other keys do not matter |
| ChangedFileViewer.GetOr | changedFileViewer.py:38 | defines `d.get(key, default)`: the value `Get` finds, or the default when the key is absent |
| ChangedFileViewer.SegmentTexts | changedFileViewer.py:37-40 | the texts of the dict segments, in order, never more than the segments; `SegmentTextsAppend` and `NonDictSegmentIgnored` state how segments add up and that other segments are skipped |
| ChangedFileViewer.ExtractText | changedFileViewer.py:25-43 | defines `extract_text_from_json`: a truthy "text" value, else the stripped one-space join of the dict segments' texts when "segments" is a list, else the empty string, and `TypeError` where Python's `in`, indexing or `join` raises; the lemmas below state its properties |
| ChangedFileViewer.JoinTexts | changedFileViewer.py:41 | the join succeeds iff every collected text is a string |
| ChangedFileViewer.TextTakesPrecedence | changedFileViewer.py:32-33 | a truthy "text" value is returned as it is, whatever "segments" holds |
| ChangedFileViewer.FalsyTextFallsThrough | changedFileViewer.py:32-35 | a falsy "text" value is ignored: the result is that of the dict without it |
| ChangedFileViewer.NonDictSegmentIgnored | changedFileViewer.py:37-40 | a segment that is not a dict contributes nothing, wherever it stands |
| ChangedFileViewer.ExtractedStringIsStripped | changedFileViewer.py:35-43 | a string not taken straight from "text" has no whitespace at either end |
| ChangedFileViewer.EmptyWithoutTextOrSegments | changedFileViewer.py:35-43 | without a usable "text", an empty or missing "segments" list gives the empty string |
| ChangedFileViewer.ObjectRaisesOnlyOnSegments | changedFileViewer.py:32-43 | a dict raises iff its text is unusable, its "segments" is a list, and some dict segment's text is not a string |
| ChangedFileViewer.TwoSegmentsJoined | changedFileViewer.py:35-41 | the texts of two dict segments are joined by one space and stripped, and a segment that is not a dict between them is skipped |
| ChangedFileViewer.KeepJson | changedFileViewer.py:61-64 | the kept paths are exactly the lines that end in ".json" |
| ChangedFileViewer.EmptyLineNeverJson | changedFileViewer.py:63 | the test that the line is not empty never rejects a line ending in ".json" |
| ChangedFileViewer.JsonFiles | changedFileViewer.py:61-64 | defines the list of changed `.json` files: git's stripped output split on newlines and filtered by `KeepJson`, whose contract and `KeepJsonPositions` state what is kept and in which order |
| ChangedFileViewer.KeepJsonPositions | changedFileViewer.py:61-64 | kept paths keep git's order: for i < j it returns positions a < b in git's output holding the i-th and j-th kept paths |
| ChangedFileViewer.CompareJson | changedFileViewer.py:45-109 | the run ends as `CompareJsonFiles` says: a failed diff, no `.json` files, a count, or the file whose extraction raised |
| ChangedFileViewer.CompareJsonFiles | changedFileViewer.py:45-109 | defines the end of a run: a failed diff, no `.json` files, or the result of the loop over the files; `CompareJson` computes it |
| ChangedFileViewer.CompareFile | changedFileViewer.py:74-106 | defines one file: skipped when either commit lacks it or either side does not decode, a crash when extraction raises, otherwise changed or not as the extracted values differ |
| ChangedFileViewer.CountChanged | changedFileViewer.py:72-106 | defines the loop over the files: counts the changed ones and stops at the first that raises; `CountBounded`, `CountExact`, `CrashedIff`, `RaisingCrashes`, `FirstRaising`, `CountSymmetric` and `CountSameCommit` state its properties |
| ChangedFileViewer.CountBounded | changedFileViewer.py:70-106 | the count never exceeds the number of filtered paths |
| ChangedFileViewer.CountExact | changedFileViewer.py:79-95 | a normal run counts exactly the files whose old and new texts differ; skipped files never count |
| ChangedFileViewer.CrashedIff | changedFileViewer.py:84-91 | the run stops early iff some file's extraction raises, and then at the first such file |
| ChangedFileViewer.RaisingCrashes | changedFileViewer.py:84-91 | a file whose extraction raises makes the run stop early |
| ChangedFileViewer.FirstRaising | changedFileViewer.py:84-91 | a run that stopped early names a file that raises, and no earlier file raises |
| ChangedFileViewer.CountSymmetric | changedFileViewer.py:94-95 | comparing the commits the other way round gives the same result |
| ChangedFileViewer.CountSameCommit | changedFileViewer.py:94-95 | comparing a commit with itself counts no change |

## Left out

- The Tk user interface is not modelled: windows, dialogs, message boxes, the Treeview rows
  and the status label. The confirmation dialog is a boolean parameter and the directory
  dialog a string parameter. The `.strip()` applied to lines for display is display-only.
- `JsonFixerApp` as a class is left out. The directory that `browse_directory` stores in
  `directory_path` (allCapsFix.py:125) is abstracted into the `walk` input of
  `ProcessFiles`. The guard of `start_processing_thread` that refuses to start without a
  chosen directory (allCapsFix.py:139-141) is not modelled. `on_processing_complete` only
  drives widgets. `process_files` updates no field and is modelled as the method
  `ProcessFiles`.
- PyOs.PathJoin: joins with `/`, as `os.path.join` does on POSIX systems; the Windows
  separator `\` and drive letters are not modelled.
- The worker thread and the `root.after` hand-off in the upper-case fixer are left out:
  they exist only to keep the window responsive.
- The file system's behaviour is abstracted:
  - the walk's order and errors are an input;
  - `errors='ignore'` decoding, universal-newline translation (`\r\n` read as `\n`) and
    encodings are not modelled;
  - a write either succeeds whole or fails before changing the file;
  - the outer `except Exception` handlers are not modelled, since only I/O can raise
    there.
- The preview reads the replacement entry once per matching line. The model reads it once
  per preview, since nothing can change it during the loop.
- JSON parsing and serialisation are inputs and outputs. A document that does not decode is
  `Malformed`. `json.dump` with `indent=2` is taken to write back exactly the fixed document.
  Numbers are integers only, so floats are not modelled.
- Git is an input. A failed `git show` is a path missing from that commit's map. A missing
  `git` executable (`sys.exit`) is left out.
- Output for the user is left out in all three tools: the prints of the changed-file
  viewer (changedFileViewer.py:49-109), the error prints of find and replace
  (commonMistakeFix.py:160 and 207), and the log area of the upper-case fixer
  (`JsonFixerApp.log`, allCapsFix.py:130-135, called at 161-178). None of it changes a
  file, a counter or a result.
- Case mapping and `isalpha`/`isupper` are ASCII only. Other characters are not letters and
  keep their case. Whitespace follows Python's full `isspace` list.
- AllCapsFix.IsMostlyUppercase: the float test `upper / alpha >= 0.60` is stated as
  `100 * upper >= 60 * alpha`. The two agree unless rounding brings a ratio just below 0.6
  up to it, which needs texts of about 10^15 letters or more.
- The `if not words` branch of `to_sentence_case` is not modelled: `split(' ')` never
  returns an empty list (`PyStr.Split` ensures at least one piece).
- ChangedFileViewer.CompareJson: extracted values are compared structurally. Python's `!=`
  also equates `True` with `1` and ignores dict member order.
- A dict is a sequence of members. `Get` takes the last member with a key, as the decoder
  keeps the last of repeated keys. `Fix` and `Modified` visit every member of the sequence,
  so on a sequence with a repeated key they would also treat the hidden members.
  `AllCapsFix.ProcessFiles` and `ChangedFileViewer.CompareJson` therefore take only documents
  whose dicts hold each key once (`JsonValue.Decoded`), as `json.load` returns them. The
  decoder's merging of repeated keys in the file text is not modelled.
- ChangedFileViewer.KeepJsonPositions: order is stated by the positions of the values in git's
  output. When a line repeats, this is weaker than "a subsequence".
