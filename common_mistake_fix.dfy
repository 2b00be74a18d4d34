/** The bulk find-and-replace tool (commonMistakeFix.py). A preview pass walks
    a directory, keeps the files whose name ends with the chosen extension, and
    records every line that contains the search text (case-sensitively); an
    apply pass then rewrites each previewed file whole with Python's
    `str.replace`, writing only the files whose content changes.

    The directory walk is given as the sequence of (directory, file name)
    pairs it yields, the disk as a map from path to content (a missing path is
    a file that cannot be read), and the files that cannot be written as a set
    of paths. */
module CommonMistakeFix {
  import opened PyStr
  import opened PyReplace
  import opened PySorted
  import opened PyOs

  /** The extension entry with a leading dot put in front when it lacks one. */
  function NormalizeExtension(ext: string): (r: string)
    ensures StartsWith(r, ".")
    ensures StartsWith(ext, ".") ==> r == ext
    ensures EndsWith(r, ext) && |r| <= |ext| + 1
  {
    var r := if StartsWith(ext, ".") then ext else "." + ext;
    assert r[|r| - |ext|..] == ext;
    r
  }

  /** Normalising twice is normalising once. */
  lemma NormalizeIdempotent(ext: string)
    ensures NormalizeExtension(NormalizeExtension(ext)) == NormalizeExtension(ext)
  {
  }

  // ---------------------------------------------------------------- preview

  /** What the preview shows for one matching line: the file, the 1-based line
      number, the line as read, and the line after replacement. The tool
      itself keeps only the path; the rest is what it displays. */
  datatype Occurrence = Occurrence(path: string, lineNum: nat, line: string, newLine: string)

  /** The paths of the records, in order: the tool's preview list. */
  function Paths(occs: seq<Occurrence>): (r: seq<string>)
    ensures |r| == |occs|
    ensures forall k :: 0 <= k < |occs| ==> r[k] == occs[k].path
  {
    seq(|occs|, k requires 0 <= k < |occs| => occs[k].path)
  }

  lemma PathsAppend(a: seq<Occurrence>, b: seq<Occurrence>)
    ensures Paths(a + b) == Paths(a) + Paths(b)
  {
  }

  /** The records for one file: one per line that contains `find`, in line
      order (characterised by `FileOccurrencesExact`). */
  function FileOccurrences(path: string, lines: seq<string>, find: string, rep: string): seq<Occurrence>
  {
    if |lines| == 0 then []
    else
      var n := |lines|;
      var last := lines[n - 1];
      FileOccurrences(path, lines[..n - 1], find, rep)
      + if Contains(last, find) then [Occurrence(path, n, last, ReplaceAll(last, find, rep))] else []
  }

  /** Each record shows a line of `path` that holds the search text, with
      every match replaced. */
  predicate RecordsSound(occs: seq<Occurrence>, path: string, lines: seq<string>, find: string, rep: string) {
    forall k :: 0 <= k < |occs| ==>
      1 <= occs[k].lineNum <= |lines| && occs[k].path == path
      && occs[k].line == lines[occs[k].lineNum - 1] && Contains(occs[k].line, find)
      && occs[k].newLine == ReplaceAll(occs[k].line, find, rep)
  }

  /** Line numbers strictly increase, so no line has two records. */
  predicate RecordsOrdered(occs: seq<Occurrence>) {
    forall k, k' :: 0 <= k < k' < |occs| ==> occs[k].lineNum < occs[k'].lineNum
  }

  lemma {:induction false} FileOccurrencesSound(path: string, lines: seq<string>, find: string, rep: string)
    ensures RecordsSound(FileOccurrences(path, lines, find, rep), path, lines, find, rep)
  {
    if |lines| > 0 {
      var n := |lines|;
      var init := lines[..n - 1];
      FileOccurrencesSound(path, init, find, rep);
      var before := FileOccurrences(path, init, find, rep);
      var r := FileOccurrences(path, lines, find, rep);
      var last := lines[n - 1];
      var tail := if Contains(last, find) then [Occurrence(path, n, last, ReplaceAll(last, find, rep))] else [];
      assert r == before + tail;
      forall k | 0 <= k < |r|
        ensures 1 <= r[k].lineNum <= |lines| && r[k].path == path
        ensures r[k].line == lines[r[k].lineNum - 1] && Contains(r[k].line, find)
        ensures r[k].newLine == ReplaceAll(r[k].line, find, rep)
      {
        if k < |before| {
          assert r[k] == before[k];
          assert init[r[k].lineNum - 1] == lines[r[k].lineNum - 1];
        } else {
          assert r[k] == tail[k - |before|];
        }
      }
    }
  }

  lemma {:induction false} FileOccurrencesOrdered(path: string, lines: seq<string>, find: string, rep: string)
    ensures RecordsOrdered(FileOccurrences(path, lines, find, rep))
  {
    if |lines| > 0 {
      var n := |lines|;
      var init := lines[..n - 1];
      FileOccurrencesOrdered(path, init, find, rep);
      FileOccurrencesSound(path, init, find, rep);
      var before := FileOccurrences(path, init, find, rep);
      var r := FileOccurrences(path, lines, find, rep);
      var last := lines[n - 1];
      var tail := if Contains(last, find) then [Occurrence(path, n, last, ReplaceAll(last, find, rep))] else [];
      assert r == before + tail;
      forall k, k' | 0 <= k < k' < |r| ensures r[k].lineNum < r[k'].lineNum {
        assert r[k] == before[k];
        if k' < |before| {
          assert r[k'] == before[k'];
        } else {
          assert r[k'] == tail[k' - |before|];
        }
      }
    }
  }

  /** Every line holding the search text has a record. */
  lemma {:induction false} FileOccurrencesComplete(path: string, lines: seq<string>, find: string, rep: string, i: nat)
    requires i < |lines| && Contains(lines[i], find)
    ensures exists k :: 0 <= k < |FileOccurrences(path, lines, find, rep)| && FileOccurrences(path, lines, find, rep)[k].lineNum == i + 1
  {
    var n := |lines|;
    var init := lines[..n - 1];
    var before := FileOccurrences(path, init, find, rep);
    var r := FileOccurrences(path, lines, find, rep);
    var last := lines[n - 1];
    var tail := if Contains(last, find) then [Occurrence(path, n, last, ReplaceAll(last, find, rep))] else [];
    assert r == before + tail;
    if i == n - 1 {
      assert r[|before|] == tail[0];
    } else {
      assert init[i] == lines[i];
      FileOccurrencesComplete(path, init, find, rep, i);
      var k :| 0 <= k < |before| && before[k].lineNum == i + 1;
      assert r[k] == before[k];
    }
  }

  /** The records of a whole walk: files in walk order, and within a file the
      lines top to bottom. Files whose name does not end with `ext`, and
      files that cannot be read, contribute nothing. */
  function ScanWalk(walk: seq<WalkEntry>, disk: map<string, string>, ext: string, find: string, rep: string): seq<Occurrence>
  {
    if |walk| == 0 then []
    else
      var e := walk[|walk| - 1];
      var p := PathJoin(e.dir, e.name);
      ScanWalk(walk[..|walk| - 1], disk, ext, find, rep)
      + if EndsWith(e.name, ext) && p in disk then FileOccurrences(p, Lines(disk[p]), find, rep) else []
  }

  /** Each record comes from a readable file of the walk whose name ends with
      the extension, and from a line holding the search text. */
  predicate FromWalk(occs: seq<Occurrence>, walk: seq<WalkEntry>, disk: map<string, string>, ext: string, find: string, rep: string) {
    forall k :: 0 <= k < |occs| ==>
      occs[k].path in disk && Contains(occs[k].line, find) && occs[k].newLine == ReplaceAll(occs[k].line, find, rep)
      && exists e :: e in walk && EndsWith(e.name, ext) && PathJoin(e.dir, e.name) == occs[k].path
  }

  lemma {:induction false} ScanWalkSources(walk: seq<WalkEntry>, disk: map<string, string>, ext: string, find: string, rep: string)
    ensures FromWalk(ScanWalk(walk, disk, ext, find, rep), walk, disk, ext, find, rep)
  {
    if |walk| > 0 {
      var init := walk[..|walk| - 1];
      var e := walk[|walk| - 1];
      var p := PathJoin(e.dir, e.name);
      ScanWalkSources(init, disk, ext, find, rep);
      var before := ScanWalk(init, disk, ext, find, rep);
      var r := ScanWalk(walk, disk, ext, find, rep);
      var own := if EndsWith(e.name, ext) && p in disk then FileOccurrences(p, Lines(disk[p]), find, rep) else [];
      assert r == before + own;
      if EndsWith(e.name, ext) && p in disk {
        FileOccurrencesSound(p, Lines(disk[p]), find, rep);
      }
      forall k | 0 <= k < |r|
        ensures r[k].path in disk && Contains(r[k].line, find) && r[k].newLine == ReplaceAll(r[k].line, find, rep)
        ensures exists x :: x in walk && EndsWith(x.name, ext) && PathJoin(x.dir, x.name) == r[k].path
      {
        if k < |before| {
          assert r[k] == before[k];
          var x :| x in init && EndsWith(x.name, ext) && PathJoin(x.dir, x.name) == r[k].path;
          assert x in walk;
        } else {
          assert r[k] == own[k - |before|];
          assert e in walk;
        }
      }
    }
  }

  /** The new text the preview shows for line `n`, or `default` when no
      record covers that line. */
  function NewLineAt(occs: seq<Occurrence>, n: nat, default: string): string
  {
    if |occs| == 0 then default
    else if occs[0].lineNum == n then occs[0].newLine
    else NewLineAt(occs[1..], n, default)
  }

  lemma {:induction false} NewLineAtFound(occs: seq<Occurrence>, k: nat, default: string)
    requires k < |occs|
    requires forall j :: 0 <= j < k ==> occs[j].lineNum != occs[k].lineNum
    ensures NewLineAt(occs, occs[k].lineNum, default) == occs[k].newLine
  {
    if k > 0 {
      NewLineAtFound(occs[1..], k - 1, default);
    }
  }

  lemma {:induction false} NewLineAtMissing(occs: seq<Occurrence>, n: nat, default: string)
    requires forall j :: 0 <= j < |occs| ==> occs[j].lineNum != n
    ensures NewLineAt(occs, n, default) == default
  {
    if |occs| > 0 {
      NewLineAtMissing(occs[1..], n, default);
    }
  }

  /** The lines of a file as the preview shows them after replacement: each
      previewed line by its new text, every other line as it was. */
  function PreviewedLines(lines: seq<string>, occs: seq<Occurrence>): (r: seq<string>)
    ensures |r| == |lines|
  {
    seq(|lines|, i requires 0 <= i < |lines| => NewLineAt(occs, i + 1, lines[i]))
  }

  /** The lines the preview shows are the lines replaced one by one. */
  lemma PreviewedIsReplaceEach(path: string, lines: seq<string>, find: string, rep: string)
    ensures PreviewedLines(lines, FileOccurrences(path, lines, find, rep)) == ReplaceEach(lines, find, rep)
  {
    forall i | 0 <= i < |lines|
      ensures PreviewedLines(lines, FileOccurrences(path, lines, find, rep))[i] == ReplaceEach(lines, find, rep)[i]
    {
      PreviewedLineAt(path, lines, find, rep, i);
    }
  }

  /** Line `i` as the preview shows it is the line with every match replaced. */
  lemma PreviewedLineAt(path: string, lines: seq<string>, find: string, rep: string, i: nat)
    requires i < |lines|
    ensures NewLineAt(FileOccurrences(path, lines, find, rep), i + 1, lines[i]) == ReplaceAll(lines[i], find, rep)
  {
    var occs := FileOccurrences(path, lines, find, rep);
    FileOccurrencesSound(path, lines, find, rep);
    if Contains(lines[i], find) {
      FileOccurrencesOrdered(path, lines, find, rep);
      FileOccurrencesComplete(path, lines, find, rep, i);
      var k :| 0 <= k < |occs| && occs[k].lineNum == i + 1;
      NewLineAtFound(occs, k, lines[i]);
    } else {
      NewLineAtMissing(occs, i + 1, lines[i]);
      ReplaceAbsent(lines[i], find, rep);
    }
  }

  /** What apply writes for a file is what the preview showed for it, line by
      line, provided the file and the search and replacement texts are the
      same as at preview time and the search text holds no newline. */
  lemma WrittenMatchesPreview(path: string, content: string, find: string, rep: string)
    requires |find| > 0 && '\n' !in find
    ensures ReplaceAll(content, find, rep)
      == Concat(PreviewedLines(Lines(content), FileOccurrences(path, Lines(content), find, rep)))
  {
    ReplaceContentByLines(content, find, rep);
    PreviewedIsReplaceEach(path, Lines(content), find, rep);
  }

  // ---------------------------------------------------------------- apply

  /** The disk after apply: every readable, writable previewed file holds its
      content with all matches replaced; nothing else changes. */
  function Applied(disk: map<string, string>, paths: seq<string>, find: string, rep: string, readOnly: set<string>): (r: map<string, string>)
    ensures r.Keys == disk.Keys
  {
    map p | p in disk :: if p in paths && p !in readOnly then ReplaceAll(disk[p], find, rep) else disk[p]
  }

  /** The files apply writes and counts: readable, writable, previewed, and
      changed by the replacement. */
  function Rewritten(disk: map<string, string>, paths: seq<string>, find: string, rep: string, readOnly: set<string>): set<string>
  {
    set p | p in paths && p in disk && p !in readOnly && ReplaceAll(disk[p], find, rep) != disk[p]
  }

  /** A file is rewritten exactly when it contains the search text and the
      replacement differs from it. */
  lemma RewrittenIff(disk: map<string, string>, paths: seq<string>, find: string, rep: string, readOnly: set<string>, p: string)
    ensures p in Rewritten(disk, paths, find, rep, readOnly)
      <==> p in paths && p in disk && p !in readOnly && Contains(disk[p], find) && rep != find
  {
    if p in disk {
      ReplaceChangesIff(disk[p], find, rep);
    }
  }

  /** Apply never counts more files than there are distinct previewed paths. */
  lemma RewrittenBound(disk: map<string, string>, paths: seq<string>, find: string, rep: string, readOnly: set<string>)
    ensures |Rewritten(disk, paths, find, rep, readOnly)| <= |SortedSet(paths)|
  {
    var files := SortedSet(paths);
    SortedDistinct(files);
    DistinctCard(files);
    SubsetCard(Rewritten(disk, paths, find, rep, readOnly), set p | p in files);
  }

  lemma {:induction false} DistinctCard(xs: seq<string>)
    requires forall i, j :: 0 <= i < j < |xs| ==> xs[i] != xs[j]
    ensures |set x | x in xs| == |xs|
  {
    if |xs| > 0 {
      var init := xs[..|xs| - 1];
      DistinctCard(init);
      assert (set x | x in xs) == (set x | x in init) + {xs[|xs| - 1]};
      assert xs[|xs| - 1] !in init;
    }
  }

  lemma {:induction false} SubsetCard(a: set<string>, b: set<string>)
    requires a <= b
    ensures |a| <= |b|
    decreases |b|
  {
    if a != {} {
      var x :| x in a;
      SubsetCard(a - {x}, b - {x});
    }
  }

  /** Rewriting one more distinct file extends the result by that file. */
  lemma ApplyStep(disk: map<string, string>, files: seq<string>, i: nat, find: string, rep: string, readOnly: set<string>)
    requires i < |files|
    requires files[i] !in files[..i]
    ensures var p := files[i];
      Applied(disk, files[..i + 1], find, rep, readOnly)
        == if p in disk && p !in readOnly then Applied(disk, files[..i], find, rep, readOnly)[p := ReplaceAll(disk[p], find, rep)]
           else Applied(disk, files[..i], find, rep, readOnly)
    ensures var p := files[i];
      |Rewritten(disk, files[..i + 1], find, rep, readOnly)|
        == |Rewritten(disk, files[..i], find, rep, readOnly)|
           + if p in disk && p !in readOnly && ReplaceAll(disk[p], find, rep) != disk[p] then 1 else 0
  {
    var a, p := files[..i], files[i];
    assert files[..i + 1] == a + [p];
    AppliedAppend(disk, a, p, find, rep, readOnly);
    RewrittenAppend(disk, a, p, find, rep, readOnly);
  }

  /** Rewriting the next distinct file as `RewriteFile` does extends apply by
      that file, and counts it when it changed. */
  lemma RewriteStep(disk: map<string, string>, files: seq<string>, i: nat, find: string, rep: string, readOnly: set<string>,
                    before: map<string, string>, after: map<string, string>, changed: bool)
    requires forall i, j :: 0 <= i < j < |files| ==> files[i] != files[j]
    requires i < |files|
    requires before == Applied(disk, files[..i], find, rep, readOnly)
    requires var p := files[i];
      after == if p in before && p !in readOnly then before[p := ReplaceAll(before[p], find, rep)] else before
    requires var p := files[i];
      changed <==> p in before && p !in readOnly && ReplaceAll(before[p], find, rep) != before[p]
    ensures after == Applied(disk, files[..i + 1], find, rep, readOnly)
    ensures |Rewritten(disk, files[..i + 1], find, rep, readOnly)|
      == |Rewritten(disk, files[..i], find, rep, readOnly)| + if changed then 1 else 0
  {
    var p := files[i];
    assert p !in files[..i];
    ApplyStep(disk, files, i, find, rep, readOnly);
    if p in disk {
      AppliedUnlisted(disk, files[..i], p, find, rep, readOnly);
    }
  }

  /** A file not yet listed still holds its old content. */
  lemma AppliedUnlisted(disk: map<string, string>, a: seq<string>, p: string, find: string, rep: string, readOnly: set<string>)
    requires p !in a && p in disk
    ensures Applied(disk, a, find, rep, readOnly)[p] == disk[p]
  {
  }

  lemma AppliedAppend(disk: map<string, string>, a: seq<string>, p: string, find: string, rep: string, readOnly: set<string>)
    requires p !in a
    ensures Applied(disk, a + [p], find, rep, readOnly)
      == if p in disk && p !in readOnly then Applied(disk, a, find, rep, readOnly)[p := ReplaceAll(disk[p], find, rep)]
         else Applied(disk, a, find, rep, readOnly)
  {
    var lhs := Applied(disk, a + [p], find, rep, readOnly);
    var prev := Applied(disk, a, find, rep, readOnly);
    if p in disk && p !in readOnly {
      var rhs := prev[p := ReplaceAll(disk[p], find, rep)];
      forall q | q in disk
        ensures lhs[q] == rhs[q]
      {
        assert q in a + [p] <==> q in a || q == p;
      }
      assert lhs == rhs;
    } else {
      forall q | q in disk
        ensures lhs[q] == prev[q]
      {
        assert q in a + [p] <==> q in a || q == p;
      }
      assert lhs == prev;
    }
  }

  lemma RewrittenAppend(disk: map<string, string>, a: seq<string>, p: string, find: string, rep: string, readOnly: set<string>)
    requires p !in a
    ensures Rewritten(disk, a + [p], find, rep, readOnly)
      == Rewritten(disk, a, find, rep, readOnly)
         + if p in disk && p !in readOnly && ReplaceAll(disk[p], find, rep) != disk[p] then {p} else {}
    ensures p !in Rewritten(disk, a, find, rep, readOnly)
  {
    forall q
      ensures q in Rewritten(disk, a + [p], find, rep, readOnly) <==> q in Rewritten(disk, a, find, rep, readOnly) || (q == p && p in disk && p !in readOnly && ReplaceAll(disk[p], find, rep) != disk[p])
    {
      assert q in a + [p] <==> q in a || q == p;
    }
  }

  /** The paths the walk yields grow by those of one more entry: the preview
      of a file the walk visits is appended to what came before. */
  lemma ScanWalkStep(walk: seq<WalkEntry>, i: nat, disk: map<string, string>, ext: string, find: string, rep: string,
                     before: seq<string>, after: seq<string>)
    requires i < |walk|
    requires before == Paths(ScanWalk(walk[..i], disk, ext, find, rep))
    requires var path := PathJoin(walk[i].dir, walk[i].name);
      after == if EndsWith(walk[i].name, ext) && path in disk
        then before + Paths(FileOccurrences(path, Lines(disk[path]), find, rep)) else before
    ensures after == Paths(ScanWalk(walk[..i + 1], disk, ext, find, rep))
  {
    var e := walk[i];
    var path := PathJoin(e.dir, e.name);
    assert walk[..i + 1][..i] == walk[..i];
    var own := if EndsWith(e.name, ext) && path in disk then FileOccurrences(path, Lines(disk[path]), find, rep) else [];
    assert ScanWalk(walk[..i + 1], disk, ext, find, rep) == ScanWalk(walk[..i], disk, ext, find, rep) + own;
    PathsAppend(ScanWalk(walk[..i], disk, ext, find, rep), own);
    assert Paths(own) == [] ==> before + Paths(own) == before;
  }

  // ---------------------------------------------------------------- the tool

  /** How a preview ended, as reported to the user. */
  datatype PreviewOutcome = NoDirectory | NoFindText | NoneFound | Found(count: nat)

  /** How an apply ended, as reported to the user. */
  datatype ReplaceOutcome = NothingToReplace | Cancelled | Replaced(filesChanged: nat)

  class FindReplaceApp {
    var targetDirectory: string
    var findText: string
    var replaceText: string
    var fileExtension: string
    /** One path per previewed line: what apply works from. */
    var previewData: seq<string>
    /** Whether the "Replace All" button is enabled. */
    var replaceEnabled: bool

    constructor ()
      ensures targetDirectory == "" && findText == "" && replaceText == ""
      ensures fileExtension == ".txt"
      ensures previewData == [] && !replaceEnabled
    {
      targetDirectory, findText, replaceText := "", "", "";
      fileExtension := ".txt";
      previewData := [];
      replaceEnabled := false;
    }

    /** The directory chosen in the dialog; cancelling keeps the old one. */
    method SelectDirectory(chosen: string)
      modifies this`targetDirectory
      ensures targetDirectory == if chosen != "" then chosen else old(targetDirectory)
    {
      if chosen != "" {
        targetDirectory := chosen;
      }
    }

    /** Clears the preview, checks the inputs, normalises the extension, then
        records one path per matching line of every file of the walk. */
    method PreviewChanges(walk: seq<WalkEntry>, disk: map<string, string>) returns (outcome: PreviewOutcome)
      modifies this`previewData, this`replaceEnabled, this`fileExtension
      ensures targetDirectory == "" ==>
        outcome == NoDirectory && previewData == [] && !replaceEnabled && fileExtension == old(fileExtension)
      ensures targetDirectory != "" && findText == "" ==>
        outcome == NoFindText && previewData == [] && !replaceEnabled && fileExtension == old(fileExtension)
      ensures targetDirectory != "" && findText != "" ==>
        fileExtension == NormalizeExtension(old(fileExtension))
        && previewData == Paths(ScanWalk(walk, disk, fileExtension, findText, replaceText))
        && replaceEnabled == (|previewData| > 0)
        && outcome == (if |previewData| > 0 then Found(|previewData|) else NoneFound)
    {
      previewData := [];
      replaceEnabled := false;
      if targetDirectory == "" {
        return NoDirectory;
      }
      if findText == "" {
        return NoFindText;
      }
      if !StartsWith(fileExtension, ".") {
        fileExtension := "." + fileExtension;
      }
      var found := ScanWalkInto(walk, disk, fileExtension, findText, replaceText);
      if found > 0 {
        replaceEnabled := true;
        outcome := Found(found);
      } else {
        outcome := NoneFound;
      }
    }

    /** The outer loop of the preview: every file of the walk with the
        extension, in the order the walk yields them. */
    method ScanWalkInto(walk: seq<WalkEntry>, disk: map<string, string>, ext: string, find: string, rep: string)
      returns (found: nat)
      requires previewData == []
      modifies this`previewData
      ensures previewData == Paths(ScanWalk(walk, disk, ext, find, rep))
      ensures found == |previewData|
    {
      found := 0;
      for i := 0 to |walk|
        invariant previewData == Paths(ScanWalk(walk[..i], disk, ext, find, rep))
        invariant found == |previewData|
      {
        ghost var before := previewData;
        var e := walk[i];
        var path := PathJoin(e.dir, e.name);
        if EndsWith(e.name, ext) && path in disk {
          found := ScanLines(path, Lines(disk[path]), find, rep, found);
        }
        ScanWalkStep(walk, i, disk, ext, find, rep, before, previewData);
      }
      assert walk[..|walk|] == walk;
    }

    /** The inner loop of the preview: one path appended per line of the
        file that holds the search text. */
    method ScanLines(path: string, lines: seq<string>, find: string, rep: string, found: nat) returns (found': nat)
      requires found == |previewData|
      modifies this`previewData
      ensures previewData == old(previewData) + Paths(FileOccurrences(path, lines, find, rep))
      ensures found' == |previewData|
    {
      found' := found;
      for j := 0 to |lines|
        invariant previewData == old(previewData) + Paths(FileOccurrences(path, lines[..j], find, rep))
        invariant found' == |previewData|
      {
        assert lines[..j + 1][..j] == lines[..j];
        ghost var tail := if Contains(lines[j], find) then [Occurrence(path, j + 1, lines[j], ReplaceAll(lines[j], find, rep))] else [];
        assert FileOccurrences(path, lines[..j + 1], find, rep) == FileOccurrences(path, lines[..j], find, rep) + tail;
        PathsAppend(FileOccurrences(path, lines[..j], find, rep), tail);
        if Contains(lines[j], find) {
          previewData := previewData + [path];
          found' := found' + 1;
        }
      }
      assert lines[..|lines|] == lines;
    }

    /** Asks for confirmation, then rewrites each distinct previewed file once,
        in sorted order, with the search and replacement texts as they are
        now; counts the files written; clears the preview. */
    method PerformReplace(disk: map<string, string>, readOnly: set<string>, confirmed: bool)
      returns (newDisk: map<string, string>, outcome: ReplaceOutcome)
      modifies this`previewData, this`replaceEnabled
      ensures old(previewData) == [] ==>
        outcome == NothingToReplace && newDisk == disk
        && previewData == old(previewData) && replaceEnabled == old(replaceEnabled)
      ensures old(previewData) != [] && !confirmed ==>
        outcome == Cancelled && newDisk == disk
        && previewData == old(previewData) && replaceEnabled == old(replaceEnabled)
      ensures old(previewData) != [] && confirmed ==>
        newDisk == Applied(disk, old(previewData), findText, replaceText, readOnly)
        && outcome == Replaced(|Rewritten(disk, old(previewData), findText, replaceText, readOnly)|)
        && previewData == [] && !replaceEnabled
    {
      if previewData == [] {
        return disk, NothingToReplace;
      }
      if !confirmed {
        return disk, Cancelled;
      }
      var filesChanged;
      newDisk, filesChanged := ReplaceFiles(disk, previewData, findText, replaceText, readOnly);
      previewData := [];
      replaceEnabled := false;
      outcome := Replaced(filesChanged);
    }
  }

  /** Apply: each distinct previewed path once, in sorted order. */
  method ReplaceFiles(disk: map<string, string>, paths: seq<string>, find: string, rep: string, readOnly: set<string>)
    returns (newDisk: map<string, string>, filesChanged: nat)
    ensures newDisk == Applied(disk, paths, find, rep, readOnly)
    ensures filesChanged == |Rewritten(disk, paths, find, rep, readOnly)|
  {
    var files := SortedSet(paths);
    SortedDistinct(files);
    newDisk, filesChanged := RewriteEach(disk, files, find, rep, readOnly);
    SameApplied(disk, files, paths, find, rep, readOnly);
  }

  /** The loop of apply over a list of distinct paths. */
  method RewriteEach(disk: map<string, string>, files: seq<string>, find: string, rep: string, readOnly: set<string>)
    returns (newDisk: map<string, string>, filesChanged: nat)
    requires forall i, j :: 0 <= i < j < |files| ==> files[i] != files[j]
    ensures newDisk == Applied(disk, files, find, rep, readOnly)
    ensures filesChanged == |Rewritten(disk, files, find, rep, readOnly)|
  {
    filesChanged := 0;
    newDisk := disk;
    for i := 0 to |files|
      invariant newDisk == Applied(disk, files[..i], find, rep, readOnly)
      invariant filesChanged == |Rewritten(disk, files[..i], find, rep, readOnly)|
    {
      ghost var before := newDisk;
      var changed;
      newDisk, changed := RewriteFile(newDisk, files[i], find, rep, readOnly);
      RewriteStep(disk, files, i, find, rep, readOnly, before, newDisk, changed);
      if changed {
        filesChanged := filesChanged + 1;
      }
    }
    assert files[..|files|] == files;
  }

  /** One file of apply: read it, replace every match, and write it back when
      that changed it; a file that cannot be read or written is left alone. */
  method RewriteFile(disk: map<string, string>, path: string, find: string, rep: string, readOnly: set<string>)
    returns (newDisk: map<string, string>, changed: bool)
    ensures changed <==> path in disk && path !in readOnly && ReplaceAll(disk[path], find, rep) != disk[path]
    ensures newDisk == if path in disk && path !in readOnly then disk[path := ReplaceAll(disk[path], find, rep)] else disk
  {
    newDisk, changed := disk, false;
    if path in disk {
      var content := disk[path];
      var newContent := ReplaceAll(content, find, rep);
      if newContent != content && path !in readOnly {
        newDisk := disk[path := newContent];
        changed := true;
      } else if path !in readOnly {
        assert disk[path := newContent] == disk;
      }
    }
  }

  /** Only which paths are listed matters, not their order or repeats. */
  lemma SameApplied(disk: map<string, string>, a: seq<string>, b: seq<string>, find: string, rep: string, readOnly: set<string>)
    requires forall p :: p in a <==> p in b
    ensures Applied(disk, a, find, rep, readOnly) == Applied(disk, b, find, rep, readOnly)
    ensures Rewritten(disk, a, find, rep, readOnly) == Rewritten(disk, b, find, rep, readOnly)
  {
  }
}
