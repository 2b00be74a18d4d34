/** The commit comparison script: it lists the `.json` files that git
    reports as modified between two commits, extracts the display text of
    each side and counts the files whose text differs. Git's output and
    the two versions of each file are inputs. */
module ChangedFileViewer {
  import opened PyStr
  import opened JsonValue

  // ---------------------------------------------------------------- extract_text_from_json

  /** What `extract_text_from_json` gives back, or the `TypeError` it raises. */
  datatype Extracted = Text(value: Json) | TypeError

  /** `d.get(key, default)` */
  function GetOr(members: seq<(string, Json)>, key: string, default: Json): Json {
    match Get(members, key)
    case None => default
    case Some(v) => v
  }

  /** `[segment.get('text', '') for segment in segments if isinstance(segment, dict)]` */
  function SegmentTexts(segments: seq<Json>): (r: seq<Json>)
    ensures |r| <= |segments|
  {
    if |segments| == 0 then []
    else
      (if segments[0].JObj? then [GetOr(segments[0].members, "text", JStr(""))] else [])
      + SegmentTexts(segments[1..])
  }

  predicate AllStrings(values: seq<Json>) {
    forall k :: 0 <= k < |values| ==> values[k].JStr?
  }

  /** `" ".join(values)`: `None` stands for the `TypeError` raised when a
      value is not a string. */
  function JoinTexts(values: seq<Json>): (r: Option<string>)
    ensures r.Some? <==> AllStrings(values)
    ensures |values| == 0 ==> r == Some("")
  {
    if AllStrings(values) then Some(Join(seq(|values|, k requires 0 <= k < |values| => values[k].s), ' '))
    else None
  }

  /** `extract_text_from_json(data)`. On a dict: a truthy "text" value as it
      is; otherwise, when "segments" is a list, the stripped space-join of
      the texts of its dict segments; otherwise "". On a list or a string
      the `in` tests search elements or substrings, and finding "text" or
      "segments" leads to indexing with a string, a `TypeError`; on a
      number, a boolean or `None` the `in` test itself raises. */
  function ExtractText(data: Json): Extracted {
    match data
    case JObj(members) =>
      var text := Get(members, "text");
      if text.Some? && Truthy(text.value) then Text(text.value)
      else
        var segments := Get(members, "segments");
        if segments.Some? && segments.value.JArr? then
          match JoinTexts(SegmentTexts(segments.value.items))
          case Some(joined) => Text(JStr(Strip(joined)))
          case None => TypeError
        else Text(JStr(""))
    case JArr(items) =>
      if JStr("text") in items || JStr("segments") in items then TypeError else Text(JStr(""))
    case JStr(s) =>
      if Contains(s, "text") || Contains(s, "segments") then TypeError else Text(JStr(""))
    case _ => TypeError
  }

  lemma {:induction false} SegmentTextsAppend(a: seq<Json>, b: seq<Json>)
    ensures SegmentTexts(a + b) == SegmentTexts(a) + SegmentTexts(b)
  {
    if |a| > 0 {
      assert (a + b)[1..] == a[1..] + b;
      SegmentTextsAppend(a[1..], b);
    } else {
      assert a + b == b;
    }
  }

  /** Segments that are not dicts do not contribute, wherever they stand. */
  lemma NonDictSegmentIgnored(before: seq<Json>, x: Json, after: seq<Json>)
    requires !x.JObj?
    ensures SegmentTexts(before + [x] + after) == SegmentTexts(before + after)
  {
    SegmentTextsAppend(before + [x], after);
    SegmentTextsAppend(before, [x]);
    SegmentTextsAppend(before, after);
    assert SegmentTexts([x]) == [];
  }

  /** A truthy "text" value wins: members added after it, none of them keyed
      "text", do not change the result, whatever "segments" they bring. */
  lemma TextTakesPrecedence(members: seq<(string, Json)>, extra: seq<(string, Json)>)
    requires Get(members, "text").Some? && Truthy(Get(members, "text").value)
    requires !HasKey(extra, "text")
    ensures ExtractText(JObj(members + extra)) == ExtractText(JObj(members))
    ensures ExtractText(JObj(members)) == Text(Get(members, "text").value)
  {
    GetAppend(members, extra, "text");
  }

  /** A falsy "text" value falls through: the result is that of the dict
      without it. */
  lemma FalsyTextFallsThrough(members: seq<(string, Json)>, v: Json)
    requires !Truthy(v) && !HasKey(members, "text")
    ensures ExtractText(JObj(members + [("text", v)])) == ExtractText(JObj(members))
  {
    GetAppend(members, [("text", v)], "text");
    GetAppend(members, [("text", v)], "segments");
    assert HasKey([("text", v)], "text");
    assert !HasKey([("text", v)], "segments");
  }

  /** Without a usable "text", an empty "segments" list, or no "segments"
      list at all, gives the empty string. */
  lemma EmptyWithoutTextOrSegments(members: seq<(string, Json)>)
    requires !(Get(members, "text").Some? && Truthy(Get(members, "text").value))
    requires Get(members, "segments") == Some(JArr([])) || !(Get(members, "segments").Some? && Get(members, "segments").value.JArr?)
    ensures ExtractText(JObj(members)) == Text(JStr(""))
  {
    var segments := Get(members, "segments");
    if segments == Some(JArr([])) {
      assert JoinTexts(SegmentTexts(segments.value.items)) == Some("") && Strip("") == "" by {
        NoSegmentsJoinEmpty();
      }
    } else {
      assert !(segments.Some? && segments.value.JArr?);
    }
  }

  lemma NoSegmentsJoinEmpty()
    ensures JoinTexts(SegmentTexts([])) == Some("")
    ensures Strip("") == ""
  {
    assert SegmentTexts([]) == [];
  }

  /** A string that does not come straight from a truthy "text" value has no
      whitespace at either end. */
  lemma ExtractedStringIsStripped(data: Json)
    requires ExtractText(data).Text? && ExtractText(data).value.JStr?
    requires data.JObj? ==> !(Get(data.members, "text").Some? && Truthy(Get(data.members, "text").value))
    ensures var s := ExtractText(data).value.s; Strip(s) == s
  {
    if data.JObj? {
      var segments := Get(data.members, "segments");
      if segments.Some? && segments.value.JArr? {
        var joined := JoinTexts(SegmentTexts(segments.value.items));
        StripIdempotent(joined.value);
      }
    }
  }

  /** A dict never raises when every dict segment's text is a string. */
  lemma ObjectRaisesOnlyOnSegments(members: seq<(string, Json)>)
    ensures ExtractText(JObj(members)).TypeError? <==>
      !(Get(members, "text").Some? && Truthy(Get(members, "text").value))
      && Get(members, "segments").Some? && Get(members, "segments").value.JArr?
      && !AllStrings(SegmentTexts(Get(members, "segments").value.items))
  {
  }

  /** The texts of two dict segments are joined by one space and the whole is
      stripped; a segment that is not a dict between them is skipped. */
  lemma TwoSegmentsJoined(first: string, second: string, other: Json)
    requires !other.JObj?
    ensures ExtractText(JObj([("segments", JArr([JObj([("text", JStr(first))]), other, JObj([("text", JStr(second))])]))]))
      == Text(JStr(Strip(first + " " + second)))
  {
    var segs := [JObj([("text", JStr(first))]), other, JObj([("text", JStr(second))])];
    var members := [("segments", JArr(segs))];
    assert Get(members, "text") == None;
    assert Get(members, "segments") == Some(JArr(segs));
    SegmentTextsSkipsOther(first, second, other);
    JoinTwoStrings(first, second);
  }

  lemma SegmentTextsSkipsOther(first: string, second: string, other: Json)
    requires !other.JObj?
    ensures SegmentTexts([JObj([("text", JStr(first))]), other, JObj([("text", JStr(second))])])
      == [JStr(first), JStr(second)]
  {
    var segs := [JObj([("text", JStr(first))]), other, JObj([("text", JStr(second))])];
    var last := segs[2..];
    assert SegmentTexts(last) == [JStr(second)] by {
      assert last[1..] == [];
      assert GetOr(last[0].members, "text", JStr("")) == JStr(second);
    }
    assert SegmentTexts(segs[1..]) == [JStr(second)] by {
      assert segs[1..][1..] == last;
    }
    assert GetOr(segs[0].members, "text", JStr("")) == JStr(first);
  }

  lemma JoinTwoStrings(first: string, second: string)
    ensures JoinTexts([JStr(first), JStr(second)]) == Some(first + " " + second)
  {
    var texts := [JStr(first), JStr(second)];
    var strs := seq(2, k requires 0 <= k < 2 => texts[k].s);
    assert strs == [first, second];
    assert Join(strs, ' ') == first + " " + second;
  }

  // ---------------------------------------------------------------- the list of files

  /** The lines of git's output kept by the filter: those ending in ".json". */
  function KeepJson(lines: seq<string>): (r: seq<string>)
    ensures |r| <= |lines|
    ensures forall x :: x in r <==> x in lines && EndsWith(x, ".json")
  {
    if |lines| == 0 then []
    else
      var rest := KeepJson(lines[1..]);
      assert forall x :: x in lines <==> x == lines[0] || x in lines[1..];
      if EndsWith(lines[0], ".json") && lines[0] != "" then [lines[0]] + rest else rest
  }

  /** `modified_files_output.strip().split('\n')` filtered to `.json` paths. */
  function JsonFiles(output: string): seq<string> {
    KeepJson(Split(Strip(output), '\n'))
  }

  /** The filter's test that the line is not empty never rejects anything. */
  lemma EmptyLineNeverJson(line: string)
    requires EndsWith(line, ".json")
    ensures line != ""
  {
  }

  /** The files keep git's order, since the filter only drops lines: the
      `i`-th and `j`-th kept lines stand in the input in the same order. */
  lemma {:induction false} KeepJsonPositions(lines: seq<string>, i: nat, j: nat) returns (a: nat, b: nat)
    requires i < j < |KeepJson(lines)|
    ensures a < b < |lines| && lines[a] == KeepJson(lines)[i] && lines[b] == KeepJson(lines)[j]
  {
    var tail := lines[1..];
    var rest := KeepJson(tail);
    if EndsWith(lines[0], ".json") && lines[0] != "" {
      assert KeepJson(lines) == [lines[0]] + rest;
      if i == 0 {
        a := 0;
        b := KeepJsonPosition(lines, j);
      } else {
        var a', b' := KeepJsonPositions(tail, i - 1, j - 1);
        a, b := a' + 1, b' + 1;
      }
    } else {
      assert KeepJson(lines) == rest;
      var a', b' := KeepJsonPositions(tail, i, j);
      a, b := a' + 1, b' + 1;
    }
  }

  /** Where a kept line after the first stands in the input. */
  lemma KeepJsonPosition(lines: seq<string>, j: nat) returns (b: nat)
    requires 0 < j < |KeepJson(lines)|
    requires EndsWith(lines[0], ".json") && lines[0] != ""
    ensures 0 < b < |lines| && lines[b] == KeepJson(lines)[j]
  {
    var tail := lines[1..];
    var rest := KeepJson(tail);
    assert KeepJson(lines) == [lines[0]] + rest;
    assert rest[j - 1] in tail;
    var k :| 0 <= k < |tail| && tail[k] == rest[j - 1];
    b := k + 1;
  }

  // ---------------------------------------------------------------- compare_json_files

  /** What one file of the list contributes. */
  datatype FileResult = Skipped | Same | Differs | Raises

  /** One file: skipped when either `git show` fails (the path is missing
      from that side) or either side does not decode; otherwise the display
      texts are compared, and a `TypeError` while extracting ends the run. */
  function CompareFile(path: string, oldSide: map<string, Loaded>, newSide: map<string, Loaded>): FileResult {
    if path !in oldSide || path !in newSide then Skipped
    else if oldSide[path].Malformed? || newSide[path].Malformed? then Skipped
    else
      var oldText := ExtractText(oldSide[path].data);
      var newText := ExtractText(newSide[path].data);
      if oldText.TypeError? || newText.TypeError? then Raises
      else if oldText != newText then Differs
      else Same
  }

  /** How a run of `compare_json_files` ends. */
  datatype Comparison =
    | DiffFailed
    | NoJsonFiles
    | Compared(changed: nat)
    | Crashed(path: string)

  /** `n` more changed files ahead of the given rest of the run. */
  function Ahead(c: Comparison, n: nat): Comparison {
    if c.Compared? then Compared(c.changed + n) else c
  }

  /** The loop over the files, from the given one on. */
  function CountChanged(files: seq<string>, oldSide: map<string, Loaded>, newSide: map<string, Loaded>): Comparison
    decreases |files|
  {
    if |files| == 0 then Compared(0)
    else
      match CompareFile(files[0], oldSide, newSide)
      case Raises => Crashed(files[0])
      case Differs => Ahead(CountChanged(files[1..], oldSide, newSide), 1)
      case _ => CountChanged(files[1..], oldSide, newSide)
  }

  /** `compare_json_files`: `None` for a failed `git diff`. */
  function CompareJsonFiles(diffOutput: Option<string>, oldSide: map<string, Loaded>, newSide: map<string, Loaded>): Comparison {
    if diffOutput.None? then DiffFailed
    else
      var files := JsonFiles(diffOutput.value);
      if |files| == 0 then NoJsonFiles else CountChanged(files, oldSide, newSide)
  }

  /** `compare_json_files`, counting as it goes. Both commits' documents
      come from `json.loads`, so their dicts hold each key once. */
  method CompareJson(diffOutput: Option<string>, oldSide: map<string, Loaded>, newSide: map<string, Loaded>)
    returns (result: Comparison)
    requires Decoded(oldSide) && Decoded(newSide)
    ensures result == CompareJsonFiles(diffOutput, oldSide, newSide)
  {
    if diffOutput.None? {
      return DiffFailed;
    }
    var files := JsonFiles(diffOutput.value);
    if |files| == 0 {
      return NoJsonFiles;
    }
    var changedCount := 0;
    for i := 0 to |files|
      invariant CountChanged(files, oldSide, newSide) == Ahead(CountChanged(files[i..], oldSide, newSide), changedCount)
    {
      assert files[i..][1..] == files[i + 1..];
      var path := files[i];
      var outcome := CompareFile(path, oldSide, newSide);
      if outcome == Raises {
        return Crashed(path);
      }
      if outcome == Differs {
        changedCount := changedCount + 1;
      }
    }
    result := Compared(changedCount);
  }

  /** The count never exceeds the number of files. */
  lemma {:induction false} CountBounded(files: seq<string>, oldSide: map<string, Loaded>, newSide: map<string, Loaded>)
    ensures CountChanged(files, oldSide, newSide).Compared? ==> CountChanged(files, oldSide, newSide).changed <= |files|
    decreases |files|
  {
    if |files| > 0 {
      CountBounded(files[1..], oldSide, newSide);
    }
  }

  /** The run ends early exactly when some file raises, and then it names
      the first such file. */
  lemma CrashedIff(files: seq<string>, oldSide: map<string, Loaded>, newSide: map<string, Loaded>)
    ensures CountChanged(files, oldSide, newSide).Crashed? <==>
      exists k :: 0 <= k < |files| && CompareFile(files[k], oldSide, newSide) == Raises
    ensures CountChanged(files, oldSide, newSide).Crashed? ==>
      exists k :: 0 <= k < |files| && files[k] == CountChanged(files, oldSide, newSide).path
        && CompareFile(files[k], oldSide, newSide) == Raises
        && forall m :: 0 <= m < k ==> CompareFile(files[m], oldSide, newSide) != Raises
  {
    if exists k :: 0 <= k < |files| && CompareFile(files[k], oldSide, newSide) == Raises {
      var k :| 0 <= k < |files| && CompareFile(files[k], oldSide, newSide) == Raises;
      RaisingCrashes(files, oldSide, newSide, k);
    }
    if CountChanged(files, oldSide, newSide).Crashed? {
      var k := FirstRaising(files, oldSide, newSide);
    }
  }

  /** A file that raises ends the run, at it or at an earlier one. */
  lemma {:induction false} RaisingCrashes(files: seq<string>, oldSide: map<string, Loaded>, newSide: map<string, Loaded>, k: nat)
    requires k < |files| && CompareFile(files[k], oldSide, newSide) == Raises
    ensures CountChanged(files, oldSide, newSide).Crashed?
    decreases k
  {
    if k > 0 && CompareFile(files[0], oldSide, newSide) != Raises {
      assert files[1..][k - 1] == files[k];
      RaisingCrashes(files[1..], oldSide, newSide, k - 1);
    }
  }

  /** A run that ends early names the first file that raises. */
  lemma {:induction false} FirstRaising(files: seq<string>, oldSide: map<string, Loaded>, newSide: map<string, Loaded>) returns (k: nat)
    requires CountChanged(files, oldSide, newSide).Crashed?
    ensures k < |files| && files[k] == CountChanged(files, oldSide, newSide).path
    ensures CompareFile(files[k], oldSide, newSide) == Raises
    ensures forall m :: 0 <= m < k ==> CompareFile(files[m], oldSide, newSide) != Raises
    decreases |files|
  {
    if CompareFile(files[0], oldSide, newSide) == Raises {
      k := 0;
    } else {
      var rest := files[1..];
      assert CountChanged(files, oldSide, newSide).Crashed? ==> CountChanged(rest, oldSide, newSide).Crashed?;
      var k' := FirstRaising(rest, oldSide, newSide);
      k := k' + 1;
      assert files[k] == rest[k'];
      assert forall m :: 1 <= m < k ==> files[m] == rest[m - 1];
    }
  }

  /** The indices of the files whose texts differ. */
  function DifferingAt(files: seq<string>, oldSide: map<string, Loaded>, newSide: map<string, Loaded>): set<nat> {
    set k: nat | k < |files| && CompareFile(files[k], oldSide, newSide) == Differs
  }

  /** Every index moved one up. */
  function Shift(s: set<nat>): (r: set<nat>)
    ensures forall k: nat :: k in r <==> k > 0 && k - 1 in s
  {
    set k | k in s :: k + 1
  }

  lemma {:induction false} ShiftCard(s: set<nat>)
    ensures |Shift(s)| == |s|
  {
    if s != {} {
      var x :| x in s;
      ShiftCard(s - {x});
      ShiftRemove(s, x);
    }
  }

  lemma ShiftRemove(s: set<nat>, x: nat)
    requires x in s
    ensures Shift(s) == Shift(s - {x}) + {x + 1}
    ensures x + 1 !in Shift(s - {x})
  {
    assert forall k: nat :: k in Shift(s) <==> k in Shift(s - {x}) || k == x + 1;
  }

  /** The differing indices of a list: its head's, then the tail's moved up. */
  lemma DifferingAtCons(files: seq<string>, oldSide: map<string, Loaded>, newSide: map<string, Loaded>)
    requires |files| > 0
    ensures DifferingAt(files, oldSide, newSide)
      == (if CompareFile(files[0], oldSide, newSide) == Differs then {0} else {}) + Shift(DifferingAt(files[1..], oldSide, newSide))
  {
    var rest := DifferingAt(files[1..], oldSide, newSide);
    forall k: nat ensures k in DifferingAt(files, oldSide, newSide) <==>
      (k == 0 && CompareFile(files[0], oldSide, newSide) == Differs) || k in Shift(rest)
    {
      if 0 < k < |files| {
        assert files[k] == files[1..][k - 1];
      }
    }
  }

  /** A run that ends normally counts exactly the files whose old and new
      display texts differ; skipped files are never counted. */
  lemma {:induction false} CountExact(files: seq<string>, oldSide: map<string, Loaded>, newSide: map<string, Loaded>)
    requires CountChanged(files, oldSide, newSide).Compared?
    ensures CountChanged(files, oldSide, newSide).changed == |DifferingAt(files, oldSide, newSide)|
    decreases |files|
  {
    if |files| > 0 {
      var rest := DifferingAt(files[1..], oldSide, newSide);
      CountExact(files[1..], oldSide, newSide);
      ShiftCard(rest);
      DifferingAtCons(files, oldSide, newSide);
      assert 0 !in Shift(rest);
    }
  }

  /** Comparing the commits the other way round gives the same result. */
  lemma {:induction false} CountSymmetric(files: seq<string>, oldSide: map<string, Loaded>, newSide: map<string, Loaded>)
    ensures CountChanged(files, oldSide, newSide) == CountChanged(files, newSide, oldSide)
    decreases |files|
  {
    if |files| > 0 {
      CountSymmetric(files[1..], oldSide, newSide);
    }
  }

  /** Comparing a commit with itself finds no change. */
  lemma {:induction false} CountSameCommit(files: seq<string>, side: map<string, Loaded>)
    ensures CountChanged(files, side, side) == Compared(0) || CountChanged(files, side, side).Crashed?
    decreases |files|
  {
    if |files| > 0 {
      CountSameCommit(files[1..], side);
    }
  }
}
