/** Python's `s.replace(find, rep)` with no count, `s.count(find)`, and the
    way iterating over a text file cuts its content into lines. */
module PyReplace {
  import opened PyStr

  /** `s.replace(find, rep)`. Matches are taken left to right and never
      overlap: after a match the scan resumes right after the matched text in
      `s`, so text inserted from `rep` is never searched again. An empty `find`
      matches before every character and at the end, as in Python. */
  function ReplaceAll(s: string, find: string, rep: string): string
  {
    if |find| == 0 then Interleave(s, rep) else Substitute(s, find, rep)
  }

  /** `s.replace("", rep)`: `rep` before every character and at the end. */
  function Interleave(s: string, rep: string): string
  {
    if |s| == 0 then rep else rep + [s[0]] + Interleave(s[1..], rep)
  }

  /** `s.replace(find, rep)` for a non-empty `find`. */
  function Substitute(s: string, find: string, rep: string): string
    requires |find| > 0
    decreases |s|
  {
    if StartsWith(s, find) then rep + Substitute(s[|find|..], find, rep)
    else if |s| == 0 then s
    else [s[0]] + Substitute(s[1..], find, rep)
  }

  /** `s.count(find)`: the number of matches `ReplaceAll` substitutes. */
  function MatchCount(s: string, find: string): nat
  {
    if |find| == 0 then |s| + 1 else Matches(s, find)
  }

  function Matches(s: string, find: string): nat
    requires |find| > 0
    decreases |s|
  {
    if StartsWith(s, find) then 1 + Matches(s[|find|..], find)
    else if |s| == 0 then 0
    else Matches(s[1..], find)
  }

  /** Python's results on three small cases: matches do not overlap and are
      taken from the left, inserted text is not searched again, and an empty
      `find` matches around every character. */
  lemma ReplaceExamples()
    ensures ReplaceAll("aaa", "aa", "b") == "ba"
    ensures ReplaceAll("ab", "ab", "abab") == "abab"
    ensures ReplaceAll("ab", "", "-") == "-a-b-"
  {
    assert StartsWith("aaa", "aa") && "aaa"[2..] == "a" && !StartsWith("a", "aa") && "a"[1..] == "";
    assert StartsWith("ab", "ab") && "ab"[2..] == "";
    assert "ab"[1..] == "b" && "b"[1..] == "";
  }

  /** Some match is found exactly when `find` occurs in `s`. */
  lemma {:induction false} MatchesPositive(s: string, find: string)
    requires |find| > 0
    ensures Matches(s, find) > 0 <==> Contains(s, find)
    decreases |s|
  {
    if |s| > 0 && !StartsWith(s, find) {
      MatchesPositive(s[1..], find);
    }
  }

  lemma MatchCountPositive(s: string, find: string)
    ensures MatchCount(s, find) > 0 <==> Contains(s, find)
  {
    if |find| > 0 {
      MatchesPositive(s, find);
    }
  }

  /** A string in which a non-empty `find` does not occur comes back unchanged. */
  lemma {:induction false} SubstituteAbsent(s: string, find: string, rep: string)
    requires |find| > 0
    requires !Contains(s, find)
    ensures Substitute(s, find, rep) == s
    decreases |s|
  {
    if |s| > 0 {
      SubstituteAbsent(s[1..], find, rep);
      assert [s[0]] + s[1..] == s;
    }
  }

  /** A string in which `find` does not occur comes back unchanged. */
  lemma ReplaceAbsent(s: string, find: string, rep: string)
    requires !Contains(s, find)
    ensures ReplaceAll(s, find, rep) == s
  {
    if |find| > 0 {
      SubstituteAbsent(s, find, rep);
    }
  }

  lemma {:induction false} InterleaveEmpty(s: string)
    ensures Interleave(s, "") == s
  {
    if |s| > 0 {
      InterleaveEmpty(s[1..]);
      assert [s[0]] + s[1..] == s;
    }
  }

  lemma {:induction false} SubstituteIdentity(s: string, find: string)
    requires |find| > 0
    ensures Substitute(s, find, find) == s
    decreases |s|
  {
    if StartsWith(s, find) {
      SubstituteIdentity(s[|find|..], find);
      assert s[..|find|] + s[|find|..] == s;
    } else if |s| > 0 {
      SubstituteIdentity(s[1..], find);
      assert [s[0]] + s[1..] == s;
    }
  }

  /** Replacing a string by itself changes nothing. */
  lemma ReplaceIdentity(s: string, find: string)
    ensures ReplaceAll(s, find, find) == s
  {
    if |find| == 0 {
      InterleaveEmpty(s);
    } else {
      SubstituteIdentity(s, find);
    }
  }

  lemma {:induction false} InterleaveLength(s: string, rep: string)
    ensures |Interleave(s, rep)| == |s| + (|s| + 1) * |rep|
  {
    if |s| > 0 {
      InterleaveLength(s[1..], rep);
      assert (|s| + 1) * |rep| == |s| * |rep| + |rep|;
    }
  }

  lemma {:induction false} SubstituteLength(s: string, find: string, rep: string)
    requires |find| > 0
    ensures |Substitute(s, find, rep)| == |s| + Matches(s, find) * (|rep| - |find|)
    decreases |s|
  {
    if StartsWith(s, find) {
      var t := s[|find|..];
      SubstituteLength(t, find, rep);
      SubstituteMatch(s, find, rep);
      MulSucc(Matches(t, find), |rep| - |find|);
    } else if |s| > 0 {
      SubstituteLength(s[1..], find, rep);
      SubstituteSkip(s, find, rep);
    }
  }

  lemma MulSucc(k: int, d: int)
    ensures (k + 1) * d == k * d + d
  {
  }

  /** Where a match starts, it becomes `rep` and the scan goes on after it. */
  lemma SubstituteMatch(s: string, find: string, rep: string)
    requires |find| > 0 && StartsWith(s, find)
    ensures Substitute(s, find, rep) == rep + Substitute(s[|find|..], find, rep)
    ensures Matches(s, find) == 1 + Matches(s[|find|..], find)
  {
  }

  /** Each of the `k` matches trades `|find|` characters for `|rep|`. */
  lemma ReplaceLength(s: string, find: string, rep: string)
    ensures |ReplaceAll(s, find, rep)| == |s| + MatchCount(s, find) * (|rep| - |find|)
  {
    if |find| == 0 {
      InterleaveLength(s, rep);
    } else {
      SubstituteLength(s, find, rep);
    }
  }

  /** When `find` first occurs at `i`, everything before `i` is kept, the match
      becomes `rep`, and the scan goes on after the match. */
  lemma {:induction false} SubstituteAtFirst(s: string, find: string, rep: string, i: nat)
    requires |find| > 0
    requires OccursAt(s, find, i)
    requires forall j :: 0 <= j < i ==> !OccursAt(s, find, j)
    ensures Substitute(s, find, rep) == s[..i] + rep + Substitute(s[i + |find|..], find, rep)
    decreases i
  {
    if i == 0 {
      assert StartsWith(s, find);
      assert s[..i] + rep == rep;
    } else {
      assert !OccursAt(s, find, 0);
      assert !StartsWith(s, find);
      FirstOccurrenceInTail(s, find, i);
      SubstituteAtFirst(s[1..], find, rep, i - 1);
      SubstituteAfterSkip(s, find, rep, i);
    }
  }

  /** A first occurrence past the start is, in the tail, one place earlier. */
  lemma FirstOccurrenceInTail(s: string, find: string, i: nat)
    requires 0 < i && OccursAt(s, find, i)
    requires forall j :: 0 <= j < i ==> !OccursAt(s, find, j)
    ensures OccursAt(s[1..], find, i - 1)
    ensures forall j :: 0 <= j < i - 1 ==> !OccursAt(s[1..], find, j)
  {
    forall j | 0 <= j < i - 1 ensures !OccursAt(s[1..], find, j) {
      OccursAtTail(s, find, j);
    }
    OccursAtTail(s, find, i - 1);
  }

  /** One step of `SubstituteAtFirst`: a first character that starts no match
      is kept in front of the tail's result. */
  lemma SubstituteAfterSkip(s: string, find: string, rep: string, i: nat)
    requires |find| > 0 && 0 < i && i + |find| <= |s| && !StartsWith(s, find)
    requires Substitute(s[1..], find, rep)
      == s[1..][..i - 1] + rep + Substitute(s[1..][i - 1 + |find|..], find, rep)
    ensures Substitute(s, find, rep) == s[..i] + rep + Substitute(s[i + |find|..], find, rep)
  {
    SubstituteSkip(s, find, rep);
    TailSlices(s, i, i + |find|);
    assert s[1..][i - 1 + |find|..] == s[i + |find|..];
    TailSlices(s, i, i);
  }

  /** Where no match starts, the first character is kept. */
  lemma SubstituteSkip(s: string, find: string, rep: string)
    requires |find| > 0 && |s| > 0 && !StartsWith(s, find)
    ensures Substitute(s, find, rep) == [s[0]] + Substitute(s[1..], find, rep)
    ensures Matches(s, find) == Matches(s[1..], find)
  {
  }

  /** Slicing the tail of `s` is slicing `s` one place further on. */
  lemma TailSlices(s: string, i: nat, j: nat)
    requires 0 < i <= j <= |s|
    ensures s[1..][j - 1..] == s[j..]
    ensures forall rep: string, tail: string ::
      [s[0]] + (s[1..][..i - 1] + rep + tail) == s[..i] + rep + tail
  {
    forall rep: string, tail: string
      ensures [s[0]] + (s[1..][..i - 1] + rep + tail) == s[..i] + rep + tail
    {
      assert [s[0]] + s[1..][..i - 1] == s[..i];
    }
  }

  /** An occurrence has a first occurrence. */
  lemma FirstOccurrence(s: string, find: string) returns (i: nat)
    requires Contains(s, find)
    ensures OccursAt(s, find, i)
    ensures forall j :: 0 <= j < i ==> !OccursAt(s, find, j)
  {
    ContainsAt(s, find);
    var k :| OccursAt(s, find, k);
    i := k;
    while exists j :: 0 <= j < i && OccursAt(s, find, j)
      invariant 0 <= i <= k
      invariant OccursAt(s, find, i)
      decreases i
    {
      var j :| 0 <= j < i && OccursAt(s, find, j);
      i := j;
    }
  }

  /** With a non-empty `find` of the same length as `rep` but different from
      it, the first match shows the change. */
  lemma SubstituteSameLengthChanges(s: string, find: string, rep: string)
    requires |find| > 0 && |rep| == |find| && rep != find
    requires Contains(s, find)
    ensures Substitute(s, find, rep) != s
  {
    var i := FirstOccurrence(s, find);
    var d :| 0 <= d < |rep| && rep[d] != find[d];
    SubstituteAtFirst(s, find, rep, i);
    var r := Substitute(s, find, rep);
    assert r[i + d] == rep[d];
    assert s[i + d] == find[d];
  }

  /** With `rep` of another length than `find`, any match changes the length. */
  lemma ReplaceOtherLengthChanges(s: string, find: string, rep: string)
    requires |rep| != |find|
    requires Contains(s, find)
    ensures ReplaceAll(s, find, rep) != s
  {
    MatchCountPositive(s, find);
    ReplaceLength(s, find, rep);
    ProductNonZero(MatchCount(s, find), |rep| - |find|);
  }

  lemma ProductNonZero(k: int, d: int)
    requires k > 0 && d != 0
    ensures k * d != 0
  {
    if d > 0 { assert k * d >= d; } else { assert k * d <= d; }
  }

  /** `replace` changes the string exactly when `find` occurs in it and `rep`
      differs from `find`. */
  lemma ReplaceChangesIff(s: string, find: string, rep: string)
    ensures ReplaceAll(s, find, rep) != s <==> Contains(s, find) && rep != find
  {
    if !Contains(s, find) {
      ReplaceAbsent(s, find, rep);
    } else if rep == find {
      ReplaceIdentity(s, find);
    } else if |rep| != |find| {
      ReplaceOtherLengthChanges(s, find, rep);
    } else {
      SubstituteSameLengthChanges(s, find, rep);
    }
  }

  // ---------------------------------------------------------------- lines

  /** Iterating over a text file: the content is cut after every newline; the
      last line has no newline when the content does not end with one. */
  function Lines(c: string): (r: seq<string>)
    ensures |c| == 0 <==> |r| == 0
  {
    if |c| == 0 then []
    else
      var rest := Lines(c[1..]);
      if c[0] == '\n' || |rest| == 0 then [[c[0]]] + rest
      else [[c[0]] + rest[0]] + rest[1..]
  }

  function Concat(parts: seq<string>): string {
    if |parts| == 0 then "" else parts[0] + Concat(parts[1..])
  }

  /** Every line but the last ends with a newline, and no line holds a
      newline anywhere else. */
  predicate WellCut(lines: seq<string>) {
    (forall k :: 0 <= k < |lines| ==> |lines[k]| > 0)
    && (forall k :: 0 <= k < |lines| - 1 ==> lines[k][|lines[k]| - 1] == '\n')
    && (forall k, j :: 0 <= k < |lines| && 0 <= j < |lines[k]| - 1 ==> lines[k][j] != '\n')
  }

  /** The lines put back together are the content, and they are cut at the
      newlines. */
  lemma LinesShape(c: string)
    ensures Concat(Lines(c)) == c
    ensures WellCut(Lines(c))
  {
    LinesConcat(c);
    LinesWellCut(c);
  }

  lemma ConcatCons(x: string, xs: seq<string>)
    ensures Concat([x] + xs) == x + Concat(xs)
  {
    assert ([x] + xs)[1..] == xs;
  }

  lemma ConcatMergeHead(ch: char, rest: seq<string>)
    requires |rest| > 0
    ensures Concat([[ch] + rest[0]] + rest[1..]) == [ch] + Concat(rest)
  {
    var head, tail := rest[0], rest[1..];
    assert [head] + tail == rest;
    ConcatCons([ch] + head, tail);
    ConcatCons(head, tail);
    SeqAssoc([ch], head, Concat(tail));
  }

  lemma SeqAssoc(a: string, b: string, c: string)
    ensures (a + b) + c == a + (b + c)
  {
  }

  lemma {:induction false} LinesConcat(c: string)
    ensures Concat(Lines(c)) == c
  {
    if |c| > 0 {
      LinesConcat(c[1..]);
      var rest := Lines(c[1..]);
      if c[0] == '\n' || |rest| == 0 {
        assert Lines(c) == [[c[0]]] + rest;
        ConcatCons([c[0]], rest);
      } else {
        assert Lines(c) == [[c[0]] + rest[0]] + rest[1..];
        ConcatMergeHead(c[0], rest);
      }
      assert [c[0]] + c[1..] == c;
    }
  }

  lemma {:induction false} LinesWellCut(c: string)
    ensures WellCut(Lines(c))
  {
    if |c| > 0 {
      LinesWellCut(c[1..]);
      var rest := Lines(c[1..]);
      if c[0] == '\n' || |rest| == 0 {
        WellCutNewLine(c[0], rest);
      } else {
        WellCutExtend(c[0], rest);
      }
    }
  }

  /** A one-character line in front keeps the cut when it is a newline or is last. */
  lemma WellCutNewLine(ch: char, rest: seq<string>)
    requires WellCut(rest)
    requires ch == '\n' || |rest| == 0
    ensures WellCut([[ch]] + rest)
  {
    var lines := [[ch]] + rest;
    assert forall k :: 0 < k < |lines| ==> lines[k] == rest[k - 1];
  }

  /** A character other than a newline joins the first line. */
  lemma WellCutExtend(ch: char, rest: seq<string>)
    requires WellCut(rest) && |rest| > 0 && ch != '\n'
    ensures WellCut([[ch] + rest[0]] + rest[1..])
  {
    var lines := [[ch] + rest[0]] + rest[1..];
    assert forall k :: 0 < k < |lines| ==> lines[k] == rest[k];
    assert forall j :: 0 < j < |lines[0]| ==> lines[0][j] == rest[0][j - 1];
  }

  /** A match can never straddle a newline that `find` does not contain. */
  lemma {:induction false} SubstituteSplitsAtNewline(a: string, b: string, find: string, rep: string)
    requires |find| > 0 && '\n' !in find
    requires |a| > 0 && a[|a| - 1] == '\n'
    ensures Substitute(a + b, find, rep) == Substitute(a, find, rep) + Substitute(b, find, rep)
    decreases |a|
  {
    var s := a + b;
    if StartsWith(s, find) {
      assert |find| < |a| by {
        assert s[|a| - 1] == '\n';
        assert forall j :: 0 <= j < |find| ==> find[j] == s[j];
      }
      var a' := a[|find|..];
      assert StartsWith(a, find) && s[|find|..] == a' + b by {
        assert a[..|find|] == s[..|find|];
      }
      SubstituteSplitsAtNewline(a', b, find, rep);
      SubstituteMatch(s, find, rep);
      SubstituteMatch(a, find, rep);
      SeqAssoc(rep, Substitute(a', find, rep), Substitute(b, find, rep));
    } else {
      assert !StartsWith(a, find) by {
        assert |find| <= |a| ==> a[..|find|] == s[..|find|];
      }
      SubstituteSkip(s, find, rep);
      SubstituteSkip(a, find, rep);
      if |a| == 1 {
        assert a[1..] == [] && s[1..] == b;
      } else {
        assert s[1..] == a[1..] + b;
        SubstituteSplitsAtNewline(a[1..], b, find, rep);
        SeqAssoc([a[0]], Substitute(a[1..], find, rep), Substitute(b, find, rep));
      }
    }
  }

  /** Each line replaced on its own. */
  function ReplaceEach(lines: seq<string>, find: string, rep: string): (r: seq<string>)
    ensures |r| == |lines|
    ensures forall k :: 0 <= k < |lines| ==> r[k] == ReplaceAll(lines[k], find, rep)
  {
    seq(|lines|, k requires 0 <= k < |lines| => ReplaceAll(lines[k], find, rep))
  }

  /** Replacing in the whole text equals replacing line by line when `find`
      holds no newline. */
  lemma {:induction false} ReplaceByLines(lines: seq<string>, find: string, rep: string)
    requires |find| > 0 && '\n' !in find
    requires WellCut(lines)
    ensures ReplaceAll(Concat(lines), find, rep) == Concat(ReplaceEach(lines, find, rep))
  {
    if |lines| == 0 {
    } else if |lines| == 1 {
      assert Concat(lines) == lines[0];
      assert Concat(ReplaceEach(lines, find, rep)) == ReplaceAll(lines[0], find, rep) + Concat([]);
    } else {
      var tail := lines[1..];
      assert WellCut(tail) by {
        forall k | 0 <= k < |tail| - 1 ensures tail[k][|tail[k]| - 1] == '\n' {
          assert tail[k] == lines[k + 1];
        }
        forall k, j | 0 <= k < |tail| && 0 <= j < |tail[k]| - 1 ensures tail[k][j] != '\n' {
          assert tail[k] == lines[k + 1];
        }
      }
      ReplaceByLines(tail, find, rep);
      SubstituteSplitsAtNewline(lines[0], Concat(tail), find, rep);
      assert ReplaceEach(lines, find, rep)[1..] == ReplaceEach(tail, find, rep);
    }
  }

  /** The whole content of a file, replaced at once, is its lines replaced one
      by one. */
  lemma ReplaceContentByLines(c: string, find: string, rep: string)
    requires |find| > 0 && '\n' !in find
    ensures ReplaceAll(c, find, rep) == Concat(ReplaceEach(Lines(c), find, rep))
  {
    LinesShape(c);
    ReplaceByLines(Lines(c), find, rep);
  }
}
