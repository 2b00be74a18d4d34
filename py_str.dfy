/** The Python `str` built-ins the three tools rely on, over `seq<char>`:
    whitespace and `strip`, `startswith`/`endswith`, `in` (substring test),
    `split` on one separator, `join`, and the ASCII part of `upper`, `lower`
    and `capitalize`. Characters outside ASCII are left unchanged by the case
    mappings and are not letters. */
module PyStr {

  // ---------------------------------------------------------------- characters

  /** Python's `str.isspace` for one character. */
  predicate IsSpace(c: char) {
    c == ' ' || ('\t' <= c <= '\r') || ('\U{1c}' <= c <= '\U{1f}')
    || c == '\U{85}' || c == '\U{a0}' || c == '\U{1680}' || ('\U{2000}' <= c <= '\U{200a}')
    || c == '\U{2028}' || c == '\U{2029}' || c == '\U{202f}' || c == '\U{205f}' || c == '\U{3000}'
  }

  predicate IsUpperChar(c: char) { 'A' <= c <= 'Z' }
  predicate IsLowerChar(c: char) { 'a' <= c <= 'z' }

  /** `str.isalpha` restricted to ASCII. */
  predicate IsAlpha(c: char) { IsUpperChar(c) || IsLowerChar(c) }

  function UpperChar(c: char): (r: char)
    ensures IsAlpha(c) <==> IsAlpha(r)
    ensures IsSpace(c) <==> IsSpace(r)
    ensures IsAlpha(c) ==> IsUpperChar(r)
    ensures !IsLowerChar(c) ==> r == c
  {
    if IsLowerChar(c) then (c as int - 32) as char else c
  }

  function LowerChar(c: char): (r: char)
    ensures IsAlpha(c) <==> IsAlpha(r)
    ensures IsSpace(c) <==> IsSpace(r)
    ensures !IsUpperChar(r)
    ensures !IsUpperChar(c) ==> r == c
  {
    if IsUpperChar(c) then (c as int + 32) as char else c
  }

  /** Case mapping forgets the case the character had. */
  lemma CaseOfCase(c: char)
    ensures UpperChar(LowerChar(c)) == UpperChar(c)
    ensures LowerChar(UpperChar(c)) == LowerChar(c)
    ensures UpperChar(UpperChar(c)) == UpperChar(c)
  {
  }

  // ---------------------------------------------------------------- case of strings

  /** `s.upper()` */
  function Upper(s: string): (r: string)
    ensures |r| == |s|
    ensures forall i :: 0 <= i < |s| ==> r[i] == UpperChar(s[i])
  {
    seq(|s|, i requires 0 <= i < |s| => UpperChar(s[i]))
  }

  /** `s.lower()` */
  function Lower(s: string): (r: string)
    ensures |r| == |s|
    ensures forall i :: 0 <= i < |s| ==> r[i] == LowerChar(s[i])
  {
    seq(|s|, i requires 0 <= i < |s| => LowerChar(s[i]))
  }

  /** `s.capitalize()`: first character upper-cased, every other one lower-cased. */
  function Capitalize(s: string): (r: string)
    ensures |r| == |s|
    ensures |s| > 0 ==> r[0] == UpperChar(s[0])
    ensures forall i :: 1 <= i < |s| ==> r[i] == LowerChar(s[i])
  {
    if |s| == 0 then "" else [UpperChar(s[0])] + Lower(s[1..])
  }

  lemma LowerAppend(a: string, b: string)
    ensures Lower(a + b) == Lower(a) + Lower(b)
  {
    assert forall i :: 0 <= i < |a + b| ==> Lower(a + b)[i] == (Lower(a) + Lower(b))[i];
  }

  /** Lower-casing twice is lower-casing once. */
  lemma LowerLower(s: string)
    ensures Lower(Lower(s)) == Lower(s)
  {
    forall i | 0 <= i < |s| ensures Lower(Lower(s))[i] == Lower(s)[i] {
      CaseOfCase(s[i]);
    }
  }

  /** Capitalising changes the case of letters only. */
  lemma LowerCapitalize(s: string)
    ensures Lower(Capitalize(s)) == Lower(s)
  {
    forall i | 0 <= i < |s| ensures Lower(Capitalize(s))[i] == Lower(s)[i] {
      CaseOfCase(s[i]);
    }
  }

  /** Capitalising forgets the case the string came in. */
  lemma CapitalizeLower(s: string)
    ensures Capitalize(Lower(s)) == Capitalize(s)
  {
    forall i | 0 <= i < |s| ensures Capitalize(Lower(s))[i] == Capitalize(s)[i] {
      CaseOfCase(s[i]);
    }
  }

  /** Two strings that agree up to case have the same upper-case form. */
  lemma UpperOfLower(s: string)
    ensures Upper(Lower(s)) == Upper(s)
  {
    forall i | 0 <= i < |s| ensures Upper(Lower(s))[i] == Upper(s)[i] {
      CaseOfCase(s[i]);
    }
  }

  // ---------------------------------------------------------------- affixes and substrings

  predicate StartsWith(s: string, prefix: string) {
    |prefix| <= |s| && s[..|prefix|] == prefix
  }

  predicate EndsWith(s: string, suffix: string) {
    |suffix| <= |s| && s[|s| - |suffix|..] == suffix
  }

  /** `find` occurs in `s` starting at index `i`. */
  predicate OccursAt(s: string, find: string, i: int) {
    0 <= i && i + |find| <= |s| && s[i..i + |find|] == find
  }

  /** Python's `find in s`: `find` starts here or somewhere further on. */
  predicate Contains(s: string, find: string)
    decreases |s|
  {
    StartsWith(s, find) || (|s| > 0 && Contains(s[1..], find))
  }

  /** An occurrence in the tail of `s` is one place further on in `s`. */
  lemma OccursAtTail(s: string, find: string, i: int)
    requires |s| > 0 && 0 <= i
    ensures OccursAt(s[1..], find, i) <==> OccursAt(s, find, i + 1)
  {
    if i + |find| <= |s| - 1 {
      assert s[1..][i..i + |find|] == s[i + 1..i + 1 + |find|];
    }
  }

  lemma OccursAtShift(c: char, s: string, find: string, i: int)
    requires 0 <= i
    ensures OccursAt(s, find, i) <==> OccursAt([c] + s, find, i + 1)
  {
    if 0 <= i && i + |find| <= |s| {
      assert ([c] + s)[i + 1..i + 1 + |find|] == s[i..i + |find|];
    }
  }

  /** `find in s` holds exactly when `find` occurs at some index of `s`. */
  lemma {:induction false} ContainsAt(s: string, find: string)
    ensures Contains(s, find) <==> exists i :: OccursAt(s, find, i)
    decreases |s|
  {
    if StartsWith(s, find) {
      assert OccursAt(s, find, 0);
    } else if |s| > 0 {
      ContainsAt(s[1..], find);
      assert s == [s[0]] + s[1..];
      if Contains(s[1..], find) {
        var i :| OccursAt(s[1..], find, i);
        OccursAtShift(s[0], s[1..], find, i);
      }
      if exists i :: OccursAt(s, find, i) {
        var i :| OccursAt(s, find, i);
        assert i != 0;
        OccursAtShift(s[0], s[1..], find, i - 1);
      }
    } else {
      assert forall i :: !OccursAt(s, find, i);
    }
  }

  // ---------------------------------------------------------------- strip

  /** `s.lstrip()` */
  function LStrip(s: string): (r: string)
    ensures |r| <= |s| && r == s[|s| - |r|..]
    ensures r == [] || !IsSpace(r[0])
    ensures forall i :: 0 <= i < |s| - |r| ==> IsSpace(s[i])
  {
    if |s| > 0 && IsSpace(s[0]) then
      var r := LStrip(s[1..]);
      assert s[1..][|s| - 1 - |r|..] == s[|s| - |r|..];
      assert forall i :: 1 <= i < |s| - |r| ==> s[i] == s[1..][i - 1];
      r
    else s
  }

  /** `s.rstrip()` */
  function RStrip(s: string): (r: string)
    ensures |r| <= |s| && r == s[..|r|]
    ensures r == [] || !IsSpace(r[|r| - 1])
    ensures forall i :: |r| <= i < |s| ==> IsSpace(s[i])
  {
    if |s| > 0 && IsSpace(s[|s| - 1]) then
      var r := RStrip(s[..|s| - 1]);
      assert s[..|s| - 1][..|r|] == s[..|r|];
      r
    else s
  }

  /** `s.strip()` */
  function Strip(s: string): (r: string)
  {
    RStrip(LStrip(s))
  }

  /** Python's `not s.strip()`: the string is empty or all whitespace. */
  predicate IsBlank(s: string) {
    forall i :: 0 <= i < |s| ==> IsSpace(s[i])
  }

  /** `strip` leaves nothing exactly when the string is blank, and otherwise
      leaves no whitespace at either end. */
  lemma StripShape(s: string)
    ensures IsBlank(s) <==> Strip(s) == []
    ensures Strip(s) != [] ==> !IsSpace(Strip(s)[0]) && !IsSpace(Strip(s)[|Strip(s)| - 1])
  {
  }

  /** Stripping a string that has no whitespace at either end changes nothing. */
  lemma StripUnchanged(s: string)
    requires s == [] || (!IsSpace(s[0]) && !IsSpace(s[|s| - 1]))
    ensures Strip(s) == s
  {
  }

  /** Stripping twice is stripping once. */
  lemma StripIdempotent(s: string)
    ensures Strip(Strip(s)) == Strip(s)
  {
    StripShape(s);
    StripUnchanged(Strip(s));
  }

  /** `s.rstrip(chars)` for an explicit set of characters. */
  function RStripChars(s: string, chars: set<char>): (r: string)
    ensures |r| <= |s| && r == s[..|r|]
    ensures r == [] || r[|r| - 1] !in chars
    ensures forall i :: |r| <= i < |s| ==> s[i] in chars
  {
    if |s| > 0 && s[|s| - 1] in chars then RStripChars(s[..|s| - 1], chars) else s
  }

  // ---------------------------------------------------------------- split and join

  /** `s.split(sep)` for a one-character separator: every separator cuts, so
      neighbouring separators yield empty pieces and the result is never empty. */
  function Split(s: string, sep: char): (r: seq<string>)
    ensures |r| >= 1
    ensures forall k :: 0 <= k < |r| ==> sep !in r[k]
  {
    if |s| == 0 then [""]
    else
      var rest := Split(s[1..], sep);
      if s[0] == sep then [""] + rest
      else [[s[0]] + rest[0]] + rest[1..]
  }

  /** `sep.join(words)` */
  function Join(words: seq<string>, sep: char): string
  {
    if |words| == 0 then ""
    else if |words| == 1 then words[0]
    else words[0] + [sep] + Join(words[1..], sep)
  }

  /** A join of several words: the first word, the separator, the join of the rest. */
  lemma JoinCons(words: seq<string>, sep: char)
    requires |words| > 1
    ensures Join(words, sep) == words[0] + [sep] + Join(words[1..], sep)
  {
  }

  lemma {:induction false} JoinSplit(s: string, sep: char)
    ensures Join(Split(s, sep), sep) == s
  {
    if |s| > 0 {
      JoinSplit(s[1..], sep);
      var rest := Split(s[1..], sep);
      if s[0] != sep {
        if |rest| > 1 {
          assert Join(Split(s, sep), sep) == [s[0]] + rest[0] + [sep] + Join(rest[1..], sep);
        }
      }
    }
  }

  lemma {:induction false} SplitJoin(words: seq<string>, sep: char)
    requires |words| >= 1
    requires forall k :: 0 <= k < |words| ==> sep !in words[k]
    ensures Split(Join(words, sep), sep) == words
  {
    if |words| == 1 {
      SplitNoSep(words[0], sep);
    } else {
      SplitJoin(words[1..], sep);
      SplitPrefix(words[0], Join(words[1..], sep), sep);
    }
  }

  lemma {:induction false} SplitNoSep(w: string, sep: char)
    requires sep !in w
    ensures Split(w, sep) == [w]
  {
    if |w| > 0 {
      SplitNoSep(w[1..], sep);
      assert [w[0]] + w[1..] == w;
    }
  }

  /** A separator-free word followed by the separator becomes the first piece. */
  lemma {:induction false} SplitPrefix(w: string, tail: string, sep: char)
    requires sep !in w
    ensures Split(w + [sep] + tail, sep) == [w] + Split(tail, sep)
  {
    if |w| == 0 {
      assert w + [sep] + tail == [sep] + tail;
      assert ([sep] + tail)[1..] == tail;
    } else {
      SplitPrefix(w[1..], tail, sep);
      assert (w + [sep] + tail)[1..] == w[1..] + [sep] + tail;
      assert [w[0]] + w[1..] == w;
    }
  }

  /** Every word lower-cased, in order. */
  function LowerAll(words: seq<string>): (r: seq<string>)
    ensures |r| == |words|
    ensures forall k :: 0 <= k < |words| ==> r[k] == Lower(words[k])
  {
    seq(|words|, k requires 0 <= k < |words| => Lower(words[k]))
  }

  /** Lower-casing commutes with splitting on a separator that is not a letter. */
  lemma {:induction false} SplitLower(s: string, sep: char)
    requires !IsAlpha(sep)
    ensures Split(Lower(s), sep) == LowerAll(Split(s, sep))
  {
    if |s| > 0 {
      SplitLower(s[1..], sep);
      var ls := Lower(s);
      assert ls[1..] == Lower(s[1..]);
      assert ls[0] == LowerChar(s[0]);
      if s[0] != sep {
        SplitLowerWordChar(s, ls, sep);
      } else {
        assert LowerAll(Split(s, sep)) == [""] + LowerAll(Split(s[1..], sep));
      }
    }
  }

  /** The step of `SplitLower` for a first character that is not the separator. */
  lemma SplitLowerWordChar(s: string, ls: string, sep: char)
    requires |s| > 0 && s[0] != sep && !IsAlpha(sep)
    requires |ls| == |s| && ls[0] == LowerChar(s[0]) && ls[1..] == Lower(s[1..])
    requires Split(ls[1..], sep) == LowerAll(Split(s[1..], sep))
    ensures Split(ls, sep) == LowerAll(Split(s, sep))
  {
    var rest := Split(s[1..], sep);
    var lrest := Split(ls[1..], sep);
    var w := [s[0]] + rest[0];
    assert Split(s, sep) == [w] + rest[1..];
    assert ls[0] != sep;
    assert Split(ls, sep) == [[ls[0]] + lrest[0]] + lrest[1..];
    assert Lower(w) == [ls[0]] + lrest[0] by {
      LowerAppend([s[0]], rest[0]);
      assert Lower([s[0]]) == [ls[0]];
    }
    assert lrest[1..] == LowerAll(rest[1..]);
    LowerAllCons(w, rest[1..]);
  }

  lemma LowerAllCons(w: string, ws: seq<string>)
    ensures LowerAll([w] + ws) == [Lower(w)] + LowerAll(ws)
  {
  }

  /** Lower-casing commutes with joining. */
  lemma {:induction false} JoinLower(words: seq<string>, sep: char)
    requires !IsAlpha(sep)
    ensures Lower(Join(words, sep)) == Join(LowerAll(words), sep)
  {
    if |words| > 1 {
      JoinLower(words[1..], sep);
      LowerAppend(words[0] + [sep], Join(words[1..], sep));
      LowerAppend(words[0], [sep]);
      assert LowerAll(words)[1..] == LowerAll(words[1..]);
    }
  }
}
