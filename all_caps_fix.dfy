/** The JSON upper-case fixer: it walks a directory, loads every `.json`
    file, rewrites to sentence case each string stored under a "text" key
    whose letters are at least 60 percent upper case, and writes back the
    files where it did so. */
module AllCapsFix {
  import opened PyStr
  import opened PyOs
  import opened JsonValue

  // ---------------------------------------------------------------- is_mostly_uppercase

  /** The number of letters in `s`. */
  function AlphaCount(s: string): (n: nat)
    ensures n <= |s|
  {
    if |s| == 0 then 0 else (if IsAlpha(s[0]) then 1 else 0) + AlphaCount(s[1..])
  }

  /** The number of upper-case letters in `s`: never more than the letters. */
  function UpperCount(s: string): (n: nat)
    ensures n <= AlphaCount(s)
  {
    if |s| == 0 then 0 else (if IsUpperChar(s[0]) then 1 else 0) + UpperCount(s[1..])
  }

  /** A blank string holds no letter. */
  lemma {:induction false} BlankHasNoLetters(s: string)
    requires IsBlank(s)
    ensures AlphaCount(s) == 0
  {
    if |s| > 0 {
      BlankHasNoLetters(s[1..]);
    }
  }

  /** `is_mostly_uppercase(text)` with its default threshold of 0.60: the
      ratio of upper-case letters to letters, compared in integers. */
  function IsMostlyUppercase(text: string): (r: bool)
    ensures IsBlank(text) ==> !r
    ensures r <==> AlphaCount(text) > 0 && 5 * UpperCount(text) >= 3 * AlphaCount(text)
  {
    if IsBlank(text) then
      BlankHasNoLetters(text);
      false
    else
      var alpha := AlphaCount(text);
      if alpha == 0 then false
      else 100 * UpperCount(text) >= 60 * alpha
  }

  /** Lower-casing keeps every letter and leaves none upper case. */
  lemma {:induction false} LowerCounts(s: string)
    ensures AlphaCount(Lower(s)) == AlphaCount(s)
    ensures UpperCount(Lower(s)) == 0
  {
    if |s| > 0 {
      LowerCounts(s[1..]);
      assert Lower(s)[1..] == Lower(s[1..]);
    }
  }

  /** Upper-casing keeps every letter and makes all of them upper case. */
  lemma {:induction false} UpperCounts(s: string)
    ensures AlphaCount(Upper(s)) == AlphaCount(s)
    ensures UpperCount(Upper(s)) == AlphaCount(s)
  {
    if |s| > 0 {
      UpperCounts(s[1..]);
      assert Upper(s)[1..] == Upper(s[1..]);
    }
  }

  /** Lower-case text is never picked up. */
  lemma LowerNotMostlyUppercase(s: string)
    ensures !IsMostlyUppercase(Lower(s))
  {
    LowerCounts(s);
  }

  /** Upper-case text is picked up exactly when it has a letter. */
  lemma UpperMostlyUppercase(s: string)
    ensures IsMostlyUppercase(Upper(s)) <==> AlphaCount(s) > 0
  {
    UpperCounts(s);
  }

  // ---------------------------------------------------------------- to_sentence_case

  /** What `rstrip('.,!?')` takes off a word before the test for "'S". */
  const TrailingPunctuation: set<char> := {'.', ',', '!', '?'}

  /** The word ends in "'s" (in any case) once trailing punctuation is
      ignored, as in "BOB'S,". */
  predicate HasPossessiveS(word: string) {
    EndsWith(RStripChars(Upper(word), TrailingPunctuation), "'S")
  }

  /** One word of the sentence: capitalised when it ends in "'s", lower case
      otherwise. Only the case of letters changes. */
  function SentenceWord(word: string): (r: string)
    ensures |r| == |word|
    ensures Lower(r) == Lower(word)
  {
    if HasPossessiveS(word) then
      LowerCapitalize(word);
      Capitalize(word)
    else
      LowerLower(word);
      Lower(word)
  }

  /** The treatment of a word does not depend on the case it came in. */
  lemma SentenceWordIgnoresCase(word: string)
    ensures SentenceWord(Lower(word)) == SentenceWord(word)
  {
    UpperOfLower(word);
    CapitalizeLower(word);
    LowerLower(word);
  }

  /** The two cases the source's comments describe. */
  lemma SentenceWordExamples()
    ensures SentenceWord("BOB'S,") == "Bob's,"
    ensures SentenceWord("CAR") == "car"
  {
    PossessiveExample();
    PlainExample();
  }

  lemma PossessiveExample()
    ensures SentenceWord("BOB'S,") == "Bob's,"
  {
    BobIsPossessive();
    BobCapitalized();
  }

  lemma BobIsPossessive()
    ensures HasPossessiveS("BOB'S,")
  {
    assert Upper("BOB'S,") == "BOB'S,";
    assert "BOB'S,"[..5] == "BOB'S" && 'S' !in TrailingPunctuation;
    assert RStripChars("BOB'S,", TrailingPunctuation) == "BOB'S";
  }

  lemma BobCapitalized()
    ensures Capitalize("BOB'S,") == "Bob's,"
  {
    var c := Capitalize("BOB'S,");
    assert c[0] == 'B' && c[1] == 'o' && c[2] == 'b' && c[3] == '\'' && c[4] == 's' && c[5] == ',';
  }

  lemma PlainExample()
    ensures SentenceWord("CAR") == "car"
  {
    assert Upper("CAR") == "CAR";
    assert RStripChars("CAR", TrailingPunctuation) == "CAR";
    assert !EndsWith("CAR", "'S");
  }

  /** `result[0].upper() + result[1:]` for a non-empty result. */
  function CapitalizeFirst(s: string): (r: string)
    ensures |r| == |s|
    ensures |s| > 0 ==> r[0] == UpperChar(s[0])
    ensures forall i :: 1 <= i < |s| ==> r[i] == s[i]
  {
    if |s| == 0 then s else [UpperChar(s[0])] + s[1..]
  }

  /** Every word of a sentence treated by `SentenceWord`, in order. */
  function SentenceWords(words: seq<string>): (r: seq<string>)
    ensures |r| == |words|
    ensures forall k :: 0 <= k < |words| ==> r[k] == SentenceWord(words[k])
  {
    seq(|words|, k requires 0 <= k < |words| => SentenceWord(words[k]))
  }

  /** `to_sentence_case` after the strip: split on single spaces, treat each
      word, join with single spaces, upper-case the first character. */
  function SentenceCase(s: string): string {
    CapitalizeFirst(Join(SentenceWords(Split(s, ' ')), ' '))
  }

  /** `to_sentence_case(text)`: blank text comes back as it is. */
  function ToSentenceCase(text: string): string {
    if IsBlank(text) then text else SentenceCase(Strip(text))
  }

  lemma LowerCapitalizeFirst(s: string)
    ensures Lower(CapitalizeFirst(s)) == Lower(s)
  {
    if |s| > 0 {
      CaseOfCase(s[0]);
      assert Lower(CapitalizeFirst(s))[0] == Lower(s)[0];
    }
  }

  lemma LowerSentenceWords(words: seq<string>)
    ensures LowerAll(SentenceWords(words)) == LowerAll(words)
  {
  }

  /** Sentence case changes the case of letters and nothing else. */
  lemma SentenceCaseKeepsText(s: string)
    ensures |SentenceCase(s)| == |s|
    ensures Lower(SentenceCase(s)) == Lower(s)
  {
    var words := Split(s, ' ');
    LowerCapitalizeFirst(Join(SentenceWords(words), ' '));
    JoinLower(SentenceWords(words), ' ');
    LowerSentenceWords(words);
    JoinLower(words, ' ');
    JoinSplit(s, ' ');
  }

  /** Sentence case depends only on the letters, not on their case. */
  lemma SentenceCaseIgnoresCase(s: string)
    ensures SentenceCase(Lower(s)) == SentenceCase(s)
  {
    var words := Split(s, ' ');
    SplitLower(s, ' ');
    forall k | 0 <= k < |words| ensures SentenceWords(LowerAll(words))[k] == SentenceWords(words)[k] {
      SentenceWordIgnoresCase(words[k]);
    }
    assert SentenceWords(LowerAll(words)) == SentenceWords(words);
  }

  /** Text that is not blank comes back stripped, with the same letters up to
      case, beginning with a character that is not a lower-case letter. */
  lemma ToSentenceCaseShape(text: string)
    ensures IsBlank(text) ==> ToSentenceCase(text) == text
    ensures !IsBlank(text) ==> SentenceShaped(ToSentenceCase(text), Strip(text))
  {
    if !IsBlank(text) {
      var s := Strip(text);
      assert ToSentenceCase(text) == SentenceCase(s);
      StripShape(text);
      SentenceCaseShape(s);
    }
  }

  /** `r` is `s` up to case, begins with a character that is not a lower-case
      letter, and has no whitespace at either end. */
  predicate SentenceShaped(r: string, s: string) {
    |r| == |s| && Lower(r) == Lower(s)
    && r != [] && !IsLowerChar(r[0]) && !IsSpace(r[0]) && !IsSpace(r[|r| - 1])
  }

  /** Sentence case of a text with no whitespace at either end keeps that,
      and begins with a character that is not a lower-case letter. */
  lemma SentenceCaseShape(s: string)
    requires s != [] && !IsSpace(s[0]) && !IsSpace(s[|s| - 1])
    ensures SentenceShaped(SentenceCase(s), s)
  {
    SentenceCaseKeepsText(s);
    var r := SentenceCase(s);
    assert LowerChar(r[0]) == LowerChar(s[0]) && LowerChar(r[|r| - 1]) == LowerChar(s[|s| - 1]) by {
      assert Lower(r)[0] == Lower(s)[0] && Lower(r)[|r| - 1] == Lower(s)[|s| - 1];
    }
    var j := Join(SentenceWords(Split(s, ' ')), ' ');
    assert r[0] == UpperChar(j[0]);
  }

  /** Applying sentence case twice gives what applying it once gives. */
  lemma ToSentenceCaseIdempotent(text: string)
    ensures ToSentenceCase(ToSentenceCase(text)) == ToSentenceCase(text)
  {
    if !IsBlank(text) {
      StripShape(text);
      SentenceCaseFixed(Strip(text));
    }
  }

  /** Sentence case of a stripped text is left as it is by a second pass. */
  lemma SentenceCaseFixed(s: string)
    requires s != [] && !IsSpace(s[0]) && !IsSpace(s[|s| - 1])
    ensures ToSentenceCase(SentenceCase(s)) == SentenceCase(s)
  {
    var r := SentenceCase(s);
    assert r != [] && !IsSpace(r[0]) && !IsSpace(r[|r| - 1]) && Lower(r) == Lower(s) by {
      SentenceCaseShape(s);
    }
    assert !IsBlank(r) by {
      assert !IsSpace(r[0]);
    }
    assert ToSentenceCase(r) == SentenceCase(r) by {
      StripUnchanged(r);
    }
    assert SentenceCase(r) == r by {
      SentenceCaseIgnoresCase(r);
      SentenceCaseIgnoresCase(s);
    }
  }

  lemma {:induction false} CapitalizeFirstAppend(a: string, b: string)
    ensures CapitalizeFirst(a + b) == if |a| == 0 then CapitalizeFirst(b) else CapitalizeFirst(a) + b
  {
    if |a| > 0 {
      assert (a + b)[0] == a[0];
      assert (a + b)[1..] == a[1..] + b;
    } else {
      assert a + b == b;
    }
  }

  /** Upper-casing the first character of a join touches only the first word. */
  lemma {:induction false} CapitalizeFirstJoin(words: seq<string>)
    requires |words| >= 1
    ensures CapitalizeFirst(Join(words, ' ')) == Join([CapitalizeFirst(words[0])] + words[1..], ' ')
  {
    var ws := [CapitalizeFirst(words[0])] + words[1..];
    if |words| == 1 {
      assert ws == [CapitalizeFirst(words[0])];
    } else {
      JoinCons(words, ' ');
      JoinCons(ws, ' ');
      assert ws[1..] == words[1..];
      var rest := Join(words[1..], ' ');
      var tail := [' '] + rest;
      assert Join(words, ' ') == words[0] + tail;
      assert Join(ws, ' ') == ws[0] + tail;
      CapitalizeFirstAppend(words[0], tail);
      CapitalizeFirstAppend([' '], rest);
    }
  }

  /** Sentence case never turns a character into a space. */
  lemma SentenceWordNoSpace(word: string)
    requires ' ' !in word
    ensures ' ' !in SentenceWord(word)
    ensures ' ' !in CapitalizeFirst(SentenceWord(word))
  {
    var r := SentenceWord(word);
    forall i | 0 <= i < |r| ensures r[i] != ' ' && UpperChar(r[i]) != ' ' {
      assert word[i] in word;
      assert LowerChar(r[i]) == LowerChar(word[i]) by {
        assert Lower(r)[i] == Lower(word)[i];
      }
      SameCaseNotSpace(r[i], word[i]);
    }
    var c := CapitalizeFirst(r);
    assert forall i :: 0 <= i < |c| ==> c[i] != ' ';
  }

  /** A character equal up to case to one that is not a space is not a
      space, and neither is its upper case. */
  lemma SameCaseNotSpace(c: char, d: char)
    requires LowerChar(c) == LowerChar(d) && d != ' '
    ensures c != ' ' && UpperChar(c) != ' '
  {
  }

  /** The result splits into the words of the stripped text, each treated by
      `SentenceWord`, the first one also upper-cased at its start. */
  lemma ToSentenceCaseWords(text: string)
    requires !IsBlank(text)
    ensures var words := Split(Strip(text), ' ');
      Split(ToSentenceCase(text), ' ')
        == [CapitalizeFirst(SentenceWord(words[0]))] + SentenceWords(words)[1..]
  {
    var words := Split(Strip(text), ' ');
    var treated := SentenceWords(words);
    CapitalizeFirstJoin(treated);
    var ws := [CapitalizeFirst(treated[0])] + treated[1..];
    forall k | 0 <= k < |ws| ensures ' ' !in ws[k] {
      SentenceWordNoSpace(words[k]);
    }
    SplitJoin(ws, ' ');
  }

  // ---------------------------------------------------------------- process_json_data

  /** The document after `process_json_data`: every string under a "text"
      key that is mostly upper case is put in sentence case, in dicts and
      lists at any depth. */
  function Fix(data: Json): Json
    decreases data, 0
  {
    match data
    case JObj(members) => JObj(seq(|members|, i requires 0 <= i < |members| => FixMember(members[i])))
    case JArr(items) => JArr(seq(|items|, i requires 0 <= i < |items| => FixItem(items[i])))
    case _ => data
  }

  /** One `key, value` pair of a dict after the pass. */
  function FixMember(m: (string, Json)): (string, Json)
    decreases m.1, 1
  {
    if m.0 == "text" && m.1.JStr? then
      if IsMostlyUppercase(m.1.s) then (m.0, JStr(ToSentenceCase(m.1.s))) else m
    else if m.1.JObj? || m.1.JArr? then (m.0, Fix(m.1))
    else m
  }

  /** One item of a list after the pass: strings in lists are never touched. */
  function FixItem(item: Json): Json
    decreases item, 1
  {
    if item.JObj? || item.JArr? then Fix(item) else item
  }

  /** What `process_json_data` returns: whether some "text" string anywhere
      was mostly upper case. */
  predicate Modified(data: Json)
    decreases data, 0
  {
    match data
    case JObj(members) => exists i :: 0 <= i < |members| && MemberModified(members[i])
    case JArr(items) => exists i :: 0 <= i < |items| && ItemModified(items[i])
    case _ => false
  }

  predicate MemberModified(m: (string, Json))
    decreases m.1, 1
  {
    if m.0 == "text" && m.1.JStr? then IsMostlyUppercase(m.1.s)
    else (m.1.JObj? || m.1.JArr?) && Modified(m.1)
  }

  predicate ItemModified(item: Json)
    decreases item, 1
  {
    (item.JObj? || item.JArr?) && Modified(item)
  }

  /** `process_json_data(data)`: rewrites the document in place and reports
      whether it rewrote a "text" string. */
  method ProcessJsonData(data: Json) returns (fixed: Json, modified: bool)
    ensures fixed == Fix(data)
    ensures modified == Modified(data)
    decreases data, 1
  {
    match data {
      case JObj(members) =>
        fixed, modified := ProcessMembers(members);
      case JArr(items) =>
        fixed, modified := ProcessItems(items);
      case _ =>
        fixed, modified := data, false;
    }
  }

  /** The dict branch: each `key, value` pair in turn. */
  method ProcessMembers(members: seq<(string, Json)>) returns (fixed: Json, modified: bool)
    ensures fixed == Fix(JObj(members))
    ensures modified == Modified(JObj(members))
    decreases JObj(members), 0
  {
    modified := false;
    var current := members;
    for i := 0 to |members|
      invariant |current| == |members|
      invariant forall k :: 0 <= k < i ==> current[k] == FixMember(members[k])
      invariant forall k :: i <= k < |members| ==> current[k] == members[k]
      invariant modified <==> exists k :: 0 <= k < i && MemberModified(members[k])
    {
      assert members[i] in members;
      var member, memberModified := ProcessMember(members[i]);
      MembersStep(members, current, i, member, memberModified, modified);
      current := current[i := member];
      if memberModified {
        modified := true;
      }
    }
    FixObject(members, current);
    fixed := JObj(current);
  }

  /** One more member through the pass keeps the loop's account of the dict. */
  lemma MembersStep(members: seq<(string, Json)>, current: seq<(string, Json)>, i: nat,
                    member: (string, Json), memberModified: bool, modified: bool)
    requires i < |members| && |current| == |members|
    requires forall k :: 0 <= k < i ==> current[k] == FixMember(members[k])
    requires forall k :: i <= k < |members| ==> current[k] == members[k]
    requires modified <==> exists k :: 0 <= k < i && MemberModified(members[k])
    requires member == FixMember(members[i]) && memberModified == MemberModified(members[i])
    ensures var next := current[i := member];
      (forall k :: 0 <= k < i + 1 ==> next[k] == FixMember(members[k]))
      && (forall k :: i + 1 <= k < |members| ==> next[k] == members[k])
      && (modified || memberModified <==> exists k :: 0 <= k < i + 1 && MemberModified(members[k]))
  {
  }

  /** A dict whose every member has been through `FixMember` is the fixed dict. */
  lemma FixObject(members: seq<(string, Json)>, current: seq<(string, Json)>)
    requires |current| == |members|
    requires forall k :: 0 <= k < |members| ==> current[k] == FixMember(members[k])
    ensures JObj(current) == Fix(JObj(members))
  {
    assert current == seq(|members|, i requires 0 <= i < |members| => FixMember(members[i]));
  }

  /** One `key, value` pair of a dict: a "text" string is tested and
      rewritten, a dict or list is visited. */
  method ProcessMember(m: (string, Json)) returns (fixed: (string, Json), modified: bool)
    ensures fixed == FixMember(m)
    ensures modified == MemberModified(m)
    decreases m.1, 2
  {
    var key, value := m.0, m.1;
    fixed, modified := m, false;
    if key == "text" && value.JStr? {
      if IsMostlyUppercase(value.s) {
        fixed := (key, JStr(ToSentenceCase(value.s)));
        modified := true;
      }
    } else if value.JObj? || value.JArr? {
      var sub;
      sub, modified := ProcessJsonData(value);
      fixed := (key, sub);
    }
  }

  /** The list branch: only dicts and lists among the items are visited. */
  method ProcessItems(items: seq<Json>) returns (fixed: Json, modified: bool)
    ensures fixed == Fix(JArr(items))
    ensures modified == Modified(JArr(items))
    decreases JArr(items), 0
  {
    modified := false;
    var current := items;
    for i := 0 to |items|
      invariant |current| == |items|
      invariant forall k :: 0 <= k < i ==> current[k] == FixItem(items[k])
      invariant forall k :: i <= k < |items| ==> current[k] == items[k]
      invariant modified <==> exists k :: 0 <= k < i && ItemModified(items[k])
    {
      var item := items[i];
      if item.JObj? || item.JArr? {
        var sub, subModified := ProcessJsonData(item);
        current := current[i := sub];
        if subModified {
          modified := true;
        }
      }
    }
    FixArray(items, current);
    fixed := JArr(current);
  }

  /** A list whose every item has been through `FixItem` is the fixed list. */
  lemma FixArray(items: seq<Json>, current: seq<Json>)
    requires |current| == |items|
    requires forall k :: 0 <= k < |items| ==> current[k] == FixItem(items[k])
    ensures JArr(current) == Fix(JArr(items))
  {
    assert current == seq(|items|, i requires 0 <= i < |items| => FixItem(items[i]));
  }

  // ---------------------------------------------------------------- properties of the pass

  /** The document with every string under a "text" key emptied: what the
      pass must leave alone. */
  function Erase(data: Json): Json
    decreases data, 0
  {
    match data
    case JObj(members) => JObj(seq(|members|, i requires 0 <= i < |members| => EraseMember(members[i])))
    case JArr(items) => JArr(seq(|items|, i requires 0 <= i < |items| => Erase(items[i])))
    case _ => data
  }

  function EraseMember(m: (string, Json)): (string, Json)
    decreases m.1, 1
  {
    if m.0 == "text" && m.1.JStr? then (m.0, JStr("")) else (m.0, Erase(m.1))
  }

  /** The pass changes nothing but strings under "text" keys: keys, order,
      numbers, other strings and the nesting all stay. */
  lemma {:induction false} FixKeepsShape(data: Json)
    ensures Erase(Fix(data)) == Erase(data)
    decreases data
  {
    match data
    case JObj(members) =>
      var fixed := Fix(data).members;
      forall k | 0 <= k < |members| ensures EraseMember(fixed[k]) == EraseMember(members[k]) {
        assert members[k] in members;
        assert fixed[k] == FixMember(members[k]);
        var v := members[k].1;
        if !(members[k].0 == "text" && v.JStr?) && (v.JObj? || v.JArr?) {
          FixKeepsShape(v);
        }
      }
      assert Erase(Fix(data)).members == Erase(data).members;
    case JArr(items) =>
      var fixed := Fix(data).items;
      forall k | 0 <= k < |items| ensures Erase(fixed[k]) == Erase(items[k]) {
        assert fixed[k] == FixItem(items[k]);
        if items[k].JObj? || items[k].JArr? {
          FixKeepsShape(items[k]);
        }
      }
      assert Erase(Fix(data)).items == Erase(data).items;
    case _ =>
  }

  /** When `process_json_data` reports no change, the document is unchanged. */
  lemma {:induction false} FixUnmodified(data: Json)
    requires !Modified(data)
    ensures Fix(data) == data
    decreases data
  {
    match data
    case JObj(members) =>
      forall k | 0 <= k < |members| ensures FixMember(members[k]) == members[k] {
        assert members[k] in members;
        assert !MemberModified(members[k]);
        var v := members[k].1;
        if !(members[k].0 == "text" && v.JStr?) && (v.JObj? || v.JArr?) {
          FixUnmodified(v);
        }
      }
      assert Fix(data).members == members;
    case JArr(items) =>
      forall k | 0 <= k < |items| ensures FixItem(items[k]) == items[k] {
        assert !ItemModified(items[k]);
        if items[k].JObj? || items[k].JArr? {
          FixUnmodified(items[k]);
        }
      }
      assert Fix(data).items == items;
    case _ =>
  }

  /** A text the pass rewrote is left alone by the next pass, or rewritten to
      itself. */
  lemma FixTextIdempotent(s: string)
    ensures var m := FixMember(("text", JStr(s))); FixMember(m) == m
  {
    ToSentenceCaseIdempotent(s);
  }

  /** Running the pass twice gives what running it once gives. */
  lemma {:induction false} FixIdempotent(data: Json)
    ensures Fix(Fix(data)) == Fix(data)
    decreases data, 0
  {
    match data
    case JObj(members) =>
      var fixed := Fix(data).members;
      forall k | 0 <= k < |members| ensures FixMember(fixed[k]) == fixed[k] {
        assert members[k] in members;
        FixMemberIdempotent(members[k]);
      }
      assert Fix(Fix(data)).members == fixed;
    case JArr(items) =>
      var fixed := Fix(data).items;
      forall k | 0 <= k < |items| ensures FixItem(fixed[k]) == fixed[k] {
        assert fixed[k] == FixItem(items[k]);
        if items[k].JObj? || items[k].JArr? {
          FixIdempotent(items[k]);
        }
      }
      assert Fix(Fix(data)).items == fixed;
    case _ =>
  }

  lemma {:induction false} FixMemberIdempotent(m: (string, Json))
    ensures FixMember(FixMember(m)) == FixMember(m)
    decreases m.1, 1
  {
    var v := m.1;
    if m.0 == "text" && v.JStr? {
      FixTextIdempotent(v.s);
    } else if v.JObj? || v.JArr? {
      FixIdempotent(v);
    }
  }

  /** The pass changes values, never keys, so a document the decoder could
      return is still one after the pass. */
  lemma {:induction false} FixKeepsDistinctKeys(data: Json)
    requires DistinctKeys(data)
    ensures DistinctKeys(Fix(data))
    decreases data
  {
    match data
    case JObj(members) =>
      var fixed := Fix(data).members;
      forall k | 0 <= k < |members| ensures fixed[k].0 == members[k].0 && DistinctKeys(fixed[k].1) {
        assert members[k] in members;
        assert fixed[k] == FixMember(members[k]);
        var v := members[k].1;
        if members[k].0 == "text" && v.JStr? {
          assert fixed[k].1.JStr?;
        } else if v.JObj? || v.JArr? {
          FixKeepsDistinctKeys(v);
          assert fixed[k].1 == Fix(v);
        } else {
          assert fixed[k].1 == v;
        }
      }
      assert KeysDistinct(fixed);
    case JArr(items) =>
      var fixed := Fix(data).items;
      forall k | 0 <= k < |items| ensures DistinctKeys(fixed[k]) {
        assert fixed[k] == FixItem(items[k]);
        if items[k].JObj? || items[k].JArr? {
          FixKeepsDistinctKeys(items[k]);
        }
      }
    case _ =>
  }

  /** The report of a change does not mean the document changed: a lone
      upper-case "A" is mostly upper case and comes back as "A". */
  lemma ModifiedWithoutChange()
    ensures var data := JObj([("text", JStr("A"))]);
      Modified(data) && Fix(data) == data
  {
    var data := JObj([("text", JStr("A"))]);
    assert AlphaCount("A") == 1 && UpperCount("A") == 1;
    assert MemberModified(data.members[0]);
    assert !HasPossessiveS("A") by {
      assert Upper("A") == "A";
      assert RStripChars("A", TrailingPunctuation) == "A";
    }
    SplitNoSep("A", ' ');
    assert Strip("A") == "A";
    assert SentenceWord("A") == "a";
    assert ToSentenceCase("A") == "A";
  }

  // ---------------------------------------------------------------- process_files

  /** Where a run of `process_files` stands: the documents on disk and the
      two counters it reports. */
  datatype Progress = Progress(disk: map<string, Loaded>, processed: nat, modified: nat)

  /** One file of the walk. A `.json` file is counted as scanned; when it
      opens, decodes and `process_json_data` reports a change, it is counted
      as modified and then written back, unless the write fails. */
  function VisitFile(p: Progress, e: WalkEntry, readOnly: set<string>): Progress {
    if !EndsWith(e.name, ".json") then p
    else
      var path := PathJoin(e.dir, e.name);
      if path !in p.disk || p.disk[path].Malformed? || !Modified(p.disk[path].data) then
        p.(processed := p.processed + 1)
      else
        var written := if path in readOnly then p.disk else p.disk[path := Parsed(Fix(p.disk[path].data))];
        Progress(written, p.processed + 1, p.modified + 1)
  }

  /** The files of the walk visited in order. */
  function ProcessWalk(walk: seq<WalkEntry>, disk: map<string, Loaded>, readOnly: set<string>): Progress {
    if |walk| == 0 then Progress(disk, 0, 0)
    else VisitFile(ProcessWalk(walk[..|walk| - 1], disk, readOnly), walk[|walk| - 1], readOnly)
  }

  /** `process_files`: the walk is given, a path missing from `disk` cannot
      be opened and a path in `readOnly` cannot be written. */
  method ProcessFiles(walk: seq<WalkEntry>, disk: map<string, Loaded>, readOnly: set<string>)
    returns (newDisk: map<string, Loaded>, processed: nat, modifiedCount: nat)
    requires Decoded(disk)
    ensures Progress(newDisk, processed, modifiedCount) == ProcessWalk(walk, disk, readOnly)
    ensures Decoded(newDisk)
  {
    newDisk, processed, modifiedCount := disk, 0, 0;
    for i := 0 to |walk|
      invariant Progress(newDisk, processed, modifiedCount) == ProcessWalk(walk[..i], disk, readOnly)
    {
      assert walk[..i + 1][..i] == walk[..i];
      newDisk, processed, modifiedCount := ProcessFile(walk[i], readOnly, newDisk, processed, modifiedCount);
    }
    assert walk[..|walk|] == walk;
    ProcessWalkDecoded(walk, disk, readOnly);
  }

  /** The body of the walk's loop for one file. */
  method ProcessFile(e: WalkEntry, readOnly: set<string>, disk: map<string, Loaded>, processed: nat, modifiedCount: nat)
    returns (disk': map<string, Loaded>, processed': nat, modifiedCount': nat)
    ensures Progress(disk', processed', modifiedCount') == VisitFile(Progress(disk, processed, modifiedCount), e, readOnly)
  {
    disk', processed', modifiedCount' := disk, processed, modifiedCount;
    if EndsWith(e.name, ".json") {
      var path := PathJoin(e.dir, e.name);
      processed' := processed' + 1;
      if path in disk && disk[path].Parsed? {
        var fixed, modified := ProcessJsonData(disk[path].data);
        if modified {
          modifiedCount' := modifiedCount' + 1;
          if path !in readOnly {
            disk' := disk[path := Parsed(fixed)];
          }
        }
      }
    }
  }

  /** The paths of the walk's `.json` files. */
  function JsonPaths(walk: seq<WalkEntry>): set<string> {
    if |walk| == 0 then {}
    else
      var e := walk[|walk| - 1];
      JsonPaths(walk[..|walk| - 1]) + if EndsWith(e.name, ".json") then {PathJoin(e.dir, e.name)} else {}
  }

  /** The entry is the `.json` file at the given path. */
  predicate IsJsonEntry(e: WalkEntry, path: string) {
    EndsWith(e.name, ".json") && PathJoin(e.dir, e.name) == path
  }

  /** No more files are modified than scanned, nor scanned than walked; the
      set of files on disk stays the same. */
  lemma {:induction false} ProcessWalkCounts(walk: seq<WalkEntry>, disk: map<string, Loaded>, readOnly: set<string>)
    ensures var r := ProcessWalk(walk, disk, readOnly);
      r.modified <= r.processed <= |walk| && r.disk.Keys == disk.Keys
  {
    if |walk| > 0 {
      ProcessWalkCounts(walk[..|walk| - 1], disk, readOnly);
    }
  }

  /** One visit changes at most the file it visits, and only to its fixed
      document. */
  lemma VisitFileWrites(p: Progress, e: WalkEntry, readOnly: set<string>, path: string)
    requires path in p.disk
    ensures var now := VisitFile(p, e, readOnly).disk;
      path in now
      && (now[path] == p.disk[path]
          || (p.disk[path].Parsed? && Modified(p.disk[path].data) && now[path] == Parsed(Fix(p.disk[path].data))
              && path !in readOnly && IsJsonEntry(e, path)))
  {
    var now := VisitFile(p, e, readOnly).disk;
    if !EndsWith(e.name, ".json") {
      assert now == p.disk;
    } else {
      var q := PathJoin(e.dir, e.name);
      if q !in p.disk || p.disk[q].Malformed? || !Modified(p.disk[q].data) || q in readOnly {
        assert now == p.disk;
      } else {
        assert now == p.disk[q := Parsed(Fix(p.disk[q].data))];
      }
    }
  }

  /** After the run, a file holds either what it held before or the fixed
      form of that document; it changes only when it is a writable `.json`
      file of the walk whose document the pass reported as modified. */
  lemma {:induction false} ProcessWalkWrites(walk: seq<WalkEntry>, disk: map<string, Loaded>, readOnly: set<string>, path: string)
    requires path in disk
    ensures var now := ProcessWalk(walk, disk, readOnly).disk;
      path in now
      && (now[path] == disk[path]
          || (disk[path].Parsed? && Modified(disk[path].data) && now[path] == Parsed(Fix(disk[path].data))
              && path !in readOnly && path in JsonPaths(walk)))
  {
    if |walk| > 0 {
      var before := walk[..|walk| - 1];
      var e := walk[|walk| - 1];
      ProcessWalkWrites(before, disk, readOnly, path);
      var prev := ProcessWalk(before, disk, readOnly);
      VisitFileWrites(prev, e, readOnly, path);
      JsonPathsLast(walk, path);
      if prev.disk[path] != disk[path] {
        FixIdempotent(disk[path].data);
      }
    }
  }

  /** A writable `.json` file of the walk whose document the pass reports as
      modified ends the run holding the fixed document, however often the
      walk visits it. */
  lemma {:induction false} ProcessWalkFixes(walk: seq<WalkEntry>, disk: map<string, Loaded>, readOnly: set<string>, path: string)
    requires path in disk && disk[path].Parsed? && Modified(disk[path].data) && path !in readOnly
    requires path in JsonPaths(walk)
    ensures var now := ProcessWalk(walk, disk, readOnly).disk;
      path in now && now[path] == Parsed(Fix(disk[path].data))
  {
    var before := walk[..|walk| - 1];
    var e := walk[|walk| - 1];
    var prev := ProcessWalk(before, disk, readOnly);
    var data := disk[path].data;
    ProcessWalkWrites(before, disk, readOnly, path);
    if path in JsonPaths(before) {
      ProcessWalkFixes(before, disk, readOnly, path);
      VisitFileWrites(prev, e, readOnly, path);
      FixIdempotent(data);
    } else {
      JsonPathsLast(walk, path);
      assert prev.disk[path] == disk[path];
    }
  }

  /** A path is one of the walk's `.json` paths iff it is one of those of
      the walk without its last entry, or that last entry is the path's
      `.json` file. */
  lemma JsonPathsLast(walk: seq<WalkEntry>, path: string)
    requires |walk| > 0
    ensures path in JsonPaths(walk) <==>
      path in JsonPaths(walk[..|walk| - 1]) || IsJsonEntry(walk[|walk| - 1], path)
  {
  }

  /** What the run writes back is again a document the decoder could
      return. */
  lemma ProcessWalkDecoded(walk: seq<WalkEntry>, disk: map<string, Loaded>, readOnly: set<string>)
    requires Decoded(disk)
    ensures Decoded(ProcessWalk(walk, disk, readOnly).disk)
  {
    var now := ProcessWalk(walk, disk, readOnly).disk;
    ProcessWalkCounts(walk, disk, readOnly);
    forall path | path in now && now[path].Parsed? ensures DistinctKeys(now[path].data) {
      ProcessWalkWrites(walk, disk, readOnly, path);
      if now[path] != disk[path] {
        FixKeepsDistinctKeys(disk[path].data);
      }
    }
  }
}
