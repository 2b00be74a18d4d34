/** A parsed JSON document as Python's `json` module hands it over: `None`,
    booleans, numbers, strings, lists and dicts. Numbers are integers here;
    a dict keeps its members in file order. */
module JsonValue {

  datatype Option<T> = None | Some(value: T)

  datatype Json =
    | JNull
    | JBool(b: bool)
    | JNum(n: int)
    | JStr(s: string)
    | JArr(items: seq<Json>)
    | JObj(members: seq<(string, Json)>)

  /** What `open` + `json.load` gives for one file: a document, or a
      decoding error. A file that cannot be opened is absent from the disk. */
  datatype Loaded = Parsed(data: Json) | Malformed

  /** No two members of the dict share a key. */
  predicate KeysDistinct(members: seq<(string, Json)>) {
    forall a, b :: 0 <= a < b < |members| ==> members[a].0 != members[b].0
  }

  /** Every dict of the document, at any depth, holds each key once: the
      decoder builds Python dicts, so this holds of whatever it returns. */
  predicate DistinctKeys(data: Json) {
    match data
    case JObj(members) =>
      KeysDistinct(members) && forall i :: 0 <= i < |members| ==> DistinctKeys(members[i].1)
    case JArr(items) => forall i :: 0 <= i < |items| ==> DistinctKeys(items[i])
    case _ => true
  }

  /** Every document on the disk is one the decoder can return. */
  predicate Decoded(disk: map<string, Loaded>) {
    forall path :: path in disk && disk[path].Parsed? ==> DistinctKeys(disk[path].data)
  }

  /** `bool(v)` in Python. */
  predicate Truthy(v: Json) {
    match v
    case JNull => false
    case JBool(b) => b
    case JNum(n) => n != 0
    case JStr(s) => |s| > 0
    case JArr(items) => |items| > 0
    case JObj(members) => |members| > 0
  }

  /** `key in d` */
  predicate HasKey(members: seq<(string, Json)>, key: string) {
    exists i :: 0 <= i < |members| && members[i].0 == key
  }

  /** `d.get(key)`: the value of the last member with that key, as the
      decoder keeps the last of repeated keys. */
  function Get(members: seq<(string, Json)>, key: string): (r: Option<Json>)
    ensures r.None? <==> !HasKey(members, key)
    ensures r.Some? ==> exists i :: 0 <= i < |members| && members[i] == (key, r.value)
  {
    if |members| == 0 then None
    else if members[|members| - 1].0 == key then Some(members[|members| - 1].1)
    else
      var r := Get(members[..|members| - 1], key);
      assert forall i :: 0 <= i < |members| - 1 ==> members[..|members| - 1][i] == members[i];
      r
  }

  /** In a dict whose keys are distinct, `Get` of a member's key finds that
      member's value, as `d[key]` does. */
  lemma GetDistinct(members: seq<(string, Json)>, i: int)
    requires KeysDistinct(members) && 0 <= i < |members|
    ensures Get(members, members[i].0) == Some(members[i].1)
  {
    var key := members[i].0;
    assert HasKey(members, key);
    var j :| 0 <= j < |members| && members[j] == (key, Get(members, key).value);
    assert j == i;
  }

  /** Members appended after the others hide earlier ones with the same key;
      members with other keys do not matter. */
  lemma {:induction false} GetAppend(members: seq<(string, Json)>, extra: seq<(string, Json)>, key: string)
    ensures Get(members + extra, key) == if HasKey(extra, key) then Get(extra, key) else Get(members, key)
    decreases |extra|
  {
    if |extra| > 0 {
      var last := |extra| - 1;
      assert (members + extra)[..|members + extra| - 1] == members + extra[..last];
      GetAppend(members, extra[..last], key);
      if extra[last].0 != key {
        assert HasKey(extra, key) <==> HasKey(extra[..last], key) by {
          if HasKey(extra, key) {
            var i :| 0 <= i < |extra| && extra[i].0 == key;
            assert extra[..last][i].0 == key;
          }
          if HasKey(extra[..last], key) {
            var i :| 0 <= i < last && extra[..last][i].0 == key;
            assert extra[i].0 == key;
          }
        }
      } else {
        assert HasKey(extra, key) by { assert extra[last].0 == key; }
      }
    } else {
      assert members + extra == members;
    }
  }
}
