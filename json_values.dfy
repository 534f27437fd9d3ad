/**
  The JSON-shaped values the spider fetches, caches and scans: what `resp.json()`
  and `json.load` return. Numbers are modelled as integers; an object keeps its
  members in insertion order, as a Python dict does, and its keys are distinct.
*/
module JsonValues {

  import opened Wrappers

  datatype Json =
    | Null
    | Bool(b: bool)
    | Num(n: int)
    | Str(s: string)
    | Arr(items: seq<Json>)
    | Obj(members: seq<Member>)

  datatype Member = Member(key: string, value: Json)

  /** Python truthiness of a parsed value (`if data:`). */
  predicate Truthy(j: Json) {
    match j
    case Null => false
    case Bool(b) => b
    case Num(n) => n != 0
    case Str(s) => s != ""
    case Arr(items) => items != []
    case Obj(members) => members != []
  }

  /** Truthiness of a value that may be Python's `None`. */
  predicate IsTruthy(o: Option<Json>) {
    o.Some? && Truthy(o.value)
  }

  /** The keys of an object, in order (`list(d.keys())`). */
  function Keys(members: seq<Member>): (ks: seq<string>)
    ensures |ks| == |members|
    ensures forall i | 0 <= i < |members| :: ks[i] == members[i].key
  {
    seq(|members|, i requires 0 <= i < |members| => members[i].key)
  }

  /** `d.get(key)`: the value stored under `key`, if any. */
  function Get(members: seq<Member>, key: string): (r: Option<Json>)
    ensures r.Some? <==> key in Keys(members)
    ensures r.Some? ==> Member(key, r.value) in members
  {
    if members == [] then None
    else if members[0].key == key then Some(members[0].value)
    else
      assert Keys(members) == [members[0].key] + Keys(members[1..]);
      var r := Get(members[1..], key);
      r
  }
}
