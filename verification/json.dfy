/** JSON values as the Python and JavaScript code sees them after parsing:
    an object is its sequence of (key, value) members in insertion order. */
module JsonValue {
  import opened Wrappers

  datatype Json =
    | Null
    | Bool(b: bool)
    | Num(n: int)
    | Str(s: string)
    | Arr(items: seq<Json>)
    | Obj(fields: seq<(string, Json)>)

  /** `data.get(key)` / `obj[key]`: the value of the first member named `key`. */
  function Lookup(fields: seq<(string, Json)>, key: string): (r: Option<Json>)
    ensures r.Some? <==> exists i :: 0 <= i < |fields| && fields[i].0 == key
    ensures r.Some? ==> exists i :: 0 <= i < |fields| && fields[i] == (key, r.value)
    decreases |fields|
  {
    if |fields| == 0 then None
    else if fields[0].0 == key then Some(fields[0].1)
    else
      var r := Lookup(fields[1..], key);
      assert forall i :: 0 < i < |fields| ==> fields[i] == fields[1..][i - 1];
      r
  }

  /** `obj[key] = v` on a dictionary: an existing member keeps its place and
      takes the new value; a new key is appended. */
  function SetField(fields: seq<(string, Json)>, key: string, v: Json): (r: seq<(string, Json)>)
    ensures Lookup(r, key) == Some(v)
    ensures forall k :: k != key ==> Lookup(r, k) == Lookup(fields, k)
    ensures Keys(r) == Keys(fields) + {key}
    decreases |fields|
  {
    if |fields| == 0 then [(key, v)]
    else if fields[0].0 == key then
      var r := [(key, v)] + fields[1..];
      assert forall i :: 0 < i < |fields| ==> r[i] == fields[i];
      assert Keys(r) == Keys(fields) by {
        assert forall i :: 0 <= i < |fields| ==> r[i].0 == fields[i].0;
      }
      r
    else
      var rest := SetField(fields[1..], key, v);
      var r := [fields[0]] + rest;
      assert Lookup(r, key) == Lookup(rest, key);
      assert forall k :: k != fields[0].0 ==> Lookup(r, k) == Lookup(rest, k);
      KeysCons(fields);
      KeysCons(r);
      assert r[1..] == rest;
      r
  }

  lemma KeysCons(fields: seq<(string, Json)>)
    requires |fields| > 0
    ensures Keys(fields) == {fields[0].0} + Keys(fields[1..])
  {
    assert forall i :: 0 < i < |fields| ==> fields[i] == fields[1..][i - 1];
  }

  function Keys(fields: seq<(string, Json)>): set<string> {
    set i | 0 <= i < |fields| :: fields[i].0
  }

  /** JavaScript truthiness of a parsed JSON value. */
  predicate Truthy(j: Json) {
    match j
    case Null => false
    case Bool(b) => b
    case Num(n) => n != 0
    case Str(s) => s != ""
    case _ => true
  }
}
