/**
  Decoded JSON as PHP's `json_decode($text, true)` hands it to the program:
  objects become ordered associative arrays, lists become lists.  Floating
  point numbers are not modelled.  `Lookup` is the `$v['key'] ?? null` idiom
  used throughout the source, `Truthy` is PHP's boolean conversion (`if ($v)`),
  `Elements` is what `foreach ($v as $x)` visits.

  A JSON object is kept as the members the text lists, repeated keys
  included; `PhpArray` is the associative array `json_decode` builds from
  them, one entry per key.
*/
module Json {
  datatype JsonValue =
    | JNull
    | JBool(b: bool)
    | JInt(i: int)
    | JStr(s: string)
    | JList(items: seq<JsonValue>)
    | JObject(members: seq<(string, JsonValue)>)

  /** The keys of a member list, in order. */
  function Keys(ms: seq<(string, JsonValue)>): (ks: seq<string>)
    ensures |ks| == |ms|
    ensures forall i :: 0 <= i < |ms| ==> ks[i] == ms[i].0
  {
    seq(|ms|, i requires 0 <= i < |ms| => ms[i].0)
  }

  /** No key occurs twice, as in a PHP array. */
  predicate DistinctKeys(ms: seq<(string, JsonValue)>)
  {
    forall i, j :: 0 <= i < j < |ms| ==> ms[i].0 != ms[j].0
  }

  /** Position i holds the last member with that key. */
  predicate IsLastWithKey(ms: seq<(string, JsonValue)>, key: string, i: int)
  {
    0 <= i < |ms| && ms[i].0 == key && forall j :: i < j < |ms| ==> ms[j].0 != key
  }

  /** `$v[key] ?? null`: the value stored under `key` (the last one wins, as
      in json_decode), or null when `$v` is not an object or lacks the key. */
  function Lookup(v: JsonValue, key: string): (r: JsonValue)
    ensures r != JNull ==> v.JObject? && (key, r) in v.members
  {
    match v
    case JObject(ms) => LookupIn(ms, key)
    case _ => JNull
  }

  function LookupIn(ms: seq<(string, JsonValue)>, key: string): (r: JsonValue)
    ensures r != JNull ==> (key, r) in ms
  {
    if ms == [] then JNull
    else if ms[|ms| - 1].0 == key then ms[|ms| - 1].1
    else LookupIn(ms[..|ms| - 1], key)
  }

  /** `LookupIn` finds the last member with the key, and null when no member
      has it. */
  lemma {:induction false} LookupInFindsLast(ms: seq<(string, JsonValue)>, key: string)
    ensures forall i :: IsLastWithKey(ms, key, i) ==> LookupIn(ms, key) == ms[i].1
    ensures key !in Keys(ms) ==> LookupIn(ms, key) == JNull
  {
    if ms != [] && ms[|ms| - 1].0 != key {
      var init := ms[..|ms| - 1];
      LookupInFindsLast(init, key);
      assert forall i :: IsLastWithKey(ms, key, i) ==> IsLastWithKey(init, key, i);
      assert key !in Keys(ms) ==> key !in Keys(init);
    }
  }

  /** `Lookup` finds the last member with the key, and null when no member
      has it or the value is not an object. */
  lemma LookupFindsLast(v: JsonValue, key: string)
    ensures v.JObject? ==> forall i :: IsLastWithKey(v.members, key, i) ==> Lookup(v, key) == v.members[i].1
    ensures !v.JObject? || key !in Keys(v.members) ==> Lookup(v, key) == JNull
  {
    if v.JObject? {
      LookupInFindsLast(v.members, key);
    }
  }

  /** `$a[key] = value`: an existing key keeps its place and takes the new
      value; a new key is appended. */
  function Assign(entries: seq<(string, JsonValue)>, key: string, value: JsonValue): (r: seq<(string, JsonValue)>)
    ensures key in Keys(entries) ==> |r| == |entries|
    ensures key !in Keys(entries) ==> r == entries + [(key, value)]
    ensures forall i :: 0 <= i < |entries| ==> r[i].0 == entries[i].0
    ensures forall i :: 0 <= i < |entries| && entries[i].0 != key ==> r[i] == entries[i]
    ensures forall i :: 0 <= i < |r| && r[i].0 == key ==> r[i].1 == value
  {
    if key in Keys(entries) then
      seq(|entries|, i requires 0 <= i < |entries| => if entries[i].0 == key then (key, value) else entries[i])
    else entries + [(key, value)]
  }

  /** The array json_decode builds from an object's members, assigning them
      in order: one entry per key, in order of first appearance, each holding
      the key's last value. */
  function PhpArray(ms: seq<(string, JsonValue)>): (a: seq<(string, JsonValue)>)
    ensures |a| <= |ms|
    ensures DistinctKeys(a)
    ensures forall k :: k in Keys(a) <==> k in Keys(ms)
    ensures forall i :: 0 <= i < |a| ==> a[i].1 == LookupIn(ms, a[i].0)
  {
    if ms == [] then []
    else
      var init := ms[..|ms| - 1];
      var prev := PhpArray(init);
      assert init + [ms[|ms| - 1]] == ms;
      AssignKeepsKeys(prev, init, ms[|ms| - 1].0, ms[|ms| - 1].1);
      AssignKeepsValues(prev, init, ms[|ms| - 1].0, ms[|ms| - 1].1);
      Assign(prev, ms[|ms| - 1].0, ms[|ms| - 1].1)
  }

  /** Assigning one more member keeps the keys distinct and adds its key. */
  lemma AssignKeepsKeys(prev: seq<(string, JsonValue)>, init: seq<(string, JsonValue)>, key: string, value: JsonValue)
    requires |prev| <= |init| && DistinctKeys(prev)
    requires forall k :: k in Keys(prev) <==> k in Keys(init)
    ensures var a := Assign(prev, key, value);
            && |a| <= |init| + 1
            && DistinctKeys(a)
            && forall k :: k in Keys(a) <==> k in Keys(init + [(key, value)])
  {
    var a := Assign(prev, key, value);
    assert Keys(init + [(key, value)]) == Keys(init) + [key];
    if key in Keys(prev) {
      assert Keys(a) == Keys(prev);
    } else {
      assert Keys(a) == Keys(prev) + [key];
    }
  }

  /** Assigning one more member keeps every entry equal to what `LookupIn`
      finds under its key. */
  lemma AssignKeepsValues(prev: seq<(string, JsonValue)>, init: seq<(string, JsonValue)>, key: string, value: JsonValue)
    requires forall i :: 0 <= i < |prev| ==> prev[i].1 == LookupIn(init, prev[i].0)
    ensures var a := Assign(prev, key, value);
            forall i :: 0 <= i < |a| ==> a[i].1 == LookupIn(init + [(key, value)], a[i].0)
  {
    var a := Assign(prev, key, value);
    var ms := init + [(key, value)];
    assert ms[..|ms| - 1] == init;
    assert ms[|ms| - 1] == (key, value);
    forall i | 0 <= i < |a|
      ensures a[i].1 == LookupIn(ms, a[i].0)
    {
      if a[i].0 != key {
        assert a[i] == prev[i];
      }
    }
  }

  /** Members with distinct keys are stored as they are. */
  lemma {:induction false} PhpArrayOfDistinct(ms: seq<(string, JsonValue)>)
    requires DistinctKeys(ms)
    ensures PhpArray(ms) == ms
  {
    if ms != [] {
      var init := ms[..|ms| - 1];
      PhpArrayOfDistinct(init);
      assert ms[|ms| - 1].0 !in Keys(init);
      assert init + [ms[|ms| - 1]] == ms;
    }
  }

  /** PHP's conversion to bool: null, false, 0, "", "0" and empty arrays are false. */
  predicate Truthy(v: JsonValue) {
    match v
    case JNull => false
    case JBool(b) => b
    case JInt(i) => i != 0
    case JStr(s) => s != "" && s != "0"
    case JList(items) => |items| > 0
    case JObject(ms) => |ms| > 0
  }

  /** The values `foreach` visits, in order: a list's items, an object's
      array entries (one per key, holding the value `Lookup` finds under it);
      a scalar yields none. */
  function Elements(v: JsonValue): (r: seq<JsonValue>)
    ensures v.JList? ==> r == v.items
    ensures v.JObject? ==> |r| == |PhpArray(v.members)| <= |v.members|
    ensures v.JObject? ==> forall i :: 0 <= i < |r| ==> r[i] == Lookup(v, PhpArray(v.members)[i].0)
    ensures !v.JList? && !v.JObject? ==> r == []
  {
    match v
    case JList(items) => items
    case JObject(ms) =>
      var a := PhpArray(ms);
      seq(|a|, i requires 0 <= i < |a| => a[i].1)
    case _ => []
  }

  /** An object whose keys are distinct yields its members' values in order. */
  lemma ElementsOfDistinct(ms: seq<(string, JsonValue)>)
    requires DistinctKeys(ms)
    ensures |Elements(JObject(ms))| == |ms|
    ensures forall i :: 0 <= i < |ms| ==> Elements(JObject(ms))[i] == ms[i].1
  {
    PhpArrayOfDistinct(ms);
  }
}
