/** The JSON tree the decoder reads (the `json` crate's `JsonValue`), and the
    accessors it uses on it. */
module Json {
  import opened Floats

  /** A JSON value. A `Number` holds the `f64` the crate's number converts to;
      an `Object` keeps its entries in insertion order. */
  datatype JsonValue =
    | Null
    | Bool(b: bool)
    | Number(num: Float)
    | String(str: string)
    | Array(elems: seq<JsonValue>)
    | Object(members: seq<(string, JsonValue)>)

  predicate HasKey(members: seq<(string, JsonValue)>, key: string) {
    exists i :: 0 <= i < |members| && members[i].0 == key
  }

  /** The value of the first entry named `key`, or `Null` when there is none
      (the crate keeps keys unique, so "first" is "the"). */
  function Lookup(members: seq<(string, JsonValue)>, key: string): JsonValue
    decreases |members|
  {
    if |members| == 0 then Null
    else if members[0].0 == key then members[0].1
    else Lookup(members[1..], key)
  }

  /** A lookup finds the first entry under its key, and `Null` when there is
      none. */
  lemma {:induction false} LookupFindsFirst(members: seq<(string, JsonValue)>, key: string)
    ensures !HasKey(members, key) ==> Lookup(members, key) == Null
    ensures HasKey(members, key) ==>
      exists i :: 0 <= i < |members| && members[i] == (key, Lookup(members, key))
               && forall j :: 0 <= j < i ==> members[j].0 != key
    decreases |members|
  {
    if |members| > 0 && members[0].0 != key {
      LookupFindsFirst(members[1..], key);
      var v := Lookup(members, key);
      if HasKey(members, key) {
        var i :| 0 <= i < |members| && members[i].0 == key;
        assert members[1..][i - 1].0 == key;
        var k :| 0 <= k < |members[1..]| && members[1..][k] == (key, v)
                 && forall j :: 0 <= j < k ==> members[1..][j].0 != key;
        assert members[k + 1] == (key, v);
        forall j | 0 <= j < k + 1 ensures members[j].0 != key {
          if j > 0 { assert members[j] == members[1..][j - 1]; }
        }
      } else {
        forall i | 0 <= i < |members[1..]| ensures members[1..][i].0 != key {
          assert members[1..][i] == members[i + 1];
        }
      }
    }
  }

  /** `take_prop` (`JsonValue::remove`): the named field of an object, and
      `Null` for a missing field or a value that is not an object. Each field
      is taken at most once by the decoder, so removal is not modelled. */
  function TakeProp(key: string, v: JsonValue): JsonValue {
    if v.Object? then Lookup(v.members, key) else Null
  }

  /** `JsonValue::entries`: an object's entries in order, nothing otherwise. */
  function Entries(v: JsonValue): seq<(string, JsonValue)> {
    if v.Object? then v.members else []
  }

  /** `JsonValue::members`: an array's elements in order, nothing otherwise. */
  function Members(v: JsonValue): seq<JsonValue> {
    if v.Array? then v.elems else []
  }

  /** An entry whose key appears nowhere before it is what a lookup finds. */
  lemma {:induction false} LookupEarliest(members: seq<(string, JsonValue)>, i: nat)
    requires i < |members|
    requires forall j :: 0 <= j < i ==> members[j].0 != members[i].0
    ensures Lookup(members, members[i].0) == members[i].1
    decreases i
  {
    if i > 0 {
      assert members[0].0 != members[i].0;
      assert members[1..][i - 1] == members[i];
      forall j | 0 <= j < i - 1 ensures members[1..][j].0 != members[i].0 {
        assert members[1..][j] == members[j + 1];
      }
      LookupEarliest(members[1..], i - 1);
    }
  }

  /** Looking up the key of the first entry yields that entry's value. */
  lemma LookupFirst(key: string, v: JsonValue, rest: seq<(string, JsonValue)>)
    ensures Lookup([(key, v)] + rest, key) == v
  {
  }

  /** Entries under other keys are skipped by a lookup. */
  lemma LookupSkip(other: string, v: JsonValue, rest: seq<(string, JsonValue)>, key: string)
    requires other != key
    ensures Lookup([(other, v)] + rest, key) == Lookup(rest, key)
  {
    assert ([(other, v)] + rest)[1..] == rest;
  }
}
