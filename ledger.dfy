/**
 * The part of the ledger's chaincode stub the registry uses: string-valued
 * get and put on a key-value state, and a range scan in key order. The
 * world state is a map from key to stored string; a key that is absent
 * stands for both "no entry" and a null value.
 */
module Ledger {
  import opened Wrappers
  import opened Lexical

  /** One entry returned by a range scan. */
  datatype KeyValue = KeyValue(key: string, value: string)

  /**
   * `key` lies in the scan range [startKey, endKey): the start is
   * inclusive, the end exclusive, and an empty bound is no bound.
   */
  predicate InRange(key: string, startKey: string, endKey: string)
  {
    (startKey == "" || !Less(key, startKey)) && (endKey == "" || Less(key, endKey))
  }

  /** The keys of `state` that lie in the scan range. */
  ghost function KeysInRange(state: map<string, string>, startKey: string, endKey: string): (keys: set<string>)
  {
    set k | k in state && InRange(k, startKey, endKey)
  }

  /** The entries of `state` under `keys`, in the order of `keys`. */
  function Entries(state: map<string, string>, keys: seq<string>): (entries: seq<KeyValue>)
    requires forall k :: k in keys ==> k in state
    ensures |entries| == |keys|
    ensures forall i :: 0 <= i < |entries| ==> entries[i] == KeyValue(keys[i], state[keys[i]])
  {
    if keys == [] then [] else [KeyValue(keys[0], state[keys[0]])] + Entries(state, keys[1..])
  }

  /** The entries of `state` whose keys lie in the range, in ascending key order. */
  ghost function Range(state: map<string, string>, startKey: string, endKey: string): (entries: seq<KeyValue>)
    ensures |entries| == |KeysInRange(state, startKey, endKey)|
  {
    Entries(state, SortedKeys(KeysInRange(state, startKey, endKey)))
  }

  /** With both bounds empty, the scan covers every key. */
  lemma FullRange(state: map<string, string>)
    ensures KeysInRange(state, "", "") == state.Keys
  {
  }

  /** The world state as the chaincode sees it through its stub. */
  class ChaincodeStub {
    var state: map<string, string>

    constructor (state: map<string, string>)
      ensures this.state == state
    {
      this.state := state;
    }

    /** The stored string, or null (`None`) when nothing is stored under `key`. */
    function GetStringState(key: string): (value: Option<string>)
      reads this
      ensures value.Some? <==> key in state
      ensures value.Some? ==> value.value == state[key]
    {
      if key in state then Some(state[key]) else None
    }

    method PutStringState(key: string, value: string)
      modifies this
      ensures state == old(state)[key := value]
    {
      state := state[key := value];
    }

    /** Every entry whose key lies in [startKey, endKey), in ascending key order. */
    method GetStateByRange(startKey: string, endKey: string) returns (entries: seq<KeyValue>)
      ensures entries == Range(state, startKey, endKey)
    {
      ghost var inRange := KeysInRange(state, startKey, endKey);
      var keys: seq<string> := [];
      var rest := state.Keys;
      while rest != {}
        invariant rest <= state.Keys
        invariant StrictlySorted(keys)
        invariant forall x :: x in keys <==> x in inRange && x !in rest
        decreases rest
      {
        var k :| k in rest;
        if InRange(k, startKey, endKey) {
          keys := Insert(keys, k);
        }
        rest := rest - {k};
      }
      SortedUnique(keys, SortedKeys(inRange));
      entries := Entries(state, keys);
    }
  }
}
