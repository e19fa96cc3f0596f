// The copy-on-write ordered map of the server (server/internal/Map.go): a list of unique
// keys, a position index and a value map, with a read-only snapshot published after
// every change. Pairs is the plain sequence of key/value pairs it refines.
module OrderedMap {
  import opened Wrappers

  // ---------- the specification: a sequence of pairs with unique keys ----------

  ghost predicate Unique<K, V>(ps: seq<(K, V)>) {
    forall i, j :: 0 <= i < j < |ps| ==> ps[i].0 != ps[j].0
  }

  function KeysOf<K, V>(ps: seq<(K, V)>): (ks: seq<K>)
    ensures |ks| == |ps|
    ensures forall i :: 0 <= i < |ps| ==> ks[i] == ps[i].0
  {
    seq(|ps|, i requires 0 <= i < |ps| => ps[i].0)
  }

  /** The position of a key, or the length when it is absent. */
  function PositionOf<K(==), V>(ps: seq<(K, V)>, key: K): (i: nat)
    ensures i <= |ps|
    ensures i < |ps| ==> ps[i].0 == key
    ensures forall j :: 0 <= j < i ==> ps[j].0 != key
  {
    if ps == [] then 0
    else if ps[0].0 == key then 0
    else
      var r := PositionOf(ps[1..], key);
      assert forall j :: 1 <= j < 1 + r ==> ps[j] == ps[1..][j - 1];
      1 + r
  }

  function Lookup<K(==), V>(ps: seq<(K, V)>, key: K): Option<V> {
    var i := PositionOf(ps, key);
    if i < |ps| then Some(ps[i].1) else None
  }

  /** A new key goes last; a known one keeps its place and changes value if replaced. */
  function StorePair<K(==), V>(ps: seq<(K, V)>, key: K, value: V, replace: V -> bool): seq<(K, V)> {
    var i := PositionOf(ps, key);
    if i == |ps| then ps + [(key, value)]
    else if replace(ps[i].1) then ps[i := (key, value)]
    else ps
  }

  function DeletePair<K(==), V>(ps: seq<(K, V)>, key: K): seq<(K, V)> {
    var i := PositionOf(ps, key);
    if i == |ps| then ps else ps[..i] + ps[i + 1..]
  }

  lemma PositionUnique<K, V>(ps: seq<(K, V)>, i: nat)
    requires Unique(ps) && i < |ps|
    ensures PositionOf(ps, ps[i].0) == i
  {
    var j := PositionOf(ps, ps[i].0);
    assert j <= i;
  }

  /** Storing keeps keys unique, finds the value again, and leaves every other key alone. */
  lemma StoreLaws<K, V>(ps: seq<(K, V)>, key: K, value: V, replace: V -> bool, other: K)
    requires Unique(ps)
    ensures var qs := StorePair(ps, key, value, replace);
      && Unique(qs)
      && Lookup(qs, key) ==
         (if Lookup(ps, key).Some? && !replace(Lookup(ps, key).value) then Lookup(ps, key) else Some(value))
      && (other != key ==> Lookup(qs, other) == Lookup(ps, other))
      && KeysOf(qs) == if Lookup(ps, key).Some? then KeysOf(ps) else KeysOf(ps) + [key]
  {
    var qs := StorePair(ps, key, value, replace);
    var i := PositionOf(ps, key);
    assert Unique(qs);
    PositionUnique(qs, i);
    if other != key {
      var j := PositionOf(ps, other);
      if j < |ps| {
        assert qs[j] == ps[j];
        PositionUnique(qs, j);
      } else {
        assert forall k :: 0 <= k < |qs| ==> qs[k].0 != other;
      }
    }
  }

  /** The other keys, in the same order. */
  function Without<K(==)>(keys: seq<K>, key: K): seq<K> {
    if keys == [] then []
    else if keys[0] == key then Without(keys[1..], key)
    else [keys[0]] + Without(keys[1..], key)
  }

  lemma {:induction false} WithoutAbsent<K>(keys: seq<K>, key: K)
    requires key !in keys
    ensures Without(keys, key) == keys
  {
    if keys != [] {
      WithoutAbsent(keys[1..], key);
    }
  }

  lemma {:induction false} WithoutAt<K>(keys: seq<K>, i: nat)
    requires i < |keys| && keys[i] !in keys[..i] && keys[i] !in keys[i + 1..]
    ensures Without(keys, keys[i]) == keys[..i] + keys[i + 1..]
  {
    if i == 0 {
      WithoutAbsent(keys[1..], keys[0]);
    } else {
      var rest := keys[1..];
      assert keys[..i] == [keys[0]] + rest[..i - 1] && keys[i + 1..] == rest[i..];
      WithoutAt(rest, i - 1);
    }
  }

  lemma KeysAfterDelete<K, V>(ps: seq<(K, V)>, key: K)
    requires Unique(ps)
    ensures KeysOf(DeletePair(ps, key)) == Without(KeysOf(ps), key)
  {
    var ks, i := KeysOf(ps), PositionOf(ps, key);
    if i == |ps| {
      assert key !in ks;
      WithoutAbsent(ks, key);
    } else {
      WithoutAt(ks, i);
    }
  }

  /** Deleting keeps keys unique and the others in their order, and forgets only the key. */
  lemma DeleteLaws<K, V>(ps: seq<(K, V)>, key: K, other: K)
    requires Unique(ps)
    ensures var qs := DeletePair(ps, key);
      && Unique(qs)
      && Lookup(qs, key) == None
      && (other != key ==> Lookup(qs, other) == Lookup(ps, other))
      && KeysOf(qs) == Without(KeysOf(ps), key)
  {
    KeysAfterDelete(ps, key);
    hide Without, KeysOf;
    var qs := DeletePair(ps, key);
    var i := PositionOf(ps, key);
    assert forall k :: 0 <= k < |qs| ==> qs[k] == if k < i then ps[k] else ps[k + 1];
    assert Unique(qs);
    assert forall k :: 0 <= k < |qs| ==> qs[k].0 != key;
    if other != key {
      var j := PositionOf(ps, other);
      if j < |ps| {
        PositionUnique(qs, if j < i then j else j - 1);
      } else {
        assert forall k :: 0 <= k < |qs| ==> qs[k].0 != other;
      }
    }
  }

  /** A stored new key can be taken out again without a trace; a known one moves to the end. */
  lemma StoreDelete<K, V>(ps: seq<(K, V)>, key: K, value: V, replace: V -> bool)
    requires Unique(ps)
    ensures Lookup(ps, key) == None ==> DeletePair(StorePair(ps, key, value, replace), key) == ps
    ensures StorePair(DeletePair(ps, key), key, value, replace) == DeletePair(ps, key) + [(key, value)]
  {
    DeleteLaws(ps, key, key);
    if Lookup(ps, key) == None {
      var qs := ps + [(key, value)];
      assert Unique(qs);
      PositionUnique(qs, |ps|);
      assert qs[..|ps|] + qs[|ps| + 1..] == ps;
    }
  }

  // ---------- the representation ----------

  ghost predicate WellFormed<K, V>(keys: seq<K>, internal: map<K, V>) {
    && (forall i, j :: 0 <= i < j < |keys| ==> keys[i] != keys[j])
    && (forall i :: 0 <= i < |keys| ==> keys[i] in internal)
    && (forall k :: k in internal ==> k in keys)
  }

  ghost predicate Indexes<K>(keys: seq<K>, keyMap: map<K, int>) {
    && (forall i :: 0 <= i < |keys| ==> keys[i] in keyMap && keyMap[keys[i]] == i)
    && (forall k :: k in keyMap ==> k in keys)
  }

  function PairsOf<K(==), V>(keys: seq<K>, internal: map<K, V>): (ps: seq<(K, V)>)
    requires forall i :: 0 <= i < |keys| ==> keys[i] in internal
    ensures |ps| == |keys|
  {
    seq(|keys|, i requires 0 <= i < |keys| => (keys[i], internal[keys[i]]))
  }

  lemma PairsPosition<K, V>(keys: seq<K>, internal: map<K, V>, key: K)
    requires WellFormed(keys, internal)
    ensures var ps := PairsOf(keys, internal);
      && Unique(ps)
      && (PositionOf(ps, key) < |ps| <==> key in internal)
      && (key in internal ==> Lookup(ps, key) == Some(internal[key]))
  {
    var ps := PairsOf(keys, internal);
    if key in internal {
      var i :| 0 <= i < |keys| && keys[i] == key;
      PositionUnique(ps, i);
    }
  }

  lemma PairsStore<K, V>(keys: seq<K>, internal: map<K, V>, key: K, value: V)
    requires WellFormed(keys, internal)
    ensures var all := (_: V) => true;
      key in internal ==>
        && WellFormed(keys, internal[key := value])
        && PairsOf(keys, internal[key := value]) == StorePair(PairsOf(keys, internal), key, value, all)
    ensures var all := (_: V) => true;
      key !in internal ==>
        && WellFormed(keys + [key], internal[key := value])
        && PairsOf(keys + [key], internal[key := value]) == StorePair(PairsOf(keys, internal), key, value, all)
  {
    PairsPosition(keys, internal, key);
    if key !in internal {
      assert forall k :: k in keys ==> k in keys + [key];
      assert key in keys + [key];
    }
  }

  lemma RestWellFormed<K, V>(keys: seq<K>, internal: map<K, V>, index: nat)
    requires WellFormed(keys, internal) && index < |keys|
    ensures WellFormed(keys[..index] + keys[index + 1..], internal - {keys[index]})
  {
    var rest := keys[..index] + keys[index + 1..];
    forall k | k in internal && k != keys[index] ensures k in rest {
      var i :| 0 <= i < |keys| && keys[i] == k;
      assert rest[if i < index then i else i - 1] == k;
    }
  }

  /** Removing the key at its indexed position, and its value, deletes its pair. */
  lemma PairsDelete<K, V>(keys: seq<K>, internal: map<K, V>, index: nat)
    requires WellFormed(keys, internal) && index < |keys|
    ensures var rest := keys[..index] + keys[index + 1..];
      && WellFormed(rest, internal - {keys[index]})
      && PairsOf(rest, internal - {keys[index]}) == DeletePair(PairsOf(keys, internal), keys[index])
  {
    RestWellFormed(keys, internal, index);
    PairsPosition(keys, internal, keys[index]);
    PositionUnique(PairsOf(keys, internal), index);
  }

  /** The index of a stored key leads to it. */
  lemma IndexOfKey<K, V>(keys: seq<K>, internal: map<K, V>, keyMap: map<K, int>, key: K)
    requires WellFormed(keys, internal) && Indexes(keys, keyMap) && key in internal
    ensures key in keyMap && 0 <= keyMap[key] < |keys| && keys[keyMap[key]] == key
  {
    var i :| 0 <= i < |keys| && keys[i] == key;
  }

  lemma Removed<K>(keys: seq<K>, index: nat) returns (rest: seq<K>)
    requires index < |keys|
    ensures rest == keys[..index] + keys[index + 1..] && |rest| == |keys| - 1
    ensures forall i :: 0 <= i < |rest| ==> rest[i] == keys[if i < index then i else i + 1]
  {
    rest := keys[..index] + keys[index + 1..];
  }

  /** With one key gone and every index behind it moved down, the indexes are right again. */
  lemma ShiftedIndexes<K, V>(keys: seq<K>, internal: map<K, V>, keyMap: map<K, int>, index: nat, shifted: map<K, int>)
    requires WellFormed(keys, internal) && Indexes(keys, keyMap) && index < |keys|
    requires shifted.Keys == keyMap.Keys - {keys[index]}
    requires forall k :: k in shifted ==> shifted[k] == if keyMap[k] > index then keyMap[k] - 1 else keyMap[k]
    ensures Indexes(keys[..index] + keys[index + 1..], shifted)
  {
    var rest := Removed(keys, index);
    forall i | 0 <= i < |rest| ensures rest[i] in shifted && shifted[rest[i]] == i {
      var j := if i < index then i else i + 1;
      assert keys[j] in keyMap && keyMap[keys[j]] == j;
    }
    forall k | k in shifted ensures k in rest {
      var j :| 0 <= j < |keys| && keys[j] == k;
      assert rest[if j < index then j else j - 1] == k;
    }
  }

  /** The private state, or a published copy of it (baseSafeOrderedMapData). */
  class OrderedData<K(==), V> {
    var internal: map<K, V>
    var keys: seq<K>

    constructor (internal: map<K, V>, keys: seq<K>)
      ensures this.internal == internal && this.keys == keys
    {
      this.internal, this.keys := internal, keys;
    }

    ghost predicate Valid()
      reads this
    {
      WellFormed(keys, internal)
    }

    ghost function Pairs(): seq<(K, V)>
      requires Valid()
      reads this
    {
      PairsOf(keys, internal)
    }

    /** Walks the keys in order, as the iterator functions do. */
    method Iterate() returns (visited: seq<(K, V)>)
      requires Valid()
      ensures visited == Pairs()
    {
      visited := [];
      for i := 0 to |keys|
        invariant visited == Pairs()[..i]
      {
        visited := visited + [(keys[i], internal[keys[i]])];
      }
    }
  }

  class SafeOrderedMap<K(==), V> {
    const data: OrderedData<K, V>
    var keyMap: map<K, int>
    var ro: OrderedData<K, V>

    ghost predicate Valid()
      reads this, data, ro
    {
      && data != ro
      && data.Valid()
      && Indexes(data.keys, keyMap)
      && ro.internal == data.internal && ro.keys == data.keys
    }

    /** The pairs in key order: what readers and writers agree the map holds. */
    ghost function Pairs(): seq<(K, V)>
      requires Valid()
      reads this, data, ro
    {
      data.Pairs()
    }

    constructor ()
      ensures Valid() && fresh(data) && fresh(ro)
      ensures Pairs() == []
    {
      data := new OrderedData(map[], []);
      ro := new OrderedData(map[], []);
      keyMap := map[];
    }

    method UpdateReadOnly()
      requires data.Valid() && Indexes(data.keys, keyMap)
      modifies this`ro
      ensures Valid() && fresh(ro)
      ensures Pairs() == PairsOf(data.keys, data.internal)
    {
      ro := new OrderedData(data.internal, data.keys);
    }

    /** Readers see only the published copy. */
    method Load(key: K) returns (value: Option<V>)
      requires Valid()
      ensures value == Lookup(Pairs(), key)
    {
      PairsPosition(data.keys, data.internal, key);
      value := if key in ro.internal then Some(ro.internal[key]) else None;
    }

    method Len() returns (n: nat)
      requires Valid()
      ensures n == |Pairs()|
    {
      n := |ro.keys|;
    }

    method First() returns (first: Option<(K, V)>)
      requires Valid()
      ensures first == if Pairs() == [] then None else Some(Pairs()[0])
    {
      if |ro.keys| == 0 {
        return None;
      }
      first := Some((ro.keys[0], ro.internal[ro.keys[0]]));
    }

    /** The iterator holds the copy published when it was taken. */
    method Iter() returns (length: nat, snapshot: OrderedData<K, V>)
      requires Valid()
      ensures snapshot == ro && snapshot.Valid() && snapshot.Pairs() == Pairs()
      ensures length == |Pairs()|
    {
      length, snapshot := |ro.keys|, ro;
    }

    method Store(key: K, value: V, replace: V -> bool) returns (stored: bool, storedValue: V)
      requires Valid()
      modifies this, data
      ensures Valid() && (ro == old(ro) || fresh(ro))
      ensures Pairs() == StorePair(old(Pairs()), key, value, replace)
      ensures stored <==> Lookup(old(Pairs()), key).Some?
      ensures Some(storedValue) == Lookup(Pairs(), key)
    {
      PairsPosition(data.keys, data.internal, key);
      PairsStore(data.keys, data.internal, key, value);
      stored := key in data.internal;
      if !stored {
        storedValue := value;
        keyMap := keyMap[key := |data.keys|];
        data.keys := data.keys + [key];
        data.internal := data.internal[key := value];
        UpdateReadOnly();
      } else {
        storedValue := data.internal[key];
        if replace(storedValue) {
          storedValue := value;
          data.internal := data.internal[key := value];
          UpdateReadOnly();
        }
      }
      PairsPosition(data.keys, data.internal, key);
    }

    /** Every index behind a removed one moves down. */
    method ShiftIndexes(index: int)
      modifies this`keyMap
      ensures keyMap.Keys == old(keyMap.Keys)
      ensures forall k :: k in keyMap ==>
        keyMap[k] == if old(keyMap[k]) > index then old(keyMap[k]) - 1 else old(keyMap[k])
    {
      ghost var before := keyMap;
      var rest := keyMap.Keys;
      while rest != {}
        invariant keyMap.Keys == before.Keys && rest <= before.Keys
        invariant forall k :: k in rest ==> keyMap[k] == before[k]
        invariant forall k :: k in before && k !in rest ==>
          keyMap[k] == if before[k] > index then before[k] - 1 else before[k]
      {
        var k :| k in rest;
        if keyMap[k] > index {
          keyMap := keyMap[k := keyMap[k] - 1];
        }
        rest := rest - {k};
      }
    }

    method Delete(key: K) returns (existed: bool)
      requires Valid()
      modifies this, data
      ensures Valid() && (ro == old(ro) || fresh(ro))
      ensures Pairs() == DeletePair(old(Pairs()), key)
      ensures existed <==> Lookup(old(Pairs()), key).Some?
    {
      PairsPosition(data.keys, data.internal, key);
      existed := key in data.internal;
      if existed {
        IndexOfKey(data.keys, data.internal, keyMap, key);
        ghost var keys, internal, before := data.keys, data.internal, keyMap;
        var index := keyMap[key];
        PairsDelete(keys, internal, index);
        hide Indexes, WellFormed, PairsOf, DeletePair, PositionOf, Unique;
        keyMap := keyMap - {key};
        data.keys := data.keys[..index] + data.keys[index + 1..];
        data.internal := data.internal - {key};
        ShiftIndexes(index);
        ShiftedIndexes(keys, internal, before, index, keyMap);
        UpdateReadOnly();
      }
    }

    /** The callback sees the map as it was, under the same lock as the store. */
    method IterAndStore(key: K, value: V, replace: V -> bool)
      returns (length: nat, visited: seq<(K, V)>, stored: bool, storedValue: V)
      requires Valid()
      modifies this, data
      ensures Valid() && (ro == old(ro) || fresh(ro))
      ensures visited == old(Pairs()) && length == |visited|
      ensures Pairs() == StorePair(old(Pairs()), key, value, replace)
      ensures stored <==> Lookup(old(Pairs()), key).Some?
      ensures Some(storedValue) == Lookup(Pairs(), key)
    {
      length := |data.keys|;
      visited := data.Iterate();
      stored, storedValue := Store(key, value, replace);
    }
  }

  datatype Write<K, V> = Storing(key: K, value: V) | Deleting(key: K)

  /** An iterator taken before any run of writes still yields the pairs of that moment. */
  method IteratorUnmoved<K(==), V>(m: SafeOrderedMap<K, V>, writes: seq<Write<K, V>>, replace: V -> bool)
    returns (visited: seq<(K, V)>)
    requires m.Valid()
    modifies m, m.data
    ensures m.Valid() && visited == old(m.Pairs())
  {
    var _, snapshot := m.Iter();
    for i := 0 to |writes|
      invariant m.Valid() && m.data != snapshot
      invariant m.ro == old(m.ro) || fresh(m.ro)
      invariant snapshot.Valid() && snapshot.Pairs() == old(m.Pairs())
    {
      match writes[i]
      case Storing(key, value) => var _, _ := m.Store(key, value, replace);
      case Deleting(key) => var _ := m.Delete(key);
    }
    visited := snapshot.Iterate();
  }
}
