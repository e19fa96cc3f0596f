// The persistent key/value store (server/internal/models/persistentJsonData.go): typed
// live data, a raw cache and a file, changed by sections that hold one key's lock each.
// Sections on different keys interleave at their cache stores and file writes.
module PersistentStore {
  import opened Wrappers

  type Key = string
  type Bytes = string

  /** The live data of a key. */
  type Value(==, !new)

  const UINT32 := 0x1_0000_0000

  type Version = v: nat | v < UINT32

  datatype Versioned<T> = Versioned(version: Version, data: T)

  type RawMap = map<Key, Versioned<Bytes>>

  /** JSON, as two pairs of inverse functions: one for a value, one for the whole file. */
  datatype Codec = Codec(
    marshal: Value -> Bytes,
    unmarshal: Bytes -> Option<Value>,
    encode: Versioned<RawMap> -> Bytes,
    decode: Bytes -> Option<Versioned<RawMap>>)
  {
    ghost predicate Valid() {
      && (forall v :: unmarshal(marshal(v)) == Some(v))
      && (forall f :: decode(encode(f)) == Some(f))
    }

    /** The raw entry holds this value. */
    predicate Holds(raw: RawMap, key: Key, value: Versioned<Value>) {
      key in raw && raw[key].version == value.version && unmarshal(raw[key].data) == Some(value.data)
    }
  }

  /** Where the holder of a key's lock is: before its cache store, or between it and the file write. */
  datatype Stage = Holding(dirty: bool) | Saving

  /**
   * live, cache and file as in the source, and the lock holders. History kept for the
   * properties: stray keys were changed by a callback that then failed; unsynced says the
   * file was left by a failed write or an upgrade; returned has, for each key, the value
   * of the last section that returned without error.
   */
  datatype Store = Store(
    version: Version,
    file: Bytes,
    cache: RawMap,
    live: map<Key, Versioned<Value>>,
    busy: map<Key, Stage>,
    stray: set<Key>,
    unsynced: bool,
    returned: map<Key, Versioned<Value>>)

  /**
   * How older data is upgraded: the whole file is read as the object of its version, and
   * each step leads to the next version. For a key, too, it is the whole file that is read.
   */
  datatype Upgrader<!T> = Upgrader(read: (Version, Bytes) -> Option<T>, step: (nat, T) -> T)

  /** The value after n single-version upgrades starting at a version. */
  function Upgraded<T>(step: (nat, T) -> T, version: nat, n: nat, x: T): T {
    if n == 0 then x else step(version + n - 1, Upgraded(step, version, n - 1, x))
  }

  function UpgradedFrom<T>(u: Upgrader<T>, file: Bytes, version: Version, current: Version): Option<T>
    requires version <= current
  {
    match u.read(version, file)
    case None => None
    case Some(x) => Some(Upgraded(u.step, version, current - version, x))
  }

  datatype Event =
    | Lock(key: Key)
    | Mutate(key: Key, value: Value)
    | Abort(key: Key)
    | Commit(key: Key)
    | SetKey(key: Key, default: Value, current: Version, upgrader: Upgrader<Value>)
    | WriteFile(key: Key, failure: Option<Bytes>)
    | Reopen(current: Version, rawUpgrader: Upgrader<RawMap>)

  datatype SetOutcome = Refused | Loaded(value: Value) | Created(value: Value)

  /** psmjSet up to its first store: which value the key starts with, and whether it is new. */
  function InitialValue(c: Codec, s: Store, key: Key, default: Value, current: Version, u: Upgrader<Value>)
    : SetOutcome
  {
    if key !in s.cache then Created(default)
    else if s.cache[key].version > current then Refused
    else if s.cache[key].version < current then
      match UpgradedFrom(u, s.file, s.cache[key].version, current)
      case None => Refused
      case Some(v) => Created(v)
    else
      match c.unmarshal(s.cache[key].data)
      case None => Refused
      case Some(v) => Loaded(v)
  }

  function Release(s: Store, key: Key): Store {
    s.(busy := s.busy - {key})
  }

  function PutCache(c: Codec, s: Store, key: Key, value: Versioned<Value>): Store {
    s.(cache := s.cache[key := Versioned(value.version, c.marshal(value.data))],
       live := s.live[key := value],
       stray := s.stray - {key},
       busy := s.busy[key := Saving])
  }

  /** One step; None when it is not enabled. */
  function Next(c: Codec, s: Store, e: Event): Option<Store> {
    match e
    case Lock(key) =>
      if key in s.busy then None else Some(s.(busy := s.busy[key := Holding(false)]))
    case Mutate(key, value) =>
      if key in s.busy && s.busy[key].Holding? && key in s.live
      then Some(s.(live := s.live[key := s.live[key].(data := value)], busy := s.busy[key := Holding(true)]))
      else None
    case Abort(key) =>
      if key in s.busy && s.busy[key].Holding?
      then Some(Release(s, key).(stray := if s.busy[key].dirty then s.stray + {key} else s.stray))
      else None
    case Commit(key) =>
      if key in s.busy && s.busy[key].Holding? && key in s.live
      then Some(PutCache(c, s, key, s.live[key]))
      else None
    case SetKey(key, default, current, u) =>
      if key !in s.busy || s.busy[key] != Holding(false) then None
      else if key in s.live then Some(Release(s, key))
      else
        (match InitialValue(c, s, key, default, current, u)
         case Refused => Some(Release(s, key))
         case Loaded(v) => Some(Release(s, key).(live := s.live[key := Versioned(current, v)], stray := s.stray - {key}))
         case Created(v) => Some(PutCache(c, s, key, Versioned(current, v))))
    case WriteFile(key, failure) =>
      if key !in s.busy || s.busy[key] != Saving || key !in s.live then None
      else
        (match failure
         case None =>
           Some(Release(s, key).(file := c.encode(Versioned(s.version, s.cache)), unsynced := false,
             returned := s.returned[key := s.live[key]]))
         case Some(garbage) =>
           Some(Release(s, key).(file := garbage, unsynced := true, returned := s.returned - {key})))
    case Reopen(current, u) =>
      if s.busy != map[] then None
      else
        match c.decode(s.file)
        case None => None
        case Some(f) =>
          var closed := s.(live := map[], stray := {}, version := current);
          if f.version > current then None
          else if f.version == current then
            Some(closed.(cache := f.data, unsynced := false, returned := if s.unsynced then map[] else s.returned))
          else
            match UpgradedFrom(u, s.file, f.version, current)
            case None => None
            case Some(raw) => Some(closed.(cache := raw, unsynced := true, returned := map[]))
  }

  /** A new store: no file existed, so an empty one is written. */
  function Empty(c: Codec, version: Version): Store {
    Store(version, c.encode(Versioned(version, map[])), map[], map[], map[], {}, false, map[])
  }

  ghost predicate Quiet(s: Store) {
    forall k :: k in s.busy ==> !s.busy[k].Saving?
  }

  /** While no section is between its cache store and its file write, the file is the cache. */
  ghost predicate FileInv(c: Codec, s: Store) {
    !s.unsynced && Quiet(s) ==> c.decode(s.file) == Some(Versioned(s.version, s.cache))
  }

  /** The raw entry of an open key holds its live value, outside a section that changed it. */
  ghost predicate LiveInv(c: Codec, s: Store) {
    forall k :: k in s.live && k !in s.stray && !(k in s.busy && s.busy[k] == Holding(true)) ==>
      c.Holds(s.cache, k, s.live[k])
  }

  /** The raw entry of a key holds what its last successful section returned with. */
  ghost predicate ReturnedInv(c: Codec, s: Store) {
    && (forall k :: k in s.busy && s.busy[k].Saving? ==> k in s.live && k !in s.stray)
    && (forall k :: k in s.returned && !(k in s.busy && s.busy[k].Saving?) ==> c.Holds(s.cache, k, s.returned[k]))
  }

  ghost predicate Inv(c: Codec, s: Store) {
    FileInv(c, s) && LiveInv(c, s) && ReturnedInv(c, s)
  }

  /** Every step of every interleaving keeps file, cache and live data in agreement. */
  lemma StepKeepsInv(c: Codec, s: Store, e: Event)
    requires c.Valid() && Inv(c, s) && Next(c, s, e).Some?
    ensures Inv(c, Next(c, s, e).value)
  {
    hide *;
    match e
    case WriteFile(key, failure) => WriteKeepsInv(c, s, key, failure);
    case Commit(key) => CommitKeepsInv(c, s, key);
    case SetKey(key, default, current, u) => SetKeepsInv(c, s, key, default, current, u);
    case Reopen(current, u) => ReopenKeepsInv(c, s, current, u);
    case _ => HoldingKeepsInv(c, s, e);
  }

  lemma CommitKeepsInv(c: Codec, s: Store, key: Key)
    requires c.Valid() && Inv(c, s) && Next(c, s, Commit(key)).Some?
    ensures Inv(c, Next(c, s, Commit(key)).value)
  {
    hide Inv, PutCache;
    PutCacheKeepsInv(c, s, key, s.live[key]);
  }

  lemma HoldingKeepsInv(c: Codec, s: Store, e: Event)
    requires Inv(c, s) && Next(c, s, e).Some? && (e.Lock? || e.Mutate? || e.Abort?)
    ensures Inv(c, Next(c, s, e).value)
  {
    hide Codec.Holds;
    SavingStays(s, Next(c, s, e).value);
  }

  lemma ReopenKeepsInv(c: Codec, s: Store, current: Version, u: Upgrader<RawMap>)
    requires Inv(c, s) && Next(c, s, Reopen(current, u)).Some?
    ensures Inv(c, Next(c, s, Reopen(current, u)).value)
  {
    hide Codec.Holds;
  }

  /** A step that saves nothing leaves the writers that are saving as they are. */
  lemma SavingStays(s: Store, t: Store)
    requires forall k :: k in s.busy && s.busy[k].Saving? ==> k in t.busy && t.busy[k].Saving?
    ensures Quiet(t) ==> Quiet(s)
  {
  }

  lemma ReleaseKeepsInv(c: Codec, s: Store, key: Key)
    requires Inv(c, s) && key in s.busy && s.busy[key] == Holding(false)
    ensures Inv(c, Release(s, key))
  {
    SavingStays(s, Release(s, key));
  }

  /** A key whose raw entry is read for the first time. */
  lemma LoadKeepsInv(c: Codec, s: Store, key: Key, value: Versioned<Value>)
    requires Inv(c, s) && c.Holds(s.cache, key, value) && key !in s.busy
    ensures Inv(c, s.(live := s.live[key := value], stray := s.stray - {key}))
  {
    hide Codec.Holds;
  }

  lemma SetKeepsInv(c: Codec, s: Store, key: Key, default: Value, current: Version, u: Upgrader<Value>)
    requires c.Valid() && Inv(c, s) && Next(c, s, SetKey(key, default, current, u)).Some?
    ensures Inv(c, Next(c, s, SetKey(key, default, current, u)).value)
  {
    hide Inv, Codec.Valid, PutCache;
    ReleaseKeepsInv(c, s, key);
    if key !in s.live {
      match InitialValue(c, s, key, default, current, u)
      case Refused =>
      case Created(v) => PutCacheKeepsInv(c, s, key, Versioned(current, v));
      case Loaded(v) => LoadKeepsInv(c, Release(s, key), key, Versioned(current, v));
    }
  }

  lemma PutCacheKeepsInv(c: Codec, s: Store, key: Key, value: Versioned<Value>)
    requires c.Valid() && Inv(c, s)
    ensures Inv(c, PutCache(c, s, key, value))
  {
    assert PutCache(c, s, key, value).busy[key].Saving?;
  }

  lemma WriteKeepsInv(c: Codec, s: Store, key: Key, failure: Option<Bytes>)
    requires c.Valid() && Inv(c, s) && Next(c, s, WriteFile(key, failure)).Some?
    ensures Inv(c, Next(c, s, WriteFile(key, failure)).value)
  {
  }

  function Run(c: Codec, s: Store, events: seq<Event>): Option<Store>
    decreases |events|
  {
    if events == [] then Some(s)
    else
      match Next(c, s, events[0])
      case None => None
      case Some(t) => Run(c, t, events[1..])
  }

  lemma RunThree(c: Codec, s: Store, a: Event, b: Event, d: Event)
    requires Next(c, s, a).Some? && Next(c, Next(c, s, a).value, b).Some?
    ensures Run(c, s, [a, b, d]) == Next(c, Next(c, Next(c, s, a).value, b).value, d)
  {
    var events := [a, b, d];
    assert events[1..] == [b, d] && events[1..][1..] == [d] && events[1..][1..][1..] == [];
    var t := Next(c, s, a).value;
    assert Run(c, s, events) == Run(c, t, [b, d]);
    var u, last := Next(c, t, b).value, [d];
    assert Run(c, t, [b, d]) == Run(c, u, last);
    assert last[1..] == [];
    assert Next(c, u, d).Some? ==> Run(c, Next(c, u, d).value, last[1..]) == Next(c, u, d);
  }

  lemma {:induction false} RunKeepsInv(c: Codec, s: Store, events: seq<Event>)
    requires c.Valid() && Inv(c, s) && Run(c, s, events).Some?
    ensures Inv(c, Run(c, s, events).value)
    decreases |events|
  {
    if events != [] {
      StepKeepsInv(c, s, events[0]);
      RunKeepsInv(c, Next(c, s, events[0]).value, events[1..]);
    }
  }

  /**
   * After any run of interleaved sections, failed callbacks, failed writes and reopenings:
   * with no section under way and the last file write successful, closing the store,
   * opening it at the same version and setting a key gives back the value of that key's
   * last successful section, and writes nothing.
   */
  lemma LastReturnedSurvives(c: Codec, version: Version, events: seq<Event>, key: Key, default: Value,
                             u: Upgrader<Value>, v: Upgrader<RawMap>)
    requires c.Valid() && Run(c, Empty(c, version), events).Some?
    requires var s := Run(c, Empty(c, version), events).value;
      s.busy == map[] && !s.unsynced && key in s.returned
    ensures var s := Run(c, Empty(c, version), events).value;
      var r := Run(c, s, [Reopen(s.version, v), Lock(key), SetKey(key, default, s.returned[key].version, u)]);
      && r.Some?
      && key in r.value.live && r.value.live[key] == s.returned[key]
      && r.value.cache == s.cache && r.value.file == s.file
  {
    var start := Empty(c, version);
    RunKeepsInv(c, start, events);
    var s := Run(c, start, events).value;
    var reopened := Next(c, s, Reopen(s.version, v)).value;
    var e := SetKey(key, default, s.returned[key].version, u);
    assert c.Holds(reopened.cache, key, s.returned[key]);
    var locked := Next(c, reopened, Lock(key)).value;
    assert Next(c, locked, e).Some?;
    RunThree(c, s, Reopen(s.version, v), Lock(key), e);
  }

  /** At the same moment the file and every open key agree, unless its last callback failed. */
  lemma QuietStoreAgrees(c: Codec, version: Version, events: seq<Event>, key: Key)
    requires c.Valid() && Run(c, Empty(c, version), events).Some?
    requires var s := Run(c, Empty(c, version), events).value; Quiet(s) && !s.unsynced
    ensures var s := Run(c, Empty(c, version), events).value;
      && c.decode(s.file) == Some(Versioned(s.version, s.cache))
      && (key in s.live && key !in s.busy && key !in s.stray ==> c.Holds(s.cache, key, s.live[key]))
  {
    RunKeepsInv(c, Empty(c, version), events);
  }

  /** A failed callback leaves live data the file does not have, exactly when it had changed it. */
  lemma FailedCallbackStrays(c: Codec, s: Store, key: Key, value: Value)
    requires c.Valid() && Inv(c, s)
    requires key in s.live && key !in s.stray && key !in s.busy
    ensures var r := Run(c, s, [Lock(key), Mutate(key, value), Abort(key)]);
      && r.Some? && key in r.value.live
      && (c.Holds(r.value.cache, key, r.value.live[key]) <==> value == s.live[key].data)
  {
    RunThree(c, s, Lock(key), Mutate(key, value), Abort(key));
    assert c.Holds(s.cache, key, s.live[key]);
  }

  // ---------- one section at a time, on the fields ----------

  /** The steps of psmjWithReadWrite: fn gives the changed data and whether it failed. */
  function SectionEvents(s: Store, key: Key, fn: Value -> (Value, bool), failure: Option<Bytes>): seq<Event> {
    if key !in s.live then [Lock(key), Abort(key)]
    else
      var (value, failed) := fn(s.live[key].data);
      [Lock(key), Mutate(key, value)] + (if failed then [Abort(key)] else [Commit(key), WriteFile(key, failure)])
  }

  /** The steps of psmjSet: a file write follows only when the key is new or upgraded. */
  function SetEvents(c: Codec, s: Store, key: Key, default: Value, current: Version, u: Upgrader<Value>,
                     failure: Option<Bytes>): seq<Event> {
    [Lock(key), SetKey(key, default, current, u)]
    + (if key !in s.live && InitialValue(c, s, key, default, current, u).Created?
       then [WriteFile(key, failure)] else [])
  }

  lemma {:induction false} RunAppend(c: Codec, s: Store, events: seq<Event>, e: Event)
    requires Run(c, s, events).Some?
    ensures Run(c, s, events + [e]) == Next(c, Run(c, s, events).value, e)
    decreases |events|
  {
    if events == [] {
      var all := events + [e];
      assert all[0] == e && all[1..] == [];
      assert Next(c, s, e).Some? ==> Run(c, Next(c, s, e).value, all[1..]) == Next(c, s, e);
    } else {
      RunAppend(c, Next(c, s, events[0]).value, events[1..], e);
      assert (events + [e])[1..] == events[1..] + [e];
    }
  }

  lemma RunTwo(c: Codec, s: Store, a: Event, b: Event)
    requires Next(c, s, a).Some?
    ensures Run(c, s, [a, b]) == Next(c, Next(c, s, a).value, b)
  {
    RunAppend(c, s, [], a);
    RunAppend(c, s, [a], b);
    assert [] + [a] == [a] && [a] + [b] == [a, b];
  }

  function Written(c: Codec, version: Version, raw: RawMap, failure: Option<Bytes>): Bytes {
    if failure.None? then c.encode(Versioned(version, raw)) else failure.value
  }

  /** The store after a section whose callback succeeded, before its file write. */
  function Committed(c: Codec, s: Store, key: Key, value: Value): Store
    requires key in s.live
  {
    var now := s.live[key].(data := value);
    PutCache(c, s.(live := s.live[key := now], busy := s.busy[key := Holding(true)]), key, now)
  }

  lemma SectionCommits(c: Codec, s: Store, key: Key, value: Value)
    requires s.busy == map[] && key in s.live
    ensures Run(c, s, [Lock(key), Mutate(key, value), Commit(key)]) == Some(Committed(c, s, key, value))
  {
    hide InitialValue, Run;
    RunThree(c, s, Lock(key), Mutate(key, value), Commit(key));
    var locked := Next(c, s, Lock(key)).value;
    var changed := Next(c, locked, Mutate(key, value)).value;
    assert changed.busy == s.busy[key := Holding(true)];
  }

  /** What a section on its own does to live data, cache and file. */
  lemma SectionRun(c: Codec, s: Store, key: Key, fn: Value -> (Value, bool), failure: Option<Bytes>)
    requires s.busy == map[]
    ensures var r := Run(c, s, SectionEvents(s, key, fn, failure));
      && r.Some? && r.value.busy == map[] && r.value.version == s.version
      && if key !in s.live then r.value.live == s.live && r.value.cache == s.cache && r.value.file == s.file
         else
           var (value, failed) := fn(s.live[key].data);
           var now := s.live[key].(data := value);
           && r.value.live == s.live[key := now]
           && if failed then r.value.cache == s.cache && r.value.file == s.file
              else
                && r.value.cache == s.cache[key := Versioned(now.version, c.marshal(value))]
                && r.value.file == Written(c, s.version, r.value.cache, failure)
                && (failure.None? ==> key in r.value.returned && r.value.returned[key] == now)
  {
    hide InitialValue, Run;
    if key !in s.live {
      RunTwo(c, s, Lock(key), Abort(key));
    } else {
      var (value, failed) := fn(s.live[key].data);
      var lock, mutate, commit := Lock(key), Mutate(key, value), Commit(key);
      if failed {
        RunThree(c, s, lock, mutate, Abort(key));
        assert [lock, mutate] + [Abort(key)] == [lock, mutate, Abort(key)];
      } else {
        SectionCommits(c, s, key, value);
        RunAppend(c, s, [lock, mutate, commit], WriteFile(key, failure));
        assert [lock, mutate] + [commit, WriteFile(key, failure)] == [lock, mutate, commit] + [WriteFile(key, failure)];
      }
    }
  }

  /** What setting a key on its own does. */
  lemma SetRun(c: Codec, s: Store, key: Key, default: Value, current: Version, u: Upgrader<Value>, failure: Option<Bytes>)
    requires s.busy == map[]
    ensures var r := Run(c, s, SetEvents(c, s, key, default, current, u, failure));
      var outcome := InitialValue(c, s, key, default, current, u);
      && r.Some? && r.value.busy == map[] && r.value.version == s.version
      && if key in s.live || outcome.Refused? then
           r.value.live == s.live && r.value.cache == s.cache && r.value.file == s.file
         else
           && r.value.live == s.live[key := Versioned(current, outcome.value)]
           && if outcome.Loaded? then r.value.cache == s.cache && r.value.file == s.file
              else
                && r.value.cache == s.cache[key := Versioned(current, c.marshal(outcome.value))]
                && r.value.file == Written(c, s.version, r.value.cache, failure)
  {
    var outcome := InitialValue(c, s, key, default, current, u);
    var lock, setKey := Lock(key), SetKey(key, default, current, u);
    var locked := s.(busy := s.busy[key := Holding(false)]);
    assert InitialValue(c, locked, key, default, current, u) == outcome;
    hide InitialValue;
    var events := SetEvents(c, s, key, default, current, u, failure);
    RunTwo(c, s, lock, setKey);
    if key !in s.live && outcome.Created? {
      RunThree(c, s, lock, setKey, WriteFile(key, failure));
      assert events == [lock, setKey, WriteFile(key, failure)];
    } else {
      assert events == [lock, setKey];
    }
  }

  /** The file's object of one version and what it becomes, one single-version step after another, up to another. */
  ghost predicate InOrder<T(!new)>(u: Upgrader<T>, file: Bytes, version: Version, current: Version, chain: seq<T>)
    requires version <= current
  {
    && |chain| == current - version + 1
    && u.read(version, file) == Some(chain[0])
    && forall i :: 0 <= i < current - version ==> chain[i + 1] == u.step(version + i, chain[i])
  }

  /** The value a key is set with: its default, its file's object upgraded step by step, or the one it has. */
  ghost predicate StartsWith(c: Codec, raw: RawMap, file: Bytes, key: Key, default: Value, current: Version,
                             u: Upgrader<Value>, value: Value) {
    if key !in raw then value == default
    else if raw[key].version > current then false
    else if raw[key].version == current then c.unmarshal(raw[key].data) == Some(value)
    else exists chain :: InOrder(u, file, raw[key].version, current, chain) && value == chain[|chain| - 1]
  }

  /** A key that is there at a newer version, or cannot be read. */
  predicate Unreadable(c: Codec, raw: RawMap, file: Bytes, key: Key, current: Version, u: Upgrader<Value>) {
    key in raw &&
    if raw[key].version == current then c.unmarshal(raw[key].data).None?
    else raw[key].version > current || u.read(raw[key].version, file).None?
  }

  /** Setting a key stores its value anew when it is missing or older. */
  predicate StoresAnew(raw: RawMap, key: Key, current: Version) {
    key !in raw || raw[key].version < current
  }

  /** What setting a key leaves in live data, cache and file. */
  ghost predicate SetLeaves(c: Codec, s: Store, t: Store, key: Key, default: Value, current: Version, u: Upgrader<Value>,
                            failure: Option<Bytes>) {
    if key in s.live || Unreadable(c, s.cache, s.file, key, current, u) then
      t.live == s.live && t.cache == s.cache && t.file == s.file
    else
      && key in t.live && t.live == s.live[key := t.live[key]]
      && t.live[key].version == current && StartsWith(c, s.cache, s.file, key, default, current, u, t.live[key].data)
      && if !StoresAnew(s.cache, key, current) then t.cache == s.cache && t.file == s.file
         else
           && key in t.cache && t.cache == s.cache[key := t.cache[key]]
           && (failure.Some? ==> t.file == failure.value)
           && (c.Valid() ==> c.Holds(t.cache, key, t.live[key]))
           && (c.Valid() && failure.None? ==> c.decode(t.file) == Some(Versioned(s.version, t.cache)))
  }

  /** The objects on the way, in order. */
  function Chain<T>(u: Upgrader<T>, version: nat, n: nat, x: T): (chain: seq<T>)
    ensures |chain| == n + 1
  {
    if n == 0 then [x] else Chain(u, version, n - 1, x) + [Upgraded(u.step, version, n, x)]
  }

  lemma {:induction false} ChainSteps<T>(u: Upgrader<T>, version: nat, n: nat, x: T)
    ensures var chain := Chain(u, version, n, x);
      && chain[0] == x && chain[n] == Upgraded(u.step, version, n, x)
      && forall i :: 0 <= i < n ==> chain[i + 1] == u.step(version + i, chain[i])
  {
    if n > 0 {
      ChainSteps(u, version, n - 1, x);
    }
  }

  /** An upgrade reads the file and goes through every version in between, in order, or cannot read it. */
  lemma UpgradesInOrder<T(!new)>(u: Upgrader<T>, file: Bytes, version: Version, current: Version)
    requires version <= current
    ensures UpgradedFrom(u, file, version, current).None? <==> u.read(version, file).None?
    ensures match UpgradedFrom(u, file, version, current)
      case None => true
      case Some(x) => exists chain :: InOrder(u, file, version, current, chain) && x == chain[|chain| - 1]
  {
    if u.read(version, file).Some? {
      var x := u.read(version, file).value;
      ChainSteps(u, version, current - version, x);
      assert InOrder(u, file, version, current, Chain(u, version, current - version, x));
    }
  }

  lemma StartsRight(c: Codec, s: Store, key: Key, default: Value, current: Version, u: Upgrader<Value>)
    ensures var outcome := InitialValue(c, s, key, default, current, u);
      && (outcome.Refused? <==> Unreadable(c, s.cache, s.file, key, current, u))
      && (!outcome.Refused? ==> StartsWith(c, s.cache, s.file, key, default, current, u, outcome.value))
      && (!outcome.Refused? ==> (outcome.Created? <==> StoresAnew(s.cache, key, current)))
  {
    hide InOrder, UpgradedFrom;
    if key in s.cache && s.cache[key].version < current {
      UpgradesInOrder(u, s.file, s.cache[key].version, current);
    }
  }

  /**
   * Setting a key, on live data, cache and file: nothing changes for a key that is live, newer
   * or unreadable; otherwise it is live at the current version, with its default when it was
   * missing and its file's object after each step to the current version when it was older,
   * and then, unless the write fails, the file decodes to a map that holds it.
   */
  lemma SetLaws(c: Codec, s: Store, key: Key, default: Value, current: Version, u: Upgrader<Value>, failure: Option<Bytes>)
    requires s.busy == map[]
    ensures var r := Run(c, s, SetEvents(c, s, key, default, current, u, failure));
      r.Some? && SetLeaves(c, s, r.value, key, default, current, u, failure)
  {
    SetRun(c, s, key, default, current, u, failure);
    StartsRight(c, s, key, default, current, u);
    hide Run, SetEvents, InitialValue, StartsWith, Unreadable, StoresAnew;
  }

  /** PersistentStringJsonMap between sections, with its history in the step model. */
  class PersistentStringJsonMap {
    const codec: Codec
    const version: Version
    var file: Bytes
    var cachedRawData: RawMap
    var currentData: map<Key, Versioned<Value>>
    ghost var history: Store

    ghost predicate Valid()
      reads this
    {
      && history.version == version && history.file == file
      && history.cache == cachedRawData && history.live == currentData
      && history.busy == map[]
    }

    /** No file existed: an empty store is written. */
    constructor (codec: Codec, version: Version)
      ensures Valid() && this.codec == codec && history == Empty(codec, version)
      ensures currentData == map[] && cachedRawData == map[] && file == codec.encode(Versioned(version, map[]))
    {
      this.codec, this.version := codec, version;
      cachedRawData, currentData := map[], map[];
      file := codec.encode(Versioned(version, map[]));
      history := Empty(codec, version);
    }

    method WithReadWrite(key: Key, fn: Value -> (Value, bool), failure: Option<Bytes>) returns (err: bool)
      requires Valid()
      modifies this
      ensures Valid()
      ensures Run(codec, old(history), SectionEvents(old(history), key, fn, failure)) == Some(history)
      ensures err <==> key !in old(currentData) || fn(old(currentData)[key].data).1 || failure.Some?
      ensures !err ==> key in currentData && key in history.returned && history.returned[key] == currentData[key]
    {
      SectionRun(codec, history, key, fn, failure);
      history := Run(codec, history, SectionEvents(history, key, fn, failure)).value;
      hide *;
      if key !in currentData {
        return true;
      }
      var (value, failed) := fn(currentData[key].data);
      currentData := currentData[key := currentData[key].(data := value)];
      if failed {
        return true;
      }
      cachedRawData := cachedRawData[key := Versioned(currentData[key].version, codec.marshal(value))];
      file := WriteCache(failure);
      err := failure.Some?;
    }

    method Set(key: Key, default: Value, current: Version, u: Upgrader<Value>, failure: Option<Bytes>)
      returns (err: bool)
      requires Valid()
      modifies this
      ensures Valid()
      ensures Run(codec, old(history), SetEvents(codec, old(history), key, default, current, u, failure))
        == Some(history)
      ensures err <==>
        || key in old(currentData)
        || Unreadable(codec, old(cachedRawData), old(file), key, current, u)
        || (StoresAnew(old(cachedRawData), key, current) && failure.Some?)
      ensures SetLeaves(codec, old(history), history, key, default, current, u, failure)
    {
      var outcome := InitialData(key, default, current, u);
      assert outcome == InitialValue(codec, history, key, default, current, u);
      SetRun(codec, history, key, default, current, u, failure);
      SetLaws(codec, history, key, default, current, u, failure);
      StartsRight(codec, history, key, default, current, u);
      history := Run(codec, history, SetEvents(codec, history, key, default, current, u, failure)).value;
      hide *;
      if outcome.Refused? || key in currentData {
        return true;
      }
      currentData := currentData[key := Versioned(current, outcome.value)];
      if outcome.Created? {
        cachedRawData := cachedRawData[key := Versioned(current, codec.marshal(outcome.value))];
        file := WriteCache(failure);
        return failure.Some?;
      }
      err := false;
    }

    /** Writes the whole cache; a failure leaves other text in the file. */
    method WriteCache(failure: Option<Bytes>) returns (text: Bytes)
      ensures text == Written(codec, version, cachedRawData, failure)
    {
      text := if failure.None? then codec.encode(Versioned(version, cachedRawData)) else failure.value;
    }

    /** The branches of psmjSet that choose the first value of a key. */
    method InitialData(key: Key, default: Value, current: Version, u: Upgrader<Value>) returns (outcome: SetOutcome)
      ensures forall s: Store :: s.cache == cachedRawData && s.file == file ==>
        outcome == InitialValue(codec, s, key, default, current, u)
    {
      if key !in cachedRawData {
        return Created(default);
      }
      var currentVal := cachedRawData[key];
      if currentVal.version > current {
        return Refused;
      }
      var failed, upgraded, d := Upgrade(u, file, currentVal.version, current);
      if !failed && upgraded {
        return Created(d.value);
      } else if failed {
        return Refused;
      }
      var parsed := codec.unmarshal(currentVal.data);
      outcome := if parsed.None? then Refused else Loaded(parsed.value);
    }
  }

  /**
   * Opening an existing file: it opens exactly when it decodes, is not newer, and, if older, can
   * be read as its version's object. Then nothing is live, the file is as it was, and the cache is
   * the file's data, or its object after each step to the current version.
   */
  lemma ReopenLaws(c: Codec, s: Store, current: Version, u: Upgrader<RawMap>)
    requires s.busy == map[]
    ensures var r := Next(c, s, Reopen(current, u)); var f := c.decode(s.file);
      && (r.Some? <==>
          (f.Some? && f.value.version <= current && (f.value.version < current ==> u.read(f.value.version, s.file).Some?)))
      && (r.Some? ==>
          && r.value.live == map[] && r.value.file == s.file && r.value.version == current
          && if f.value.version == current then r.value.cache == f.value.data
             else exists chain :: InOrder(u, s.file, f.value.version, current, chain) && r.value.cache == chain[|chain| - 1])
  {
    hide InOrder, UpgradedFrom;
    var f := c.decode(s.file);
    if f.Some? && f.value.version < current {
      UpgradesInOrder(u, s.file, f.value.version, current);
    }
  }

  // ---------- upgrading ----------

  /** Upgrading in two stages, through any version between, is upgrading at once. */
  lemma {:induction false} UpgradedInStages<T>(step: (nat, T) -> T, version: nat, n: nat, m: nat, x: T)
    ensures Upgraded(step, version, n + m, x) == Upgraded(step, version + n, m, Upgraded(step, version, n, x))
  {
    if m > 0 {
      UpgradedInStages(step, version, n, m - 1, x);
    }
  }

  /** upgrade, with its uint32 count of versions; callers have ruled out a newer version. */
  method Upgrade<T>(u: Upgrader<T>, file: Bytes, version: Version, current: Version)
    returns (failed: bool, upgraded: bool, data: Option<T>)
    requires version <= current
    ensures version == current ==> !failed && !upgraded
    ensures version < current ==> data == UpgradedFrom(u, file, version, current) && upgraded == !failed == data.Some?
  {
    failed, upgraded, data := false, false, None;
    var versionsToUpgrade := (current - version) % UINT32;
    if versionsToUpgrade == 0 {
      return;
    }
    var read := u.read(version, file);
    if read.None? {
      failed := true;
      return;
    }
    var currentData := read.value;
    for versionsUpgraded := 0 to versionsToUpgrade
      invariant currentData == Upgraded(u.step, version, versionsUpgraded, read.value)
    {
      currentData := u.step(version + versionsUpgraded, currentData);
    }
    data, upgraded := Some(currentData), true;
  }
}
