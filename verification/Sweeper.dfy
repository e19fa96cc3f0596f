// Sessions that expire, and their sweeper (server/internal/models/baseSession.go).
// Times are in ticks of the clock. A sweep scans the store, re-arms its ticker, and then
// deletes the sessions it found expired one by one; requests run in between.
module Sweeper {
  import opened Wrappers

  type Id = string

  /** What a scan at some instant finds: the ids expired by then, and how long to wait. */
  ghost predicate IsScan(live: map<Id, int>, now: int, duration: int, expired: seq<Id>, wait: int) {
    && (forall id :: id in expired <==> id in live && live[id] < now)
    && (forall i, j :: 0 <= i < j < |expired| ==> expired[i] != expired[j])
    && (forall id :: id in live && live[id] >= now ==> wait <= live[id] - now)
    && (if exists id :: id in live && live[id] >= now
        then exists id :: id in live && live[id] - now == wait && wait >= 0
        else wait == duration)
  }

  /** The head of the sorted times. */
  method Earliest(times: seq<int>) returns (first: int)
    requires times != []
    ensures first in times && forall i :: 0 <= i < |times| ==> first <= times[i]
  {
    first := times[0];
    for i := 1 to |times|
      invariant first in times && forall j :: 0 <= j < i ==> first <= times[j]
    {
      if times[i] < first {
        first := times[i];
      }
    }
  }

  // ---------- runs ----------

  datatype Phase = NotStarted | Starting | Armed(at: int) | Crashed

  /**
   * now is the instant of the last event. doomed are the ids a scan found expired and has
   * not deleted yet; late are those that had already expired when the sweeper first
   * looked, which that look ignores. History: touched has, for each id created or renewed
   * since the last scan, the last instant that happened.
   */
  datatype State = State(now: int, live: map<Id, int>, phase: Phase, doomed: seq<Id>, late: set<Id>, touched: map<Id, int>)

  datatype Event =
    | Create(id: Id, at: int)
    | Renew(id: Id, at: int)
    | Logout(id: Id, at: int)
    | Arm(at: int, expired: seq<Id>, wait: int)
    | Tick(at: int, expired: seq<Id>, wait: int)
    | Remove(at: int)

  ghost predicate Enabled(duration: int, s: State, e: Event) {
    && e.at >= s.now
    && (match e
        case Create(id, _) => id !in s.live
        case Renew(id, _) => true
        case Logout(id, _) => true
        case Arm(at, expired, wait) => s.phase == Starting && IsScan(s.live, at, duration, expired, wait)
        case Tick(at, expired, wait) =>
          s.phase.Armed? && at >= s.phase.at && s.doomed == [] && IsScan(s.live, at, duration, expired, wait)
        case Remove(_) => s.doomed != [])
  }

  /** A ticker set to no time at all panics. */
  function Rearm(at: int, wait: int): Phase {
    if wait <= 0 then Crashed else Armed(at + wait)
  }

  function Apply(duration: int, s: State, e: Event): State {
    match e
    case Create(id, at) =>
      s.(now := at, live := s.live[id := at + duration], touched := s.touched[id := at],
         phase := if s.phase == NotStarted then Starting else s.phase)
    case Renew(id, at) =>
      if id in s.live then s.(now := at, live := s.live[id := at + duration], touched := s.touched[id := at])
      else s.(now := at)
    case Logout(id, at) => s.(now := at, live := s.live - {id})
    case Arm(at, expired, wait) =>
      s.(now := at, phase := Rearm(at, wait), late := (set id | id in expired), touched := map[])
    case Tick(at, expired, wait) =>
      s.(now := at, phase := Rearm(at, wait), doomed := if wait <= 0 then [] else expired, late := {}, touched := map[])
    case Remove(at) =>
      if s.doomed == [] then s else s.(now := at, live := s.live - {s.doomed[0]}, doomed := s.doomed[1..])
  }

  function Initial(now: int): State {
    State(now, map[], NotStarted, [], {}, map[])
  }

  /** Found expired by the last scan, and neither created anew nor renewed since. */
  predicate Stale(s: State, id: Id) {
    (id in s.doomed || id in s.late) && id !in s.touched
  }

  ghost predicate Inv(duration: int, s: State) {
    && duration > 0
    && (forall id :: id in s.live ==> s.live[id] <= s.now + duration)
    && (s.phase == NotStarted ==> s.live == map[])
    && (s.phase.Armed? ==> s.phase.at <= s.now + duration)
    && (s.phase.NotStarted? || s.phase.Starting? ==> s.doomed == [])
    && (forall id :: id in s.live && Stale(s, id) ==> s.live[id] < s.now)
    && (forall id :: id in s.live && id in s.touched ==> s.live[id] == s.touched[id] + duration)
    && (s.phase.Armed? ==> forall id :: id in s.live ==> (s.phase.at <= s.live[id] <==> !Stale(s, id)))
  }

  lemma StepKeepsInv(duration: int, s: State, e: Event)
    requires Inv(duration, s) && Enabled(duration, s, e)
    ensures Inv(duration, Apply(duration, s, e))
  {
    if e.Remove? {
      assert forall id :: id in s.doomed ==> id == s.doomed[0] || id in s.doomed[1..];
    }
  }

  ghost predicate IsRun(duration: int, s: State, events: seq<Event>)
    decreases |events|
  {
    events == [] ||
    (Enabled(duration, s, events[0]) && IsRun(duration, Apply(duration, s, events[0]), events[1..]))
  }

  function Final(duration: int, s: State, events: seq<Event>): State
    decreases |events|
  {
    if events == [] then s else Final(duration, Apply(duration, s, events[0]), events[1..])
  }

  lemma {:induction false} RunKeepsInv(duration: int, s: State, events: seq<Event>)
    requires Inv(duration, s) && IsRun(duration, s, events)
    ensures Inv(duration, Final(duration, s, events))
    decreases |events|
  {
    if events != [] {
      StepKeepsInv(duration, s, events[0]);
      RunKeepsInv(duration, Apply(duration, s, events[0]), events[1..]);
    }
  }

  /**
   * In every run, with scans and deletions interleaved with requests in any way: the armed
   * tick is no later than the expiry of a live session, exactly when the last scan had not
   * found that session expired or it was created or renewed since.
   */
  lemma TickBeforeExpiry(duration: int, start: int, events: seq<Event>, id: Id)
    requires duration > 0 && IsRun(duration, Initial(start), events)
    ensures var s := Final(duration, Initial(start), events);
      s.phase.Armed? && id in s.live ==> (s.phase.at <= s.live[id] <==> !Stale(s, id))
  {
    RunKeepsInv(duration, Initial(start), events);
  }

  /**
   * In every run, a deletion that comes next takes a session that has not expired exactly
   * when that session was created or renewed since the scan, less than a duration ago.
   */
  lemma RemovesUnexpired(duration: int, start: int, events: seq<Event>, at: int)
    requires duration > 0 && IsRun(duration, Initial(start), events)
    requires Enabled(duration, Final(duration, Initial(start), events), Remove(at))
    ensures var s := Final(duration, Initial(start), events); var id := s.doomed[0];
      && Apply(duration, s, Remove(at)).live == s.live - {id}
      && (id in s.live ==> (s.live[id] >= at <==> id in s.touched && at <= s.touched[id] + duration))
  {
    RunKeepsInv(duration, Initial(start), events);
  }

  /** Deletes all the doomed sessions, nothing in between. */
  function RemoveAll(duration: int, s: State, at: int): State
    decreases |s.doomed|
  {
    if s.doomed == [] then s else RemoveAll(duration, Apply(duration, s, Remove(at)), at)
  }

  lemma {:induction false} RemoveAllDoomed(duration: int, s: State, at: int)
    ensures RemoveAll(duration, s, at).live == s.live - (set id | id in s.doomed)
    ensures RemoveAll(duration, s, at).phase == s.phase && RemoveAll(duration, s, at).doomed == []
    decreases |s.doomed|
  {
    if s.doomed != [] {
      RemoveAllDoomed(duration, Apply(duration, s, Remove(at)), at);
      assert (set id | id in s.doomed) == {s.doomed[0]} + set id | id in s.doomed[1..];
    }
  }

  /**
   * One sweep with nothing in between removes exactly the sessions expired at that
   * instant, and the next tick is the earliest of the remaining expiries, or a full
   * duration away; it panics exactly when a session expires at that very instant.
   */
  lemma AtomicSweep(duration: int, s: State, at: int, expired: seq<Id>, wait: int)
    requires duration > 0 && Enabled(duration, s, Tick(at, expired, wait))
    ensures var t := RemoveAll(duration, Apply(duration, s, Tick(at, expired, wait)), at);
      && (t.phase == Crashed <==> exists id :: id in s.live && s.live[id] == at)
      && (t.phase != Crashed ==>
          && t.live == (map id | id in s.live && s.live[id] >= at :: s.live[id])
          && t.phase.Armed?
          && (forall id :: id in t.live ==> t.phase.at <= t.live[id])
          && (if t.live == map[] then t.phase.at == at + duration
              else exists id :: id in t.live && t.live[id] == t.phase.at))
  {
    var u := Apply(duration, s, Tick(at, expired, wait));
    RemoveAllDoomed(duration, u, at);
    var t := RemoveAll(duration, u, at);
    if exists id :: id in s.live && s.live[id] >= at {
      var next :| next in s.live && s.live[next] - at == wait && wait >= 0;
      if t.phase != Crashed {
        assert next in t.live && t.live[next] == t.phase.at;
      }
    }
  }

  /** A scan's findings, before any is deleted, and a request that renews one of them. */
  lemma RenewedSessionSwept(duration: int, s: State, id: Id, at: int)
    requires Inv(duration, s) && s.doomed != [] && s.doomed[0] == id && id in s.live && at >= s.now
    ensures var t := Apply(duration, s, Renew(id, at));
      && id in t.live && t.live[id] == at + duration
      && Enabled(duration, t, Remove(at)) && id !in Apply(duration, t, Remove(at)).live
  {
  }

  // ---------- the store ----------

  /** The session store; an id maps to the instant its session expires. */
  class BaseSessions {
    const duration: int
    var store: map<Id, int>
    var sweeperTaskStarted: bool
    ghost var state: State

    ghost predicate Valid()
      reads this
    {
      Inv(duration, state) && state.live == store && (sweeperTaskStarted <==> state.phase != NotStarted)
    }

    constructor (duration: int, ghost now: int)
      requires duration > 0
      ensures Valid() && this.duration == duration && state == Initial(now)
    {
      this.duration, store, sweeperTaskStarted := duration, map[], false;
      state := Initial(now);
    }

    /** idGen stands for the id generator; the first id not in use is taken. */
    method CreateSession(ids: seq<Id>, now: int) returns (id: Option<Id>)
      requires Valid() && now >= state.now
      modifies this`store, this`sweeperTaskStarted, this`state
      ensures Valid()
      ensures id.Some? ==>
        && (exists i :: 0 <= i < |ids| && ids[i] == id.value && forall j :: 0 <= j < i ==> ids[j] in old(store))
        && Enabled(duration, old(state), Create(id.value, now))
        && state == Apply(duration, old(state), Create(id.value, now))
        && store == old(store)[id.value := now + duration]
      ensures id.None? ==> state == old(state) && forall i :: 0 <= i < |ids| ==> ids[i] in store
    {
      for i := 0 to |ids|
        invariant Valid() && store == old(store) && state == old(state)
        invariant forall j :: 0 <= j < i ==> ids[j] in store
      {
        if ids[i] !in store {
          StepKeepsInv(duration, state, Create(ids[i], now));
          hide Inv;
          state := Apply(duration, state, Create(ids[i], now));
          store := store[ids[i] := now + duration];
          sweeperTaskStarted := true;
          return Some(ids[i]);
        }
      }
      id := None;
    }

    method ResetExpiryTimer(id: Id, now: int)
      requires Valid() && now >= state.now
      modifies this`store, this`state
      ensures Valid() && state == Apply(duration, old(state), Renew(id, now))
      ensures store == if id in old(store) then old(store)[id := now + duration] else old(store)
    {
      StepKeepsInv(duration, state, Renew(id, now));
      hide Inv;
      state := Apply(duration, state, Renew(id, now));
      if id in store {
        store := store[id := now + duration];
      }
    }

    method Delete(id: Id, ghost now: int)
      requires Valid() && now >= state.now
      modifies this`store, this`state
      ensures Valid() && state == Apply(duration, old(state), Logout(id, now))
      ensures store == old(store) - {id}
    {
      StepKeepsInv(duration, state, Logout(id, now));
      hide Inv;
      state := Apply(duration, state, Logout(id, now));
      store := store - {id};
    }

    /** nextExpiration: one pass over the sessions, then the earliest of the times still to come. */
    method NextExpiration(now: int) returns (alreadyExpired: seq<Id>, nextExpiration: int)
      ensures IsScan(store, now, duration, alreadyExpired, nextExpiration)
    {
      alreadyExpired := [];
      var expirationTimes: seq<int> := [];
      var rest := store.Keys;
      while rest != {}
        invariant rest <= store.Keys
        invariant forall id :: id in alreadyExpired <==> id in store && id !in rest && store[id] < now
        invariant forall i, j :: 0 <= i < j < |alreadyExpired| ==> alreadyExpired[i] != alreadyExpired[j]
        invariant forall id :: id in store && id !in rest && store[id] >= now ==> store[id] in expirationTimes
        invariant forall t :: t in expirationTimes ==> exists id :: id in store && store[id] == t && t >= now
      {
        var id :| id in rest;
        rest := rest - {id};
        if store[id] < now {
          alreadyExpired := alreadyExpired + [id];
        } else {
          expirationTimes := expirationTimes + [store[id]];
        }
      }
      if |expirationTimes| > 0 {
        var first := Earliest(expirationTimes);
        assert exists id :: id in store && store[id] == first && first >= now;
        nextExpiration := first - now;
      } else {
        nextExpiration := duration;
      }
    }

    /** The sweeper's first look, which arms the ticker and deletes nothing. */
    method StartSweeper(now: int) returns (alreadyExpired: seq<Id>, wait: int)
      requires Valid() && state.phase == Starting && now >= state.now
      modifies this`state
      ensures Valid() && Enabled(duration, old(state), Arm(now, alreadyExpired, wait))
      ensures state == Apply(duration, old(state), Arm(now, alreadyExpired, wait))
    {
      alreadyExpired, wait := NextExpiration(now);
      hide IsScan;
      StepKeepsInv(duration, state, Arm(now, alreadyExpired, wait));
      hide Inv;
      state := Apply(duration, state, Arm(now, alreadyExpired, wait));
    }

    /** One turn of the sweeper's loop with no request in between; crashed is the ticker's panic. */
    method Sweep(now: int) returns (crashed: bool, alreadyExpired: seq<Id>, wait: int)
      requires Valid() && state.phase.Armed? && now >= state.phase.at && now >= state.now && state.doomed == []
      modifies this`store, this`state
      ensures Valid() && Enabled(duration, old(state), Tick(now, alreadyExpired, wait))
      ensures state == RemoveAll(duration, Apply(duration, old(state), Tick(now, alreadyExpired, wait)), now)
      ensures crashed <==> state.phase == Crashed
    {
      alreadyExpired, wait := NextExpiration(now);
      hide IsScan, IsRun;
      StepKeepsInv(duration, state, Tick(now, alreadyExpired, wait));
      hide Inv;
      state := Apply(duration, state, Tick(now, alreadyExpired, wait));
      RemoveAllDoomed(duration, state, now);
      crashed := wait <= 0;
      if !crashed {
        DeleteExpired(alreadyExpired, now);
      }
    }

    method DeleteExpired(alreadyExpired: seq<Id>, ghost now: int)
      requires Valid() && now >= state.now && state.doomed == alreadyExpired
      modifies this`store, this`state
      ensures Valid() && state == RemoveAll(duration, old(state), now)
    {
      ghost var scanned := state;
      for i := 0 to |alreadyExpired|
        invariant Valid() && now >= state.now && state.doomed == alreadyExpired[i..]
        invariant RemoveAll(duration, state, now) == RemoveAll(duration, scanned, now)
      {
        StepKeepsInv(duration, state, Remove(now));
        hide Inv;
        state := Apply(duration, state, Remove(now));
        store := store - {alreadyExpired[i]};
      }
    }
  }
}
