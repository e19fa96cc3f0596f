// Lobbies ("advertisements") and their peers (server/internal/models/advertisement.go and
// the handlers under server/internal/routes/game). Both the lobby store and each peer
// list are ordered maps; a peer's value here is the moment it joined.
module Lobby {
  import opened Wrappers
  import opened OrderedMap

  type AdvId = int
  type UserId = int

  datatype Adv = Adv(hostId: UserId, party: int, peers: seq<(UserId, nat)>) {
    predicate HasPeer(u: UserId) {
      Lookup(peers, u).Some?
    }
  }

  /**
   * The lobby store, with history: the lobbies stored by a Host request that has not yet
   * added its first peer, and a clock that moves with every peer added.
   */
  datatype Lobbies = Lobbies(store: seq<(AdvId, Adv)>, pending: multiset<AdvId>, clock: nat) {
    function At(id: AdvId): Option<Adv> {
      Lookup(store, id)
    }
  }

  datatype Game = AoE4 | OtherGame

  // ---------- the write-locked blocks ----------

  function Put(s: Lobbies, id: AdvId, adv: Adv): Lobbies {
    s.(store := StorePair(s.store, id, adv, (_: Adv) => true))
  }

  /** UnsafeNewPeer: nothing when the lobby is gone; a user already there keeps its place. */
  function NewPeer(s: Lobbies, id: AdvId, u: UserId): Lobbies {
    match s.At(id)
    case None => s
    case Some(adv) =>
      Put(s, id, adv.(peers := StorePair(adv.peers, u, s.clock, (_: nat) => false))).(clock := s.clock + 1)
  }

  /** UnsafeRemovePeer: the lobby goes with its last peer. */
  function RemovePeer(s: Lobbies, id: AdvId, u: UserId): Lobbies {
    match s.At(id)
    case None => s
    case Some(adv) =>
      if !adv.HasPeer(u) then s
      else
        var peers := DeletePair(adv.peers, u);
        if peers == [] then s.(store := DeletePair(s.store, id))
        else Put(s, id, adv.(peers := peers))
  }

  function NewPeers(s: Lobbies, id: AdvId, users: seq<UserId>): Lobbies {
    if users == [] then s
    else NewPeer(NewPeers(s, id, users[..|users| - 1]), id, users[|users| - 1])
  }

  /** The block of PeerAdd: only the host may add, and only users that exist. */
  function PeerAdd(s: Lobbies, id: AdvId, current: UserId, users: seq<UserId>, known: set<UserId>): Lobbies {
    if s.At(id).None? || s.At(id).value.hostId != current || exists i :: 0 <= i < |users| && users[i] !in known then s
    else NewPeers(s, id, users)
  }

  datatype Event =
    | HostStore(id: AdvId, hostId: UserId, party: int)
    | HostPeer(id: AdvId, user: UserId)
    | JoinPeer(id: AdvId, user: UserId)
    | Unpeer(id: AdvId, user: UserId)
    | AddPeers(id: AdvId, current: UserId, users: seq<UserId>, known: set<UserId>)
    | SetHost(id: AdvId, hostId: UserId)

  predicate Enabled(s: Lobbies, e: Event) {
    match e
    case HostStore(id, _, _) => s.At(id).None?
    case HostPeer(id, _) => id in s.pending
    case _ => true
  }

  /** One locked block of some request, between blocks of others. */
  function Apply(s: Lobbies, e: Event): Lobbies {
    match e
    case HostStore(id, hostId, party) => Put(s, id, Adv(hostId, party, [])).(pending := s.pending + multiset{id})
    case HostPeer(id, u) => NewPeer(s, id, u).(pending := s.pending - multiset{id})
    case JoinPeer(id, u) => NewPeer(s, id, u)
    case Unpeer(id, u) => RemovePeer(s, id, u)
    case AddPeers(id, current, users, known) => PeerAdd(s, id, current, users, known)
    case SetHost(id, hostId) =>
      if s.At(id).None? then s else Put(s, id, s.At(id).value.(hostId := hostId))
  }

  // ---------- invariants ----------

  /** Peers stand in the order they joined. */
  ghost predicate ByJoinTime(peers: seq<(UserId, nat)>, clock: nat) {
    && Unique(peers)
    && (forall i, j :: 0 <= i < j < |peers| ==> peers[i].1 < peers[j].1)
    && (forall i :: 0 <= i < |peers| ==> peers[i].1 < clock)
  }

  ghost predicate Inv(s: Lobbies) {
    && Unique(s.store)
    && (forall id :: s.At(id).Some? ==> ByJoinTime(s.At(id).value.peers, s.clock))
    && (forall id :: s.At(id).Some? && s.At(id).value.peers == [] ==> id in s.pending)
  }

  lemma PutAt(s: Lobbies, id: AdvId, adv: Adv)
    requires Unique(s.store)
    ensures var t := Put(s, id, adv);
      && Unique(t.store) && t.clock == s.clock && t.pending == s.pending
      && forall o :: t.At(o) == if o == id then Some(adv) else s.At(o)
  {
    var all := (_: Adv) => true;
    StoreLaws(s.store, id, adv, all, id);
    forall o ensures Put(s, id, adv).At(o) == if o == id then Some(adv) else s.At(o) {
      StoreLaws(s.store, id, adv, all, o);
    }
  }

  lemma DropAt(s: Lobbies, id: AdvId)
    requires Unique(s.store)
    ensures var t := s.(store := DeletePair(s.store, id));
      Unique(t.store) && forall o :: t.At(o) == if o == id then None else s.At(o)
  {
    var t := s.(store := DeletePair(s.store, id));
    DeleteLaws(s.store, id, id);
    forall o ensures t.At(o) == if o == id then None else s.At(o) {
      DeleteLaws(s.store, id, o);
    }
  }

  lemma AddedPeer(peers: seq<(UserId, nat)>, u: UserId, clock: nat)
    requires ByJoinTime(peers, clock)
    ensures var qs := StorePair(peers, u, clock, (_: nat) => false);
      && ByJoinTime(qs, clock + 1) && qs != []
      && (forall v :: Lookup(qs, v).Some? <==> v == u || Lookup(peers, v).Some?)
      && (Lookup(peers, u).Some? ==> qs == peers)
  {
    var never := (_: nat) => false;
    StoreLaws(peers, u, clock, never, u);
    forall v ensures Lookup(StorePair(peers, u, clock, never), v).Some? <==> v == u || Lookup(peers, v).Some? {
      StoreLaws(peers, u, clock, never, v);
    }
  }

  lemma RemovedPeer(peers: seq<(UserId, nat)>, u: UserId, clock: nat)
    requires ByJoinTime(peers, clock)
    ensures var qs := DeletePair(peers, u);
      && ByJoinTime(qs, clock)
      && (forall v :: Lookup(qs, v).Some? <==> v != u && Lookup(peers, v).Some?)
  {
    DeleteLaws(peers, u, u);
    forall v ensures Lookup(DeletePair(peers, u), v).Some? <==> v != u && Lookup(peers, v).Some? {
      DeleteLaws(peers, u, v);
    }
  }

  lemma LaterClock(peers: seq<(UserId, nat)>, clock: nat, later: nat)
    requires ByJoinTime(peers, clock) && clock <= later
    ensures ByJoinTime(peers, later)
  {
  }

  /** Storing or changing one lobby keeps the invariant. */
  lemma PutKeepsInv(s: Lobbies, id: AdvId, adv: Adv, clock: nat, pending: multiset<AdvId>)
    requires Inv(s) && s.clock <= clock
    requires ByJoinTime(adv.peers, clock) && (adv.peers == [] ==> id in pending)
    requires forall o :: o != id && o in s.pending ==> o in pending
    ensures Inv(Put(s, id, adv).(clock := clock, pending := pending))
  {
    PutAt(s, id, adv);
    hide Put, Lookup, ByJoinTime;
    var t := Put(s, id, adv).(clock := clock, pending := pending);
    forall o | t.At(o).Some? ensures ByJoinTime(t.At(o).value.peers, clock) {
      if o != id {
        LaterClock(s.At(o).value.peers, s.clock, clock);
      }
    }
  }

  /** What UnsafeNewPeer does, lobby by lobby and user by user. */
  lemma NewPeerLaws(s: Lobbies, id: AdvId, u: UserId)
    requires Inv(s)
    ensures var t := NewPeer(s, id, u);
      && Inv(t) && t.pending == s.pending
      && (s.At(id).None? ==> t == s)
      && (s.At(id).Some? ==> (
          && t.At(id).Some? && t.At(id).value.peers != [] && t.At(id).value.hostId == s.At(id).value.hostId
          && forall v :: t.At(id).value.HasPeer(v) <==> v == u || s.At(id).value.HasPeer(v)))
      && (forall o :: o != id ==> t.At(o) == s.At(o))
  {
    if s.At(id).Some? {
      var adv := s.At(id).value;
      AddedPeer(adv.peers, u, s.clock);
      var with := adv.(peers := StorePair(adv.peers, u, s.clock, (_: nat) => false));
      PutAt(s, id, with);
      PutKeepsInv(s, id, with, s.clock + 1, s.pending);
      hide Put, Lookup, ByJoinTime, StorePair, Inv;
    }
  }

  /** Dropping a lobby keeps the invariant. */
  lemma DropKeepsInv(s: Lobbies, id: AdvId)
    requires Inv(s)
    ensures Inv(s.(store := DeletePair(s.store, id)))
  {
    DropAt(s, id);
    hide Lookup, ByJoinTime, DeletePair;
  }

  /**
   * What UnsafeRemovePeer does: the user is gone from that lobby alone, and the lobby is
   * gone exactly when it had no other peer.
   */
  lemma RemovePeerLaws(s: Lobbies, id: AdvId, u: UserId)
    requires Inv(s)
    ensures var t := RemovePeer(s, id, u);
      && Inv(t) && t.pending == s.pending
      && (forall o :: o != id ==> t.At(o) == s.At(o))
      && (t.At(id).Some? ==> (
          && s.At(id).Some? && t.At(id).value.hostId == s.At(id).value.hostId
          && forall v :: t.At(id).value.HasPeer(v) <==> v != u && s.At(id).value.HasPeer(v)))
      && (s.At(id).Some? && t.At(id).None? <==>
          s.At(id).Some? && s.At(id).value.HasPeer(u) && forall v :: s.At(id).value.HasPeer(v) ==> v == u)
  {
    hide Put, ByJoinTime, DeletePair, Inv, Unique, Lookup, StorePair;
    if s.At(id).Some? && s.At(id).value.HasPeer(u) {
      InvAt(s, id);
      var adv := s.At(id).value;
      var peers := DeletePair(adv.peers, u);
      RemovedPeer(adv.peers, u, s.clock);
      SomeoneLeft(peers, s.clock);
      DropAt(s, id);
      DropKeepsInv(s, id);
      PutAt(s, id, adv.(peers := peers));
      if peers != [] {
        PutKeepsInv(s, id, adv.(peers := peers), s.clock, s.pending);
        assert RemovePeer(s, id, u) == Put(s, id, adv.(peers := peers));
        var v :| Lookup(peers, v).Some?;
        assert v != u && adv.HasPeer(v);
      } else {
        assert RemovePeer(s, id, u) == s.(store := DeletePair(s.store, id));
      }
    }
  }

  lemma InvAt(s: Lobbies, id: AdvId)
    requires Inv(s)
    ensures Unique(s.store)
    ensures s.At(id).Some? ==> ByJoinTime(s.At(id).value.peers, s.clock)
  {
  }

  /** A peer list is empty when it has no peer. */
  lemma SomeoneLeft(peers: seq<(UserId, nat)>, clock: nat)
    requires ByJoinTime(peers, clock)
    ensures peers == [] <==> forall v :: Lookup(peers, v).None?
  {
    if peers != [] {
      PositionUnique(peers, 0);
      assert Lookup(peers, peers[0].0).Some?;
    }
  }

  lemma {:induction false} NewPeersKeepInv(s: Lobbies, id: AdvId, users: seq<UserId>)
    requires Inv(s)
    ensures Inv(NewPeers(s, id, users)) && NewPeers(s, id, users).pending == s.pending
    ensures s.At(id).Some? <==> NewPeers(s, id, users).At(id).Some?
  {
    if users != [] {
      NewPeersKeepInv(s, id, users[..|users| - 1]);
      NewPeerLaws(NewPeers(s, id, users[..|users| - 1]), id, users[|users| - 1]);
    }
  }

  /** Every locked block of every request keeps the invariant. */
  lemma StepKeepsInv(s: Lobbies, e: Event)
    requires Inv(s) && Enabled(s, e)
    ensures Inv(Apply(s, e))
  {
    match e
    case HostStore(id, hostId, party) => HostStoreLaws(s, id, hostId, party);
    case HostPeer(id, u) =>
      NewPeerLaws(s, id, u);
      FirstPeer(NewPeer(s, id, u), id);
    case JoinPeer(id, u) => NewPeerLaws(s, id, u);
    case Unpeer(id, u) => RemovePeerLaws(s, id, u);
    case AddPeers(id, current, users, known) => NewPeersKeepInv(s, id, users);
    case SetHost(id, hostId) => SetHostLaws(s, id, hostId);
  }

  lemma HostStoreLaws(s: Lobbies, id: AdvId, hostId: UserId, party: int)
    requires Inv(s) && s.At(id).None?
    ensures var t := Apply(s, HostStore(id, hostId, party));
      Inv(t) && forall o :: t.At(o) == if o == id then Some(Adv(hostId, party, [])) else s.At(o)
  {
    PutAt(s, id, Adv(hostId, party, []));
    PutKeepsInv(s, id, Adv(hostId, party, []), s.clock, s.pending + multiset{id});
  }

  /** Once a lobby is gone or has a peer, its Host request no longer counts. */
  lemma FirstPeer(s: Lobbies, id: AdvId)
    requires Inv(s) && (s.At(id).Some? ==> s.At(id).value.peers != [])
    ensures Inv(s.(pending := s.pending - multiset{id}))
  {
    hide Lookup, ByJoinTime;
    var t := s.(pending := s.pending - multiset{id});
    assert forall o :: t.At(o) == s.At(o);
  }

  lemma SetHostLaws(s: Lobbies, id: AdvId, hostId: UserId)
    requires Inv(s)
    ensures var t := Apply(s, SetHost(id, hostId));
      && Inv(t) && t.pending == s.pending && t.clock == s.clock
      && forall o :: t.At(o) == if o == id && s.At(id).Some? then Some(s.At(id).value.(hostId := hostId)) else s.At(o)
  {
    if s.At(id).Some? {
      PutAt(s, id, s.At(id).value.(hostId := hostId));
      PutKeepsInv(s, id, s.At(id).value.(hostId := hostId), s.clock, s.pending);
    }
  }

  predicate IsRun(s: Lobbies, events: seq<Event>)
    decreases |events|
  {
    events == [] || (Enabled(s, events[0]) && IsRun(Apply(s, events[0]), events[1..]))
  }

  function Final(s: Lobbies, events: seq<Event>): Lobbies
    decreases |events|
  {
    if events == [] then s else Final(Apply(s, events[0]), events[1..])
  }

  lemma {:induction false} RunKeepsInv(s: Lobbies, events: seq<Event>)
    requires Inv(s) && IsRun(s, events)
    ensures Inv(Final(s, events))
    decreases |events|
  {
    if events != [] {
      StepKeepsInv(s, events[0]);
      RunKeepsInv(Apply(s, events[0]), events[1..]);
    }
  }

  function Empty(): Lobbies {
    Lobbies([], multiset{}, 0)
  }

  /** Over every interleaving, a lobby without peers is one whose Host has not added its first. */
  lemma PeerlessIsPending(events: seq<Event>, id: AdvId)
    requires IsRun(Empty(), events)
    ensures var s := Final(Empty(), events);
      s.At(id).Some? && s.At(id).value.peers == [] ==> id in s.pending
  {
    RunKeepsInv(Empty(), events);
  }

  /** A lobby that is gone stays gone through any blocks but a Host storing that id anew. */
  lemma {:induction false} NoRevival(s: Lobbies, events: seq<Event>, id: AdvId)
    requires Inv(s) && IsRun(s, events) && s.At(id).None?
    requires forall i :: 0 <= i < |events| ==> !(events[i].HostStore? && events[i].id == id)
    ensures Final(s, events).At(id).None?
    decreases |events|
  {
    if events != [] {
      StepKeepsInv(s, events[0]);
      StaysGone(s, events[0], id);
      NoRevival(Apply(s, events[0]), events[1..], id);
    }
  }

  lemma StaysGone(s: Lobbies, e: Event, id: AdvId)
    requires Inv(s) && Enabled(s, e) && s.At(id).None? && !(e.HostStore? && e.id == id)
    ensures Apply(s, e).At(id).None?
  {
    match e
    case HostStore(o, hostId, party) => HostStoreLaws(s, o, hostId, party);
    case HostPeer(o, u) => NewPeerLaws(s, o, u);
    case JoinPeer(o, u) => NewPeerLaws(s, o, u);
    case Unpeer(o, u) => RemovePeerLaws(s, o, u);
    case AddPeers(o, current, users, known) => NewPeersElsewhere(s, o, users, id);
    case SetHost(o, hostId) => SetHostLaws(s, o, hostId);
  }

  lemma {:induction false} NewPeersElsewhere(s: Lobbies, id: AdvId, users: seq<UserId>, other: AdvId)
    requires Inv(s)
    ensures other != id || s.At(id).None? ==> NewPeers(s, id, users).At(other) == s.At(other)
  {
    if users != [] {
      NewPeersElsewhere(s, id, users[..|users| - 1], other);
      NewPeersElsewhere(s, id, users[..|users| - 1], id);
      NewPeersKeepInv(s, id, users[..|users| - 1]);
      NewPeerLaws(NewPeers(s, id, users[..|users| - 1]), id, users[|users| - 1]);
    }
  }

  // ---------- whole requests, one at a time ----------

  /** GetUserAdvertisement: the first lobby, in store order, that has the user as a peer. */
  function UserAdvertisement(store: seq<(AdvId, Adv)>, u: UserId): Option<AdvId> {
    if store == [] then None
    else if store[0].1.HasPeer(u) then Some(store[0].0)
    else UserAdvertisement(store[1..], u)
  }

  function LeaveCurrent(s: Lobbies, u: UserId): Lobbies {
    match UserAdvertisement(s.store, u)
    case None => s
    case Some(id) => RemovePeer(s, id, u)
  }

  /** Host and Join leave the user's lobby first, but for AoE4. */
  function LeaveOld(g: Game, s: Lobbies, u: UserId): Lobbies {
    if g == AoE4 then s else LeaveCurrent(s, u)
  }

  datatype Request =
    | Host(user: UserId, newId: AdvId, party: int)
    | Join(user: UserId, id: AdvId, party: int)
    | Leave(user: UserId, id: AdvId)
    | Logout(user: UserId)
    | UpdateHost(user: UserId, id: AdvId)
    | AddPeers(user: UserId, id: AdvId, users: seq<UserId>, known: set<UserId>)

  /** Host, Join, Leave, Logout, UpdateHost and PeerAdd, each run to its end; newId is an id not in use. */
  function Handle(g: Game, s: Lobbies, r: Request): Lobbies {
    match r
    case Host(u, newId, party) =>
      var left := LeaveOld(g, s, u);
      if left.At(newId).Some? then left
      else
        var stored := Apply(left, HostStore(newId, u, party));
        Apply(stored, HostPeer(newId, u))
    case Join(u, id, party) =>
      var left := LeaveOld(g, s, u);
      if left.At(id).None? || (party != -1 && party != left.At(id).value.party) then left
      else Apply(left, JoinPeer(id, u))
    case Leave(u, id) => Apply(s, Unpeer(id, u))
    case Logout(u) => LeaveCurrent(s, u)
    case AddPeers(u, id, users, known) => Apply(s, Event.AddPeers(id, u, users, known))
    case UpdateHost(u, id) =>
      match s.At(id)
      case None => s
      case Some(adv) =>
        if adv.peers == [] || adv.peers[0].0 != u then s else Apply(s, SetHost(id, u))
  }

  /** The check of UpdateHost. */
  predicate IsFirstPeer(s: Lobbies, id: AdvId, u: UserId) {
    s.At(id).Some? && s.At(id).value.peers != [] && s.At(id).value.peers[0].0 == u
  }

  /** No user is a peer of two lobbies. */
  ghost predicate OneLobbyEach(s: Lobbies) {
    forall a, b, u ::
      s.At(a).Some? && s.At(b).Some? && s.At(a).value.HasPeer(u) && s.At(b).value.HasPeer(u) ==> a == b
  }

  ghost predicate InNoLobby(s: Lobbies, u: UserId) {
    forall a :: s.At(a).Some? ==> !s.At(a).value.HasPeer(u)
  }

  lemma {:induction false} UserAdvertisementFinds(store: seq<(AdvId, Adv)>, u: UserId)
    requires Unique(store)
    ensures match UserAdvertisement(store, u)
      case None => forall a :: Lookup(store, a).Some? ==> !Lookup(store, a).value.HasPeer(u)
      case Some(id) => Lookup(store, id).Some? && Lookup(store, id).value.HasPeer(u)
  {
    if store != [] {
      UserAdvertisementFinds(store[1..], u);
      PositionUnique(store, 0);
      forall a ensures Lookup(store, a) == if a == store[0].0 then Some(store[0].1) else Lookup(store[1..], a) {
      }
      if !store[0].1.HasPeer(u) && UserAdvertisement(store[1..], u).Some? {
        var id := UserAdvertisement(store[1..], u).value;
        var i := PositionOf(store[1..], id);
        assert store[1..][i] == store[1 + i];
      }
    }
  }

  /** After leaving, a user that was in one lobby at most is in none. */
  lemma LeaveCurrentLaws(s: Lobbies, u: UserId)
    requires Inv(s)
    ensures Inv(LeaveCurrent(s, u)) && LeaveCurrent(s, u).pending == s.pending
    ensures OneLobbyEach(s) ==> OneLobbyEach(LeaveCurrent(s, u)) && InNoLobby(LeaveCurrent(s, u), u)
  {
    UserAdvertisementFinds(s.store, u);
    var found := UserAdvertisement(s.store, u);
    if found.Some? {
      RemovePeerLaws(s, found.value, u);
    }
  }

  /** The user is a peer of a lobby other than this one. */
  ghost predicate Elsewhere(s: Lobbies, id: AdvId, u: UserId) {
    exists o :: o != id && s.At(o).Some? && s.At(o).value.HasPeer(u)
  }

  /** The block adds the peers it is given. */
  predicate AddsPeers(s: Lobbies, id: AdvId, current: UserId, users: seq<UserId>, known: set<UserId>) {
    s.At(id).Some? && s.At(id).value.hostId == current && forall i :: 0 <= i < |users| ==> users[i] in known
  }

  /** The block adds no user that is in another lobby. */
  ghost predicate AddsOnlyFree(s: Lobbies, e: Event) {
    match e
    case HostPeer(id, u) => s.At(id).Some? ==> !Elsewhere(s, id, u)
    case JoinPeer(id, u) => s.At(id).Some? ==> !Elsewhere(s, id, u)
    case AddPeers(id, current, users, known) =>
      AddsPeers(s, id, current, users, known) ==> forall u :: u in users ==> !Elsewhere(s, id, u)
    case _ => true
  }

  lemma {:induction false} NewPeersAt(s: Lobbies, id: AdvId, users: seq<UserId>)
    requires Inv(s) && s.At(id).Some?
    ensures var t := NewPeers(s, id, users);
      && t.At(id).Some? && (forall o :: o != id ==> t.At(o) == s.At(o))
      && forall v :: t.At(id).value.HasPeer(v) <==> v in users || s.At(id).value.HasPeer(v)
  {
    if users != [] {
      var n := |users| - 1;
      NewPeersAt(s, id, users[..n]);
      NewPeersKeepInv(s, id, users[..n]);
      NewPeerLaws(NewPeers(s, id, users[..n]), id, users[n]);
      assert users == users[..n] + [users[n]];
      hide Lookup, NewPeer, Inv;
    }
  }

  /** Peers added to one lobby keep everyone in one exactly when none of them is in another. */
  lemma AddedKeepOneEach(s: Lobbies, t: Lobbies, id: AdvId, users: set<UserId>)
    requires OneLobbyEach(s) && s.At(id).Some? && t.At(id).Some?
    requires forall o :: o != id ==> t.At(o) == s.At(o)
    requires forall v :: t.At(id).value.HasPeer(v) <==> v in users || s.At(id).value.HasPeer(v)
    ensures OneLobbyEach(t) <==> forall u :: u in users ==> !Elsewhere(s, id, u)
  {
    hide Lookup;
    if u, o :| u in users && o != id && s.At(o).Some? && s.At(o).value.HasPeer(u) {
      assert t.At(o).value.HasPeer(u) && t.At(id).value.HasPeer(u);
    }
    if a, b, u :| t.At(a).Some? && t.At(b).Some? && t.At(a).value.HasPeer(u) && t.At(b).value.HasPeer(u) && a != b {
      assert Elsewhere(s, id, u);
    }
  }

  lemma FewerKeepOneEach(s: Lobbies, t: Lobbies)
    requires OneLobbyEach(s)
    requires forall o, v :: t.At(o).Some? && t.At(o).value.HasPeer(v) ==> s.At(o).Some? && s.At(o).value.HasPeer(v)
    ensures OneLobbyEach(t)
  {
  }

  /** A locked block keeps everyone in one lobby exactly when it adds no user that is in another. */
  lemma BlockKeepsOneEach(s: Lobbies, e: Event)
    requires Inv(s) && Enabled(s, e) && OneLobbyEach(s)
    ensures OneLobbyEach(Apply(s, e)) <==> AddsOnlyFree(s, e)
  {
    hide Lookup, NewPeer, NewPeers, RemovePeer, Put, Inv, OneLobbyEach;
    var t := Apply(s, e);
    match e
    case HostStore(id, hostId, party) =>
      HostStoreLaws(s, id, hostId, party);
      NobodyIn(hostId, party);
      FewerKeepOneEach(s, t);
    case HostPeer(id, u) => PeerKeepsOneEach(s, id, u, s.pending - multiset{id});
    case JoinPeer(id, u) =>
      NewPeerLaws(s, id, u);
      PeerKeepsOneEach(s, id, u, s.pending);
      assert t == NewPeer(s, id, u).(pending := s.pending);
    case Unpeer(id, u) =>
      RemovePeerLaws(s, id, u);
      FewerKeepOneEach(s, t);
    case AddPeers(id, current, users, known) =>
      if AddsPeers(s, id, current, users, known) {
        NewPeersAt(s, id, users);
        AddedKeepOneEach(s, NewPeers(s, id, users), id, set u | u in users);
      }
    case SetHost(id, hostId) =>
      SetHostLaws(s, id, hostId);
      FewerKeepOneEach(s, t);
  }

  lemma NobodyIn(hostId: UserId, party: int)
    ensures forall v :: !Adv(hostId, party, []).HasPeer(v)
  {
  }

  lemma PeerKeepsOneEach(s: Lobbies, id: AdvId, u: UserId, pending: multiset<AdvId>)
    requires Inv(s) && OneLobbyEach(s)
    ensures OneLobbyEach(NewPeer(s, id, u).(pending := pending)) <==> (s.At(id).Some? ==> !Elsewhere(s, id, u))
  {
    NewPeerLaws(s, id, u);
    hide Lookup, NewPeer, Inv, OneLobbyEach;
    var t := NewPeer(s, id, u).(pending := pending);
    assert forall o :: t.At(o) == NewPeer(s, id, u).At(o);
    if s.At(id).Some? {
      AddedKeepOneEach(s, t, id, {u});
    } else {
      FewerKeepOneEach(s, t);
    }
  }

  /** A host that adds known users keeps everyone in one lobby exactly when none of them is in another. */
  lemma PeerAddKeepsOneEach(s: Lobbies, id: AdvId, users: seq<UserId>, known: set<UserId>)
    requires Inv(s) && OneLobbyEach(s) && s.At(id).Some?
    requires forall i :: 0 <= i < |users| ==> users[i] in known
    ensures OneLobbyEach(PeerAdd(s, id, s.At(id).value.hostId, users, known)) <==>
      forall u :: u in users ==> !Elsewhere(s, id, u)
  {
    BlockKeepsOneEach(s, Event.AddPeers(id, s.At(id).value.hostId, users, known));
    hide Inv, OneLobbyEach, PeerAdd, Elsewhere, Lookup;
  }

  /** In every state of the run each user is in one lobby at most. */
  ghost predicate AlwaysOneEach(s: Lobbies, events: seq<Event>)
    decreases |events|
  {
    OneLobbyEach(s) && (events != [] ==> AlwaysOneEach(Apply(s, events[0]), events[1..]))
  }

  ghost predicate AlwaysAddsFree(s: Lobbies, events: seq<Event>)
    decreases |events|
  {
    events == [] || (AddsOnlyFree(s, events[0]) && AlwaysAddsFree(Apply(s, events[0]), events[1..]))
  }

  /** Over every interleaving: users stay in one lobby exactly when no block adds one that is in another. */
  lemma {:induction false} RunKeepsOneEach(s: Lobbies, events: seq<Event>)
    requires Inv(s) && OneLobbyEach(s) && IsRun(s, events)
    ensures AlwaysOneEach(s, events) <==> AlwaysAddsFree(s, events)
    decreases |events|
  {
    hide Inv, OneLobbyEach, Apply, Enabled, AddsOnlyFree;
    if events != [] {
      StepKeepsInv(s, events[0]);
      BlockKeepsOneEach(s, events[0]);
      if AddsOnlyFree(s, events[0]) {
        RunKeepsOneEach(Apply(s, events[0]), events[1..]);
      } else {
        NotOneEachNow(Apply(s, events[0]), events[1..]);
      }
    }
  }

  lemma NotOneEachNow(s: Lobbies, events: seq<Event>)
    requires !OneLobbyEach(s)
    ensures !AlwaysOneEach(s, events)
  {
  }

  /**
   * Two requests of one user that both looked for a lobby to leave before either added it:
   * whatever the game, it ends in two lobbies.
   */
  lemma InterleavedJoins(s: Lobbies, a: AdvId, b: AdvId, u: UserId)
    requires Inv(s) && InNoLobby(s, u) && a != b && s.At(a).Some? && s.At(b).Some?
    ensures LeaveCurrent(s, u) == s
    ensures var t := Apply(Apply(s, JoinPeer(a, u)), JoinPeer(b, u));
      t.At(a).Some? && t.At(b).Some? && t.At(a).value.HasPeer(u) && t.At(b).value.HasPeer(u)
  {
    UserAdvertisementFinds(s.store, u);
    NewPeerLaws(s, a, u);
    NewPeerLaws(NewPeer(s, a, u), b, u);
    hide Lookup, NewPeer, Inv;
  }

  ghost predicate Settled(s: Lobbies) {
    Inv(s) && s.pending == multiset{}
  }

  lemma EmptySettled()
    ensures Settled(Empty()) && OneLobbyEach(Empty())
  {
  }

  /** Whether a request adds a user that is in another lobby; it may have left one first. */
  ghost predicate RequestAddsFree(g: Game, s: Lobbies, r: Request) {
    match r
    case Host(u, newId, party) => g != AoE4 || s.At(newId).Some? || InNoLobby(s, u)
    case Join(u, id, party) => g != AoE4 || !Joinable(s, id, party) || !Elsewhere(s, id, u)
    case AddPeers(u, id, users, known) => AddsOnlyFree(s, Event.AddPeers(id, u, users, known))
    case _ => true
  }

  predicate Joinable(s: Lobbies, id: AdvId, party: int) {
    s.At(id).Some? && (party == -1 || party == s.At(id).value.party)
  }

  /** Every request keeps the invariant and leaves no Host half done. */
  lemma RequestKeepsSettled(g: Game, s: Lobbies, r: Request)
    requires Settled(s)
    ensures Settled(Handle(g, s, r))
  {
    hide LeaveCurrent, Lookup, NewPeer, RemovePeer, Put, Inv;
    LeaveCurrentLaws(s, r.user);
    match r
    case Host(u, newId, party) =>
      HostLaws(LeaveOld(g, s, u), newId, u, party);
    case Join(u, id, party) => NewPeerLaws(LeaveOld(g, s, u), id, u);
    case Leave(u, id) => RemovePeerLaws(s, id, u);
    case Logout(u) =>
    case UpdateHost(u, id) => SetHostLaws(s, id, u);
    case AddPeers(u, id, users, known) => NewPeersKeepInv(s, id, users);
  }

  /** What Host does once the old lobby is left: the new lobby has the user alone. */
  lemma HostLaws(s: Lobbies, id: AdvId, u: UserId, party: int)
    requires Settled(s)
    ensures s.At(id).None? ==>
      var t := Apply(Apply(s, HostStore(id, u, party)), HostPeer(id, u));
      && Settled(t) && t.At(id).Some? && (forall v :: t.At(id).value.HasPeer(v) <==> v == u)
      && (forall o :: o != id ==> t.At(o) == s.At(o))
  {
    if s.At(id).None? {
      HostStoreLaws(s, id, u, party);
      NobodyIn(u, party);
      var stored := Apply(s, HostStore(id, u, party));
      NewPeerLaws(stored, id, u);
      FirstPeer(NewPeer(stored, id, u), id);
      hide Lookup, NewPeer, Put, Inv;
    }
  }

  /** A request keeps everyone in one lobby exactly when it adds no user that is in another. */
  lemma RequestKeepsOneEach(g: Game, s: Lobbies, r: Request)
    requires Settled(s) && OneLobbyEach(s)
    ensures OneLobbyEach(Handle(g, s, r)) <==> RequestAddsFree(g, s, r)
  {
    hide LeaveCurrent, LeaveOld, PeerAdd, RemovePeer, Put, Inv, OneLobbyEach, AddsPeers, UserAdvertisement, Lookup;
    match r
    case Host(u, newId, party) => HostRequest(g, s, u, newId, party);
    case Join(u, id, party) => JoinRequest(g, s, u, id, party);
    case Leave(u, id) => BlockKeepsOneEach(s, Unpeer(id, u));
    case Logout(u) => LeaveCurrentLaws(s, u);
    case UpdateHost(u, id) => BlockKeepsOneEach(s, SetHost(id, u));
    case AddPeers(u, id, users, known) => BlockKeepsOneEach(s, Event.AddPeers(id, u, users, known));
  }

  lemma HostRequest(g: Game, s: Lobbies, u: UserId, newId: AdvId, party: int)
    requires Settled(s) && OneLobbyEach(s)
    ensures OneLobbyEach(Handle(g, s, Host(u, newId, party))) <==> RequestAddsFree(g, s, Host(u, newId, party))
  {
    hide Inv, OneLobbyEach, InNoLobby, Elsewhere, LeaveCurrent, Lookup, Apply;
    LeaveCurrentLaws(s, u);
    HostKeepsOneEach(LeaveOld(g, s, u), newId, u, party);
  }

  lemma JoinRequest(g: Game, s: Lobbies, u: UserId, id: AdvId, party: int)
    requires Settled(s) && OneLobbyEach(s)
    ensures OneLobbyEach(Handle(g, s, Join(u, id, party))) <==> RequestAddsFree(g, s, Join(u, id, party))
  {
    hide Inv, OneLobbyEach, InNoLobby, Elsewhere, LeaveCurrent, Lookup, Apply;
    LeaveCurrentLaws(s, u);
    var left := LeaveOld(g, s, u);
    FreeIsNotElsewhere(left, u);
    BlockKeepsOneEach(left, JoinPeer(id, u));
  }

  lemma FreeIsNotElsewhere(s: Lobbies, u: UserId)
    ensures InNoLobby(s, u) ==> forall id :: !Elsewhere(s, id, u)
  {
  }

  lemma HostKeepsOneEach(s: Lobbies, id: AdvId, u: UserId, party: int)
    requires Settled(s) && OneLobbyEach(s)
    ensures s.At(id).None? ==>
      (OneLobbyEach(Apply(Apply(s, HostStore(id, u, party)), HostPeer(id, u))) <==> InNoLobby(s, u))
  {
    if s.At(id).None? {
      HostStoreLaws(s, id, u, party);
      BlockKeepsOneEach(s, HostStore(id, u, party));
      var stored := Apply(s, HostStore(id, u, party));
      assert id in stored.pending;
      BlockKeepsOneEach(stored, HostPeer(id, u));
      hide Lookup, NewPeer, Put, Inv, OneLobbyEach;
      if o :| s.At(o).Some? && s.At(o).value.HasPeer(u) {
        assert stored.At(o).Some? && stored.At(o).value.HasPeer(u);
      }
    }
  }

  function Serve(g: Game, s: Lobbies, requests: seq<Request>): Lobbies
    decreases |requests|
  {
    if requests == [] then s else Serve(g, Handle(g, s, requests[0]), requests[1..])
  }

  lemma {:induction false} ServeKeepsSettled(g: Game, s: Lobbies, requests: seq<Request>)
    requires Settled(s)
    ensures Settled(Serve(g, s, requests))
    decreases |requests|
  {
    if requests != [] {
      RequestKeepsSettled(g, s, requests[0]);
      ServeKeepsSettled(g, Handle(g, s, requests[0]), requests[1..]);
    }
  }

  /** After every request of the run each user is in one lobby at most. */
  ghost predicate ServesOneEach(g: Game, s: Lobbies, requests: seq<Request>)
    decreases |requests|
  {
    OneLobbyEach(s) && (requests != [] ==> ServesOneEach(g, Handle(g, s, requests[0]), requests[1..]))
  }

  ghost predicate ServesAddFree(g: Game, s: Lobbies, requests: seq<Request>)
    decreases |requests|
  {
    requests == [] || (RequestAddsFree(g, s, requests[0]) && ServesAddFree(g, Handle(g, s, requests[0]), requests[1..]))
  }

  /** Over every run of requests: users stay in one lobby exactly when no request adds one that is in another. */
  lemma {:induction false} ServeKeepsOneEach(g: Game, s: Lobbies, requests: seq<Request>)
    requires Settled(s) && OneLobbyEach(s)
    ensures ServesOneEach(g, s, requests) <==> ServesAddFree(g, s, requests)
    decreases |requests|
  {
    hide Settled, OneLobbyEach, Handle, RequestAddsFree;
    if requests != [] {
      RequestKeepsSettled(g, s, requests[0]);
      RequestKeepsOneEach(g, s, requests[0]);
      if RequestAddsFree(g, s, requests[0]) {
        ServeKeepsOneEach(g, Handle(g, s, requests[0]), requests[1..]);
      } else {
        NotServed(g, Handle(g, s, requests[0]), requests[1..]);
      }
    }
  }

  lemma NotServed(g: Game, s: Lobbies, requests: seq<Request>)
    requires !OneLobbyEach(s)
    ensures !ServesOneEach(g, s, requests)
  {
  }

  /** Other games than AoE4 leave the old lobby first, so only adding peers can go wrong. */
  lemma {:induction false} OthersAddFree(g: Game, s: Lobbies, requests: seq<Request>)
    requires g != AoE4 && forall i :: 0 <= i < |requests| ==> !requests[i].AddPeers?
    ensures ServesAddFree(g, s, requests)
    decreases |requests|
  {
    if requests != [] {
      OthersAddFree(g, Handle(g, s, requests[0]), requests[1..]);
    }
  }

  lemma {:induction false} ServedOneEach(g: Game, s: Lobbies, requests: seq<Request>)
    requires ServesOneEach(g, s, requests)
    ensures OneLobbyEach(Serve(g, s, requests))
    decreases |requests|
  {
    if requests != [] {
      ServedOneEach(g, Handle(g, s, requests[0]), requests[1..]);
    }
  }

  /**
   * After any requests no lobby is without peers and each peer list is in the order its
   * peers joined; for games other than AoE4, and without peers added by a host, no user is
   * in two lobbies.
   */
  lemma ServedLobbies(g: Game, requests: seq<Request>, a: AdvId, b: AdvId, u: UserId)
    ensures var s := Serve(g, Empty(), requests);
      && (s.At(a).Some? ==> s.At(a).value.peers != [] && ByJoinTime(s.At(a).value.peers, s.clock))
      && (g != AoE4 && (forall i :: 0 <= i < |requests| ==> !requests[i].AddPeers?) ==>
          (s.At(a).Some? && s.At(b).Some? && s.At(a).value.HasPeer(u) && s.At(b).value.HasPeer(u) ==> a == b))
  {
    EmptySettled();
    ServeKeepsSettled(g, Empty(), requests);
    if g != AoE4 && forall i :: 0 <= i < |requests| ==> !requests[i].AddPeers? {
      OthersAddFree(g, Empty(), requests);
      ServeKeepsOneEach(g, Empty(), requests);
      ServedOneEach(g, Empty(), requests);
    }
    hide Serve, ServesOneEach, ServesAddFree;
  }

  /** The peers stand in joining order, so the first is the one that joined before all others. */
  lemma Elected(g: Game, s: Lobbies, u: UserId, id: AdvId)
    requires Inv(s)
    ensures var t := Handle(g, s, UpdateHost(u, id));
      t != s ==>
        && s.At(id).Some? && t.At(id) == Some(s.At(id).value.(hostId := u))
        && s.At(id).value.HasPeer(u)
        && forall v :: v != u && s.At(id).value.HasPeer(v) ==>
             Lookup(s.At(id).value.peers, u).value < Lookup(s.At(id).value.peers, v).value
  {
    hide Put, Lookup, Inv, ByJoinTime;
    SetHostLaws(s, id, u);
    InvAt(s, id);
    if s.At(id).Some? && s.At(id).value.peers != [] {
      FirstIsEarliest(s.At(id).value.peers, s.clock);
    }
  }

  /**
   * In every state any interleaving of blocks reaches, peers added by hosts included,
   * UpdateHost hands a lobby only to the remaining peer that joined before all others.
   */
  lemma HostIsLongestStaying(g: Game, events: seq<Event>, u: UserId, id: AdvId)
    requires IsRun(Empty(), events)
    ensures var s := Final(Empty(), events); var t := Handle(g, s, UpdateHost(u, id));
      t != s ==>
        && s.At(id).Some? && t.At(id) == Some(s.At(id).value.(hostId := u))
        && s.At(id).value.HasPeer(u)
        && forall v :: v != u && s.At(id).value.HasPeer(v) ==>
             Lookup(s.At(id).value.peers, u).value < Lookup(s.At(id).value.peers, v).value
  {
    EmptySettled();
    RunKeepsInv(Empty(), events);
    hide *;
    Elected(g, Final(Empty(), events), u, id);
  }

  lemma FirstIsEarliest(peers: seq<(UserId, nat)>, clock: nat)
    requires ByJoinTime(peers, clock) && peers != []
    ensures Lookup(peers, peers[0].0) == Some(peers[0].1)
    ensures forall v :: v != peers[0].0 && Lookup(peers, v).Some? ==> peers[0].1 < Lookup(peers, v).value
  {
    PositionUnique(peers, 0);
  }

  // ---------- what each request does, lobby by lobby and user by user ----------

  /** The lobbies other than one are as they were. */
  ghost predicate OthersSame(s: Lobbies, t: Lobbies, id: AdvId) {
    forall o :: o != id ==> t.At(o) == s.At(o)
  }

  /** The user is out of the lobby, which goes if there was no other peer; everyone else and everything else stays. */
  ghost predicate LeftOne(s: Lobbies, t: Lobbies, id: AdvId, u: UserId) {
    && OthersSame(s, t, id)
    && (t.At(id).Some? <==>
        s.At(id).Some? && !(s.At(id).value.HasPeer(u) && forall v :: s.At(id).value.HasPeer(v) ==> v == u))
    && (t.At(id).Some? ==>
        && t.At(id).value.hostId == s.At(id).value.hostId && t.At(id).value.party == s.At(id).value.party
        && forall v :: Lookup(t.At(id).value.peers, v) == if v == u then None else Lookup(s.At(id).value.peers, v))
  }

  /** The user is in the lobby, from now on if not before; everyone else and everything else stays. */
  ghost predicate JoinedOne(s: Lobbies, t: Lobbies, id: AdvId, u: UserId) {
    && OthersSame(s, t, id)
    && s.At(id).Some? && t.At(id).Some?
    && t.At(id).value.hostId == s.At(id).value.hostId && t.At(id).value.party == s.At(id).value.party
    && forall v :: Lookup(t.At(id).value.peers, v) ==
         if v == u && !s.At(id).value.HasPeer(u) then Some(s.clock) else Lookup(s.At(id).value.peers, v)
  }

  lemma RemovePeerLeaves(s: Lobbies, id: AdvId, u: UserId)
    requires Inv(s)
    ensures LeftOne(s, RemovePeer(s, id, u), id, u)
  {
    RemovePeerLaws(s, id, u);
    hide Inv, Put, StorePair, DeletePair, Lookup, ByJoinTime;
    if s.At(id).Some? {
      InvAt(s, id);
      var adv := s.At(id).value;
      PeersWithout(adv.peers, u, s.clock);
      if adv.HasPeer(u) && DeletePair(adv.peers, u) != [] {
        PutAt(s, id, adv.(peers := DeletePair(adv.peers, u)));
      }
    }
  }

  lemma PeersWithout(peers: seq<(UserId, nat)>, u: UserId, clock: nat)
    requires ByJoinTime(peers, clock)
    ensures forall v :: Lookup(DeletePair(peers, u), v) == if v == u then None else Lookup(peers, v)
  {
    forall v ensures Lookup(DeletePair(peers, u), v) == if v == u then None else Lookup(peers, v) {
      DeleteLaws(peers, u, v);
    }
  }

  lemma PeersWith(peers: seq<(UserId, nat)>, u: UserId, clock: nat)
    requires ByJoinTime(peers, clock)
    ensures var with := StorePair(peers, u, clock, (_: nat) => false);
      forall v :: Lookup(with, v) == if v == u && Lookup(peers, u).None? then Some(clock) else Lookup(peers, v)
  {
    var never := (_: nat) => false;
    forall v
      ensures Lookup(StorePair(peers, u, clock, never), v) ==
        if v == u && Lookup(peers, u).None? then Some(clock) else Lookup(peers, v)
    {
      StoreLaws(peers, u, clock, never, v);
    }
  }

  lemma NewPeerJoins(s: Lobbies, id: AdvId, u: UserId)
    requires Inv(s) && s.At(id).Some?
    ensures JoinedOne(s, NewPeer(s, id, u), id, u)
  {
    NewPeerLaws(s, id, u);
    hide Inv, Put, StorePair, Lookup, ByJoinTime;
    InvAt(s, id);
    var adv := s.At(id).value;
    PeersWith(adv.peers, u, s.clock);
    PutAt(s, id, adv.(peers := StorePair(adv.peers, u, s.clock, (_: nat) => false)));
  }

  lemma {:induction false} FirstWithUser(store: seq<(AdvId, Adv)>, u: UserId)
    ensures match UserAdvertisement(store, u)
      case None => forall i :: 0 <= i < |store| ==> !store[i].1.HasPeer(u)
      case Some(id) => exists i :: 0 <= i < |store| && FirstLobby(store, i, u) && store[i].0 == id
  {
    hide Adv.HasPeer;
    if store != [] && !store[0].1.HasPeer(u) {
      FirstWithUser(store[1..], u);
      if UserAdvertisement(store[1..], u).Some? {
        var i :| 0 <= i < |store| - 1 && FirstLobby(store[1..], i, u)
          && store[1..][i].0 == UserAdvertisement(store[1..], u).value;
        assert forall j :: 0 < j <= i + 1 ==> store[j] == store[1..][j - 1];
        assert FirstLobby(store, i + 1, u);
      }
    } else if store != [] {
      assert FirstLobby(store, 0, u);
    }
  }

  /** The first lobby, in store order, that has the user as a peer. */
  predicate FirstLobby(store: seq<(AdvId, Adv)>, i: int, u: UserId)
    ensures FirstLobby(store, i, u) ==> 0 <= i < |store|
  {
    0 <= i < |store| && store[i].1.HasPeer(u) && forall j :: 0 <= j < i ==> !store[j].1.HasPeer(u)
  }

  lemma FirstIsFound(store: seq<(AdvId, Adv)>, i: int, u: UserId)
    requires FirstLobby(store, i, u)
    ensures UserAdvertisement(store, u) == Some(store[i].0)
  {
    FirstWithUser(store, u);
    hide Adv.HasPeer;
    if UserAdvertisement(store, u).Some? {
      var j :| 0 <= j < |store| && FirstLobby(store, j, u) && store[j].0 == UserAdvertisement(store, u).value;
      OnlyOneFirst(store, i, j, u);
    }
  }

  lemma LeavesFirst(s: Lobbies, u: UserId, i: int)
    requires Inv(s) && FirstLobby(s.store, i, u)
    ensures LeftOne(s, LeaveCurrent(s, u), s.store[i].0, u)
  {
    FirstIsFound(s.store, i, u);
    RemovePeerLeaves(s, s.store[i].0, u);
    hide LeftOne, FirstLobby, Inv, RemovePeer;
  }

  /** A user that logs out is out of the first lobby, in store order, that had it, and nothing else changes. */
  lemma LogoutLaws(g: Game, s: Lobbies, u: UserId)
    requires Settled(s)
    ensures var t := Handle(g, s, Logout(u));
      && (InNoLobby(s, u) ==> t == s)
      && (!InNoLobby(s, u) ==> exists i :: FirstLobby(s.store, i, u))
      && (forall i :: FirstLobby(s.store, i, u) ==> LeftOne(s, t, s.store[i].0, u))
  {
    hide LeftOne, FirstLobby, Inv, RemovePeer, UserAdvertisement, InNoLobby;
    FirstWithUser(s.store, u);
    NoFirstLobby(s, u);
    forall i | FirstLobby(s.store, i, u) ensures LeftOne(s, Handle(g, s, Logout(u)), s.store[i].0, u) {
      LeavesFirst(s, u, i);
    }
  }

  lemma OnlyOneFirst(store: seq<(AdvId, Adv)>, i: int, j: int, u: UserId)
    requires FirstLobby(store, i, u) && FirstLobby(store, j, u)
    ensures i == j
  {
  }

  lemma NoFirstLobby(s: Lobbies, u: UserId)
    requires Inv(s)
    ensures InNoLobby(s, u) <==> UserAdvertisement(s.store, u).None?
  {
    UserAdvertisementFinds(s.store, u);
    hide Inv, UserAdvertisement, Adv.HasPeer;
    var found := UserAdvertisement(s.store, u);
    if found.Some? {
      assert s.At(found.value).value.HasPeer(u);
    }
  }

  /** Left as a user leaves that logs out; in AoE4, Host and Join leave nothing. */
  function LeftFirst(g: Game, s: Lobbies, u: UserId): Lobbies {
    if g == AoE4 then s else Handle(g, s, Logout(u))
  }

  lemma LeftFirstSettled(g: Game, s: Lobbies, u: UserId)
    requires Settled(s)
    ensures LeftFirst(g, s, u) == LeaveOld(g, s, u) && Settled(LeftFirst(g, s, u))
  {
    LeaveCurrentLaws(s, u);
  }

  /**
   * Join, its user having left as by logging out, but for AoE4: the lobby, if it is there and
   * of the party asked for, has the user besides the peers left in it, and nothing else changes.
   */
  lemma JoinLaws(g: Game, s: Lobbies, u: UserId, id: AdvId, party: int)
    requires Settled(s)
    ensures var left := LeftFirst(g, s, u); var t := Handle(g, s, Join(u, id, party));
      if left.At(id).Some? && (party == -1 || party == left.At(id).value.party) then JoinedOne(left, t, id, u)
      else t == left
  {
    LeftFirstSettled(g, s, u);
    hide Inv, JoinedOne, LeaveOld, NewPeer, LeftFirst;
    var left := LeaveOld(g, s, u);
    if left.At(id).Some? {
      NewPeerJoins(left, id, u);
    }
  }

  /** Host, after the same leaving: a free id holds the user's lobby, of its party, with the user alone; nothing else changes. */
  lemma HostRequestLaws(g: Game, s: Lobbies, u: UserId, newId: AdvId, party: int)
    requires Settled(s)
    ensures var left := LeftFirst(g, s, u); var t := Handle(g, s, Host(u, newId, party));
      if left.At(newId).Some? then t == left
      else
        && OthersSame(left, t, newId) && t.At(newId).Some?
        && t.At(newId).value.hostId == u && t.At(newId).value.party == party
        && forall v :: t.At(newId).value.HasPeer(v) <==> v == u
  {
    LeftFirstSettled(g, s, u);
    hide Inv, LeaveOld, NewPeer, LeftFirst, Lookup;
    var left := LeaveOld(g, s, u);
    if left.At(newId).None? {
      HostStoreLaws(left, newId, u, party);
      NobodyIn(u, party);
      var stored := Apply(left, HostStore(newId, u, party));
      NewPeerJoins(stored, newId, u);
      NewPeerLaws(stored, newId, u);
      var t := Apply(stored, HostPeer(newId, u));
      assert forall o :: t.At(o) == NewPeer(stored, newId, u).At(o);
    }
  }

  lemma LeaveLaws(g: Game, s: Lobbies, u: UserId, id: AdvId)
    requires Settled(s)
    ensures LeftOne(s, Handle(g, s, Leave(u, id)), id, u)
  {
    RemovePeerLeaves(s, id, u);
  }

  /** UpdateHost makes the first peer the host of that lobby, and changes nothing else. */
  lemma UpdateHostLaws(g: Game, s: Lobbies, u: UserId, id: AdvId)
    requires Settled(s)
    ensures var t := Handle(g, s, UpdateHost(u, id));
      if s.At(id).Some? && s.At(id).value.peers != [] && s.At(id).value.peers[0].0 == u then
        && OthersSame(s, t, id) && t.At(id).Some? && t.At(id).value.hostId == u
        && t.At(id).value.party == s.At(id).value.party && t.At(id).value.peers == s.At(id).value.peers
      else t == s
  {
    hide Apply, Lookup, Inv;
    SetHostLaws(s, id, u);
  }

  /** PeerAdd adds the users to the lobby of the host that asks, if all of them exist, and changes nothing else. */
  lemma AddPeersLaws(g: Game, s: Lobbies, u: UserId, id: AdvId, users: seq<UserId>, known: set<UserId>)
    requires Settled(s)
    ensures var t := Handle(g, s, Request.AddPeers(u, id, users, known));
      if s.At(id).Some? && s.At(id).value.hostId == u && forall i :: 0 <= i < |users| ==> users[i] in known then
        && OthersSame(s, t, id) && t.At(id).Some?
        && forall v :: t.At(id).value.HasPeer(v) <==> v in users || s.At(id).value.HasPeer(v)
      else t == s
  {
    hide Inv, Lookup, NewPeers;
    if s.At(id).Some? {
      NewPeersAt(s, id, users);
    }
  }

  // ---------- the check of UpdateHost, and its block later ----------

  /** The block adds the user to the lobby. */
  predicate AddsUser(s: Lobbies, e: Event, id: AdvId, u: UserId) {
    s.At(id).Some? &&
    match e
    case HostPeer(o, v) => o == id && v == u
    case JoinPeer(o, v) => o == id && v == u
    case AddPeers(o, current, users, known) => o == id && AddsPeers(s, id, current, users, known) && u in users
    case _ => false
  }

  /** Of the blocks that take the user out of the lobby or add it, the last takes it out; away says how it was before. */
  predicate LeftLast(s: Lobbies, events: seq<Event>, id: AdvId, u: UserId, away: bool)
    decreases |events|
  {
    if events == [] then away
    else LeftLast(Apply(s, events[0]), events[1..], id, u, events[0] == Unpeer(id, u) || (away && !AddsUser(s, events[0], id, u)))
  }

  /** Who is in a lobby after a block. */
  lemma Membership(s: Lobbies, e: Event, id: AdvId, u: UserId)
    requires Inv(s) && Enabled(s, e) && s.At(id).Some? && Apply(s, e).At(id).Some?
    ensures Apply(s, e).At(id).value.HasPeer(u) <==>
      e != Unpeer(id, u) && (s.At(id).value.HasPeer(u) || AddsUser(s, e, id, u))
  {
    hide Lookup, NewPeer, RemovePeer, Put, Inv;
    match e
    case HostStore(o, hostId, party) => HostStoreLaws(s, o, hostId, party);
    case HostPeer(o, v) =>
      NewPeerLaws(s, o, v);
      assert Apply(s, e).At(id) == NewPeer(s, o, v).At(id);
    case JoinPeer(o, v) => NewPeerLaws(s, o, v);
    case Unpeer(o, v) => RemovePeerLaws(s, o, v);
    case AddPeers(o, current, users, known) =>
      if AddsPeers(s, o, current, users, known) {
        NewPeersAt(s, o, users);
      }
    case SetHost(o, hostId) => SetHostLaws(s, o, hostId);
  }

  /** A user is no peer of a lobby that is still there exactly when the last block about it took it out. */
  lemma {:induction false} MembershipOver(s: Lobbies, events: seq<Event>, id: AdvId, u: UserId)
    requires Inv(s) && IsRun(s, events) && s.At(id).Some?
    requires forall i :: 0 <= i < |events| ==> !(events[i].HostStore? && events[i].id == id)
    ensures var t := Final(s, events);
      t.At(id).Some? ==> (!t.At(id).value.HasPeer(u) <==> LeftLast(s, events, id, u, !s.At(id).value.HasPeer(u)))
    decreases |events|
  {
    hide Inv, Apply, Enabled, AddsUser, Lookup;
    if events != [] {
      var next := Apply(s, events[0]);
      StepKeepsInv(s, events[0]);
      if next.At(id).Some? {
        Membership(s, events[0], id, u);
        MembershipOver(next, events[1..], id, u);
      } else {
        NoRevival(next, events[1..], id);
      }
    }
  }

  lemma HeadStays(peers: seq<(UserId, nat)>, v: UserId, clock: nat)
    requires peers != []
    ensures StorePair(peers, v, clock, (_: nat) => false)[0] == peers[0]
    ensures v != peers[0].0 ==> DeletePair(peers, v) != [] && DeletePair(peers, v)[0] == peers[0]
  {
  }

  lemma NewPeerKeepsFirst(s: Lobbies, o: AdvId, v: UserId, id: AdvId, u: UserId)
    requires Inv(s) && IsFirstPeer(s, id, u)
    ensures IsFirstPeer(NewPeer(s, o, v), id, u)
  {
    hide StorePair, Lookup, Put, ByJoinTime;
    NewPeerLaws(s, o, v);
    if o == id {
      var adv := s.At(id).value;
      HeadStays(adv.peers, v, s.clock);
      PutAt(s, id, adv.(peers := StorePair(adv.peers, v, s.clock, (_: nat) => false)));
    }
  }

  lemma RemovePeerKeepsFirst(s: Lobbies, o: AdvId, v: UserId, id: AdvId, u: UserId)
    requires Inv(s) && IsFirstPeer(s, id, u) && !(o == id && v == u)
    ensures IsFirstPeer(RemovePeer(s, o, v), id, u)
  {
    hide DeletePair, Lookup, Put, ByJoinTime;
    RemovePeerLaws(s, o, v);
    if o == id {
      var adv := s.At(id).value;
      HeadStays(adv.peers, v, s.clock);
      PutAt(s, id, adv.(peers := DeletePair(adv.peers, v)));
    }
  }

  lemma {:induction false} NewPeersKeepFirst(s: Lobbies, o: AdvId, users: seq<UserId>, id: AdvId, u: UserId)
    requires Inv(s) && IsFirstPeer(s, id, u)
    ensures IsFirstPeer(NewPeers(s, o, users), id, u)
  {
    hide Inv, IsFirstPeer, NewPeer;
    if users != [] {
      var n := |users| - 1;
      NewPeersKeepFirst(s, o, users[..n], id, u);
      NewPeersKeepInv(s, o, users[..n]);
      NewPeerKeepsFirst(NewPeers(s, o, users[..n]), o, users[n], id, u);
    }
  }

  /** The first peer stays first until it is taken out. */
  lemma FirstStays(s: Lobbies, e: Event, id: AdvId, u: UserId)
    requires Inv(s) && Enabled(s, e) && IsFirstPeer(s, id, u) && e != Unpeer(id, u)
    ensures IsFirstPeer(Apply(s, e), id, u)
  {
    hide Lookup, NewPeer, NewPeers, RemovePeer, Put, Inv;
    match e
    case HostStore(o, hostId, party) => HostStoreLaws(s, o, hostId, party);
    case HostPeer(o, v) =>
      NewPeerKeepsFirst(s, o, v, id, u);
      assert Apply(s, e).At(id) == NewPeer(s, o, v).At(id);
    case JoinPeer(o, v) => NewPeerKeepsFirst(s, o, v, id, u);
    case Unpeer(o, v) => RemovePeerKeepsFirst(s, o, v, id, u);
    case AddPeers(o, current, users, known) => NewPeersKeepFirst(s, o, users, id, u);
    case SetHost(o, hostId) => SetHostLaws(s, o, hostId);
  }

  lemma {:induction false} FirstStaysOver(s: Lobbies, events: seq<Event>, id: AdvId, u: UserId)
    requires Inv(s) && IsRun(s, events) && IsFirstPeer(s, id, u)
    requires forall i :: 0 <= i < |events| ==> events[i] != Unpeer(id, u)
    ensures IsFirstPeer(Final(s, events), id, u)
    decreases |events|
  {
    hide Inv, Apply, Enabled, IsFirstPeer;
    if events != [] {
      StepKeepsInv(s, events[0]);
      FirstStays(s, events[0], id, u);
      FirstStaysOver(Apply(s, events[0]), events[1..], id, u);
    }
  }

  /**
   * UpdateHost looks for the first peer without the lock, and its block may come any blocks
   * later. If the lobby is still there, the block hands it to a user that is no peer of it
   * exactly when, of the blocks between that took the user out or added it, the last took it
   * out. If none took it out, the user is still the peer that joined before all others.
   */
  lemma InterleavedUpdateHost(s: Lobbies, events: seq<Event>, id: AdvId, u: UserId)
    requires Inv(s) && IsRun(s, events) && IsFirstPeer(s, id, u)
    requires forall i :: 0 <= i < |events| ==> !(events[i].HostStore? && events[i].id == id)
    ensures var t := Final(s, events); var handed := Apply(t, SetHost(id, u));
      && (handed.At(id).Some? <==> t.At(id).Some?)
      && (handed.At(id).Some? ==>
          && handed.At(id).value.hostId == u
          && (!handed.At(id).value.HasPeer(u) <==> LeftLast(s, events, id, u, false)))
      && ((forall i :: 0 <= i < |events| ==> events[i] != Unpeer(id, u)) ==>
          && handed.At(id).Some? && handed.At(id).value.HasPeer(u)
          && forall v :: v != u && handed.At(id).value.HasPeer(v) ==>
               Lookup(handed.At(id).value.peers, u).value < Lookup(handed.At(id).value.peers, v).value)
  {
    hide Apply, Inv, Lookup, ByJoinTime;
    var t := Final(s, events);
    RunKeepsInv(s, events);
    SetHostLaws(t, id, u);
    InvAt(s, id);
    FirstIsEarliest(s.At(id).value.peers, s.clock);
    MembershipOver(s, events, id, u);
    if forall i :: 0 <= i < |events| ==> events[i] != Unpeer(id, u) {
      FirstStaysOver(s, events, id, u);
      InvAt(t, id);
      FirstIsEarliest(t.At(id).value.peers, t.clock);
    }
  }

  /** A first peer that leaves a lobby with others between the check and the block still becomes its host. */
  lemma LeaverBecomesHost(s: Lobbies, id: AdvId, u: UserId, v: UserId)
    requires Inv(s) && IsFirstPeer(s, id, u) && v != u && s.At(id).value.HasPeer(v)
    ensures var t := Apply(Apply(s, Unpeer(id, u)), SetHost(id, u));
      t.At(id).Some? && t.At(id).value.hostId == u && !t.At(id).value.HasPeer(u) && t.At(id).value.HasPeer(v)
  {
    hide RemovePeer, Lookup, Inv, Put, ByJoinTime;
    RemovePeerLaws(s, id, u);
    SetHostLaws(RemovePeer(s, id, u), id, u);
  }
}
