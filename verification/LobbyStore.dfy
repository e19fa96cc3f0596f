// The lobby store and its handlers on the objects themselves: an ordered map of lobbies,
// each with an ordered map of peers (server/internal/models/advertisement.go and the
// handlers under server/internal/routes/game). They refine the lobbies of module Lobby.
module LobbyStore {
  import opened Wrappers
  import opened OrderedMap
  import opened Lobby

  class MainAdvertisement {
    var hostId: UserId
    const party: int
    const peers: SafeOrderedMap<UserId, nat>

    constructor (hostId: UserId, party: int)
      ensures fresh(Objects()) && Is(Adv(hostId, party, []))
    {
      this.hostId, this.party := hostId, party;
      peers := new SafeOrderedMap();
    }

    ghost function Objects(): set<object>
      reads this, peers
    {
      {this, peers, peers.data, peers.ro}
    }

    /** The object stands for this lobby. */
    ghost predicate Is(adv: Adv)
      reads this, peers, peers.data, peers.ro
    {
      peers.Valid() && hostId == adv.hostId && party == adv.party && peers.Pairs() == adv.peers
    }
  }

  /** The objects stand for the lobbies, key by key, and share nothing with each other. */
  ghost predicate Holds(pairs: seq<(AdvId, MainAdvertisement)>, advs: seq<(AdvId, Adv)>, repr: set<object>)
    reads repr
  {
    && |pairs| == |advs|
    && (forall i :: 0 <= i < |pairs| ==>
          && pairs[i].0 == advs[i].0
          && pairs[i].1 in repr && pairs[i].1.peers in repr && pairs[i].1.Objects() <= repr
          && pairs[i].1.Is(advs[i].1))
    && (forall i, j :: 0 <= i < j < |pairs| ==> pairs[i].1.Objects() !! pairs[j].1.Objects())
  }

  lemma PositionSame<A, B>(ps: seq<(AdvId, A)>, qs: seq<(AdvId, B)>, id: AdvId)
    requires |ps| == |qs| && forall i :: 0 <= i < |ps| ==> ps[i].0 == qs[i].0
    ensures PositionOf(ps, id) == PositionOf(qs, id)
  {
    assert KeysOf(ps) == KeysOf(qs);
    PositionOfKeys(ps, id);
    PositionOfKeys(qs, id);
  }

  function PositionIn(keys: seq<AdvId>, id: AdvId): nat {
    if keys == [] || keys[0] == id then 0 else 1 + PositionIn(keys[1..], id)
  }

  lemma {:induction false} PositionOfKeys<A>(ps: seq<(AdvId, A)>, id: AdvId)
    ensures PositionOf(ps, id) == PositionIn(KeysOf(ps), id)
  {
    if ps != [] {
      PositionOfKeys(ps[1..], id);
      assert KeysOf(ps)[1..] == KeysOf(ps[1..]);
    }
  }

  /** Adds a peer to one lobby's object; no other object stands for anything else after it. */
  method StorePeer(adv: MainAdvertisement, u: UserId, clock: nat,
                   ghost pairs: seq<(AdvId, MainAdvertisement)>, ghost advs: seq<(AdvId, Adv)>,
                   ghost repr: set<object>, ghost i: nat)
    requires Holds(pairs, advs, repr) && i < |pairs| && pairs[i].1 == adv
    modifies adv.peers, adv.peers.data
    ensures fresh({adv.peers.ro} - repr)
    ensures Holds(pairs, advs[i := (pairs[i].0, advs[i].1.(peers := StorePair(advs[i].1.peers, u, clock, (_: nat) => false)))],
                  repr + {adv.peers.ro})
  {
    hide StorePair, PositionOf, Lookup, Unique, SafeOrderedMap.Valid, SafeOrderedMap.Pairs;
    var _, _ := adv.peers.Store(u, clock, (_: nat) => false);
    forall j | 0 <= j < |pairs| && j != i
      ensures pairs[j].1.Is(advs[j].1) && pairs[j].1.Objects() == old(pairs[j].1.Objects())
    {
      assert old(pairs[i].1.Objects()) !! old(pairs[j].1.Objects());
    }
  }

  /** Removes a peer from one lobby's object; no other object stands for anything else after it. */
  method DeletePeer(adv: MainAdvertisement, u: UserId,
                    ghost pairs: seq<(AdvId, MainAdvertisement)>, ghost advs: seq<(AdvId, Adv)>,
                   ghost repr: set<object>, ghost i: nat)
    returns (existed: bool, left: nat)
    requires Holds(pairs, advs, repr) && i < |pairs| && pairs[i].1 == adv
    modifies adv.peers, adv.peers.data
    ensures fresh({adv.peers.ro} - repr)
    ensures existed <==> advs[i].1.HasPeer(u)
    ensures left == |DeletePair(advs[i].1.peers, u)|
    ensures Holds(pairs, advs[i := (pairs[i].0, advs[i].1.(peers := DeletePair(advs[i].1.peers, u)))], repr + {adv.peers.ro})
  {
    hide DeletePair, PositionOf, Lookup, Unique, SafeOrderedMap.Valid, SafeOrderedMap.Pairs;
    existed := adv.peers.Delete(u);
    forall j | 0 <= j < |pairs| && j != i
      ensures pairs[j].1.Is(advs[j].1) && pairs[j].1.Objects() == old(pairs[j].1.Objects())
    {
      assert old(pairs[i].1.Objects()) !! old(pairs[j].1.Objects());
    }
    left := adv.peers.Len();
  }

  /** Hands one lobby's object to another host. */
  method SetHostId(adv: MainAdvertisement, u: UserId,
                   ghost pairs: seq<(AdvId, MainAdvertisement)>, ghost advs: seq<(AdvId, Adv)>,
                   ghost repr: set<object>, ghost i: nat)
    requires Holds(pairs, advs, repr) && i < |pairs| && pairs[i].1 == adv
    modifies adv`hostId
    ensures Holds(pairs, advs[i := (pairs[i].0, advs[i].1.(hostId := u))], repr)
  {
    adv.hostId := u;
    forall j | 0 <= j < |pairs| && j != i ensures pairs[j].1.Is(advs[j].1) {
      assert old(pairs[i].1.Objects()) !! old(pairs[j].1.Objects());
    }
  }

  /** A new object behind the others. */
  lemma HoldsNew(pairs: seq<(AdvId, MainAdvertisement)>, advs: seq<(AdvId, Adv)>, repr: set<object>,
                 id: AdvId, a: MainAdvertisement, adv: Adv)
    requires Holds(pairs, advs, repr) && a.Is(adv) && a.Objects() !! repr
    ensures Holds(pairs + [(id, a)], advs + [(id, adv)], repr + a.Objects())
  {
  }

  /** The objects but the one at a place. */
  lemma HoldsWithout(pairs: seq<(AdvId, MainAdvertisement)>, advs: seq<(AdvId, Adv)>, repr: set<object>, i: nat)
    requires Holds(pairs, advs, repr) && i < |pairs|
    ensures Holds(pairs[..i] + pairs[i + 1..], advs[..i] + advs[i + 1..], repr)
  {
    var ps, qs := pairs[..i] + pairs[i + 1..], advs[..i] + advs[i + 1..];
    assert forall j :: 0 <= j < |ps| ==> ps[j] == pairs[if j < i then j else j + 1] && qs[j] == advs[if j < i then j else j + 1];
  }

  /** A peer added to a stored lobby, at the lobby's place in the store. */
  lemma NewPeerAt(s: Lobbies, id: AdvId, u: UserId)
    requires Unique(s.store) && s.At(id).Some?
    ensures var i := PositionOf(s.store, id); var t := NewPeer(s, id, u);
      && i < |s.store| && s.store[i].0 == id && s.At(id) == Some(s.store[i].1)
      && t.store == s.store[i := (id, s.store[i].1.(peers := StorePair(s.store[i].1.peers, u, s.clock, (_: nat) => false)))]
      && Unique(t.store) && t.clock == s.clock + 1
  {
    hide StorePair;
    PutAt(s, id, s.At(id).value.(peers := StorePair(s.At(id).value.peers, u, s.clock, (_: nat) => false)));
    PutPlace(s, id, s.At(id).value.(peers := StorePair(s.At(id).value.peers, u, s.clock, (_: nat) => false)));
    hide Put, Unique;
  }

  lemma PutPlace(s: Lobbies, id: AdvId, adv: Adv)
    requires s.At(id).Some?
    ensures Put(s, id, adv) == s.(store := s.store[PositionOf(s.store, id) := (id, adv)])
  {
  }

  /** A lobby stays while peers are added to it. */
  lemma {:induction false} NewPeersStay(s: Lobbies, id: AdvId, users: seq<UserId>)
    requires Unique(s.store) && s.At(id).Some?
    ensures Unique(NewPeers(s, id, users).store) && NewPeers(s, id, users).At(id).Some?
  {
    if users != [] {
      NewPeersStay(s, id, users[..|users| - 1]);
      var before := NewPeers(s, id, users[..|users| - 1]);
      var adv := before.At(id).value;
      PutAt(before, id, adv.(peers := StorePair(adv.peers, users[|users| - 1], before.clock, (_: nat) => false)));
      hide Put, StorePair, Unique, Lookup;
    }
  }

  lemma NewPeerPending(s: Lobbies, id: AdvId, u: UserId)
    ensures NewPeer(s, id, u).pending == s.pending
  {
  }

  lemma NoNewPeer(s: Lobbies, id: AdvId, u: UserId)
    requires s.At(id).None?
    ensures NewPeer(s, id, u) == s
  {
  }

  /** A peer removed from a stored lobby, at the lobby's place in the store. */
  lemma RemovePeerAt(s: Lobbies, id: AdvId, u: UserId)
    requires Unique(s.store) && s.At(id).Some?
    ensures var i := PositionOf(s.store, id); var t := RemovePeer(s, id, u);
      && i < |s.store| && s.store[i].0 == id && s.At(id) == Some(s.store[i].1)
      && var peers := DeletePair(s.store[i].1.peers, u);
         && Unique(t.store) && t.clock == s.clock
         && t.store ==
            (if !s.store[i].1.HasPeer(u) then s.store
             else if peers == [] then s.store[..i] + s.store[i + 1..]
             else s.store[i := (id, s.store[i].1.(peers := peers))])
         && (!s.store[i].1.HasPeer(u) ==> t == s && peers == s.store[i].1.peers)
  {
    var adv := s.At(id).value;
    var peers := DeletePair(adv.peers, u);
    if adv.HasPeer(u) {
      if peers == [] {
        DropAt(s, id);
      } else {
        PutAt(s, id, adv.(peers := peers));
        PutPlace(s, id, adv.(peers := peers));
        hide Put, DeletePair, Unique;
      }
    }
  }

  lemma NoRemovedPeer(s: Lobbies, id: AdvId, u: UserId)
    requires s.At(id).None?
    ensures RemovePeer(s, id, u) == s
  {
  }

  /** A lobby stored under a free id goes last. */
  lemma HostStoreAt(s: Lobbies, id: AdvId, u: UserId, party: int)
    requires Unique(s.store) && s.At(id).None?
    ensures var t := Apply(s, HostStore(id, u, party));
      Unique(t.store) && t.store == s.store + [(id, Adv(u, party, []))] && t.clock == s.clock && t.At(id).Some?
  {
    PutAt(s, id, Adv(u, party, []));
  }

  lemma SetHostAt(s: Lobbies, id: AdvId, u: UserId)
    requires Unique(s.store) && s.At(id).Some?
    ensures var i := PositionOf(s.store, id); var t := Apply(s, SetHost(id, u));
      && i < |s.store| && s.store[i].0 == id && Unique(t.store) && t.clock == s.clock
      && t.store == s.store[i := (id, s.store[i].1.(hostId := u))]
  {
    PutAt(s, id, s.At(id).value.(hostId := u));
    PutPlace(s, id, s.At(id).value.(hostId := u));
    hide Put, Unique;
  }

  lemma DeletePairAt<V>(ps: seq<(AdvId, V)>, id: AdvId, i: nat)
    requires i == PositionOf(ps, id) < |ps|
    ensures DeletePair(ps, id) == ps[..i] + ps[i + 1..]
  {
  }

  lemma StorePairNew<V>(ps: seq<(AdvId, V)>, id: AdvId, value: V, replace: V -> bool)
    requires PositionOf(ps, id) == |ps|
    ensures StorePair(ps, id, value, replace) == ps + [(id, value)]
  {
  }

  class MainAdvertisements {
    const store: SafeOrderedMap<AdvId, MainAdvertisement>
    // stands for the moment of joining, which peers are stored with
    var clock: nat
    ghost var lobbies: Lobbies
    ghost var repr: set<object>

    ghost predicate Valid()
      reads this, store, store.data, store.ro, repr
    {
      && Apart() && store.Valid() && Unique(lobbies.store) && lobbies.clock == clock
      && Holds(store.Pairs(), lobbies.store, repr)
    }

    /** The lobbies' objects are not those of the store itself. */
    ghost predicate Apart()
      reads this, store
    {
      this !in repr && store !in repr && store.data !in repr && store.ro !in repr
    }

    constructor ()
      ensures Valid() && fresh(store) && fresh(store.data) && fresh(store.ro) && repr == {} && lobbies == Empty()
    {
      store := new SafeOrderedMap();
      clock, lobbies, repr := 0, Empty(), {};
    }

    /** The object of a lobby, at the lobby's place in the store. */
    method GetAdvertisement(id: AdvId) returns (adv: Option<MainAdvertisement>)
      requires Valid()
      ensures adv.Some? <==> lobbies.At(id).Some?
      ensures adv.Some? ==>
        var i := PositionOf(lobbies.store, id);
        && i < |lobbies.store| && PositionOf(store.Pairs(), id) == i < |store.Pairs()| && store.Pairs()[i] == (id, adv.value)
        && adv.value in repr && adv.value.Objects() <= repr && lobbies.At(id) == Some(lobbies.store[i].1)
        && adv.value.Is(lobbies.store[i].1)
    {
      PositionSame(store.Pairs(), lobbies.store, id);
      adv := store.Load(id);
    }

    method UnsafeNewPeer(id: AdvId, u: UserId) returns (added: bool)
      requires Valid()
      modifies this`clock, this`lobbies, this`repr, repr
      ensures Valid() && fresh(repr - old(repr))
      ensures lobbies == NewPeer(old(lobbies), id, u)
      ensures added <==> old(lobbies).At(id).Some?
    {
      hide Holds, NewPeer, StorePair, PositionOf, Unique, Lookup, SafeOrderedMap.Valid, SafeOrderedMap.Pairs;
      var found := GetAdvertisement(id);
      if found.None? {
        NoNewPeer(lobbies, id, u);
        return false;
      }
      NewPeerAt(lobbies, id, u);
      StorePeer(found.value, u, clock, store.Pairs(), lobbies.store, repr, PositionOf(lobbies.store, id));
      repr := repr + {found.value.peers.ro};
      lobbies := NewPeer(lobbies, id, u);
      clock := clock + 1;
      added := true;
    }

    /** The lobby goes with its last peer. */
    method UnsafeRemovePeer(id: AdvId, u: UserId) returns (removed: bool)
      requires Valid()
      modifies this`lobbies, this`repr, store, store.data, repr
      ensures Valid() && fresh(repr - old(repr))
      ensures lobbies == RemovePeer(old(lobbies), id, u)
      ensures removed <==> old(lobbies).At(id).Some? && old(lobbies).At(id).value.HasPeer(u)
    {
      hide Holds, RemovePeer, DeletePair, PositionOf, Unique, Lookup, SafeOrderedMap.Valid, SafeOrderedMap.Pairs, Adv.HasPeer;
      var found := GetAdvertisement(id);
      if found.None? {
        NoRemovedPeer(lobbies, id, u);
        return false;
      }
      RemovePeerAt(lobbies, id, u);
      ghost var i, advs := PositionOf(lobbies.store, id), lobbies.store;
      var existed, left := DeletePeer(found.value, u, store.Pairs(), lobbies.store, repr, i);
      repr := repr + {found.value.peers.ro};
      lobbies := RemovePeer(lobbies, id, u);
      if !existed {
        assert advs[i := (id, advs[i].1)] == advs;
        return false;
      }
      if left == 0 {
        UnsafeDelete(id, advs[i := (id, advs[i].1.(peers := []))], i);
        assert advs[i := (id, advs[i].1.(peers := []))][..i] == advs[..i];
        assert advs[i := (id, advs[i].1.(peers := []))][i + 1..] == advs[i + 1..];
      }
      removed := true;
    }

    /** Takes a lobby out of the store. */
    method UnsafeDelete(id: AdvId, ghost advs: seq<(AdvId, Adv)>, ghost i: nat)
      requires Apart() && store.Valid() && Holds(store.Pairs(), advs, repr)
      requires i < |advs| && PositionOf(store.Pairs(), id) == i
      modifies store, store.data
      ensures Apart() && store.Valid() && Holds(store.Pairs(), advs[..i] + advs[i + 1..], repr)
    {
      ghost var pairs := store.Pairs();
      HoldsWithout(pairs, advs, repr, i);
      DeletePairAt(pairs, id, i);
      var _ := store.Delete(id);
      HoldsWithout(pairs, advs, repr, i);
    }

    lemma IdsUnique()
      requires Valid()
      ensures Unique(lobbies.store)
    {
    }

    lemma NotStored(id: AdvId)
      requires Valid() && lobbies.At(id).None?
      ensures PositionOf(store.Pairs(), id) == |store.Pairs()|
    {
      PositionSame(store.Pairs(), lobbies.store, id);
    }

    /** Stores a new lobby without peers; newId is a random id not in use. */
    method Store(newId: AdvId, u: UserId, party: int)
      requires Valid() && lobbies.At(newId).None?
      modifies this`lobbies, this`repr, store, store.data
      ensures Valid() && fresh(repr - old(repr))
      ensures lobbies == Apply(old(lobbies), HostStore(newId, u, party)) && lobbies.At(newId).Some?
    {
      hide Holds, Apply, PositionOf, Unique, Lookup, Put, StorePair, Lobbies.At, SafeOrderedMap.Valid, SafeOrderedMap.Pairs,
        MainAdvertisement.Is, MainAdvertisement.Objects;
      NotStored(newId);
      HostStoreAt(lobbies, newId, u, party);
      ghost var objects := PutNew(newId, u, party, lobbies.store);
      repr := repr + objects;
      lobbies := Apply(lobbies, HostStore(newId, u, party));
    }

    /** Puts a new object, which shares nothing with the others, behind them. */
    method PutNew(newId: AdvId, u: UserId, party: int, ghost advs: seq<(AdvId, Adv)>) returns (ghost objects: set<object>)
      requires Apart() && store.Valid() && Holds(store.Pairs(), advs, repr)
      requires PositionOf(store.Pairs(), newId) == |store.Pairs()|
      modifies store, store.data
      ensures fresh(objects) && store.Valid() && Apart()
      ensures store !in objects && store.data !in objects && store.ro !in objects
      ensures Holds(store.Pairs(), advs + [(newId, Adv(u, party, []))], repr + objects)
    {
      hide Holds, StorePair, PositionOf, SafeOrderedMap.Valid, SafeOrderedMap.Pairs, MainAdvertisement.Is;
      ghost var pairs := store.Pairs();
      var adv := new MainAdvertisement(u, party);
      objects := adv.Objects();
      var never := (_: MainAdvertisement) => false;
      StorePairNew(pairs, newId, adv, never);
      var _, _ := store.Store(newId, adv, never);
      HoldsNew(pairs, advs, repr, newId, adv, Adv(u, party, []));
    }

    /** Walks the lobbies in order and, in each, the peers in order. */
    method GetUserAdvertisement(u: UserId) returns (found: Option<AdvId>)
      requires Valid()
      ensures found == UserAdvertisement(lobbies.store, u)
    {
      var _, snapshot := store.Iter();
      var advs := snapshot.Iterate();
      var i := 0;
      while i < |advs|
        invariant i <= |advs|
        invariant UserAdvertisement(lobbies.store, u) == UserAdvertisement(lobbies.store[i..], u)
      {
        var adv := advs[i].1;
        var has := HasPeer(adv, u, lobbies.store[i].1);
        if has {
          return Some(advs[i].0);
        }
        i := i + 1;
      }
      found := None;
    }

    method HasPeer(adv: MainAdvertisement, u: UserId, ghost value: Adv) returns (has: bool)
      requires adv.Is(value)
      ensures has <==> value.HasPeer(u)
    {
      var _, snapshot := adv.peers.Iter();
      var peers := snapshot.Iterate();
      for j := 0 to |peers|
        invariant forall k :: 0 <= k < j ==> peers[k].0 != u
      {
        if peers[j].0 == u {
          assert PositionOf(peers, u) <= j;
          return true;
        }
      }
      has := false;
    }

    // ---------- the handlers ----------

    method LeaveExisting(u: UserId)
      requires Valid()
      modifies this`lobbies, this`repr, store, store.data, repr
      ensures Valid() && fresh(repr - old(repr))
      ensures lobbies == LeaveCurrent(old(lobbies), u)
    {
      hide UserAdvertisement, RemovePeer;
      var existing := GetUserAdvertisement(u);
      hide MainAdvertisements.Valid;
      if existing.Some? {
        var _ := UnsafeRemovePeer(existing.value, u);
      }
    }

    /** newId is the first random id not in use; the party check answers with an error but does not stop. */
    method Host(g: Game, u: UserId, newId: AdvId, party: int) returns (ok: bool)
      requires Valid()
      modifies this, store, store.data, repr
      ensures Valid() && fresh(repr - old(repr))
      ensures lobbies == Handle(g, old(lobbies), Request.Host(u, newId, party))
      ensures ok <==> LeaveOld(g, old(lobbies), u).At(newId).None?
    {
      hide MainAdvertisements.Valid, LeaveCurrent, Lookup, Put, NewPeer, PositionOf, StorePair, Unique, SafeOrderedMap.Pairs,
        SafeOrderedMap.Valid, MainAdvertisement.Is, MainAdvertisement.Objects;
      if g != AoE4 {
        LeaveExisting(u);
      }
      var taken := GetAdvertisement(newId);
      if taken.Some? {
        return false;
      }
      Store(newId, u, party);
      NewPeerPending(lobbies, newId, u);
      ok := UnsafeNewPeer(newId, u);
      HostAdded(newId);
    }

    /** The request that stored the lobby has added its first peer. */
    ghost method HostAdded(newId: AdvId)
      requires Valid()
      modifies this`lobbies
      ensures Valid() && lobbies == old(lobbies).(pending := old(lobbies).pending - multiset{newId})
    {
      lobbies := lobbies.(pending := lobbies.pending - multiset{newId});
    }

    /** The check of the lobby's own settings only leaves its closure, so it admits everyone. */
    method Join(g: Game, u: UserId, id: AdvId, party: int) returns (ok: bool)
      requires Valid()
      modifies this, store, store.data, repr
      ensures Valid() && fresh(repr - old(repr))
      ensures lobbies == Handle(g, old(lobbies), Request.Join(u, id, party))
      ensures ok <==> Joinable(LeaveOld(g, old(lobbies), u), id, party)
    {
      hide MainAdvertisements.Valid, LeaveCurrent, Put, NewPeer, PositionOf;
      if g != AoE4 {
        LeaveExisting(u);
      }
      var adv := GetAdvertisement(id);
      if adv.None? {
        return false;
      }
      if party != -1 && party != adv.value.party {
        return false;
      }
      ok := UnsafeNewPeer(id, u);
    }

    method Leave(g: Game, u: UserId, id: AdvId) returns (ok: bool)
      requires Valid()
      modifies this`lobbies, this`repr, store, store.data, repr
      ensures Valid() && fresh(repr - old(repr))
      ensures lobbies == Handle(g, old(lobbies), Request.Leave(u, id))
      ensures ok <==> old(lobbies).At(id).Some? && old(lobbies).At(id).value.HasPeer(u)
    {
      ok := UnsafeRemovePeer(id, u);
    }

    method Logout(g: Game, u: UserId)
      requires Valid()
      modifies this`lobbies, this`repr, store, store.data, repr
      ensures Valid() && fresh(repr - old(repr))
      ensures lobbies == Handle(g, old(lobbies), Request.Logout(u))
    {
      LeaveExisting(u);
    }

    method UpdateHost(g: Game, u: UserId, id: AdvId) returns (ok: bool)
      requires Valid()
      modifies this`lobbies, repr
      ensures Valid() && repr == old(repr)
      ensures lobbies == Handle(g, old(lobbies), Request.UpdateHost(u, id))
      ensures ok <==> IsFirstPeer(old(lobbies), id, u)
    {
      hide MainAdvertisements.Valid, Apply, PositionOf, SafeOrderedMap.Pairs, SafeOrderedMap.Valid, MainAdvertisement.Is;
      var found := GetAdvertisement(id);
      if found.None? {
        return false;
      }
      var first := FirstPeer(found.value, lobbies.At(id).value);
      if first != Some(u) {
        return false;
      }
      Elect(found.value, id, u);
      ok := true;
    }

    method FirstPeer(adv: MainAdvertisement, ghost value: Adv) returns (u: Option<UserId>)
      requires adv.Is(value)
      ensures u == if value.peers == [] then None else Some(value.peers[0].0)
    {
      var first := adv.peers.First();
      u := if first.None? then None else Some(first.value.0);
    }

    /** The block of UpdateHost; nothing is written when the user is the host already. */
    method Elect(adv: MainAdvertisement, id: AdvId, u: UserId)
      requires Valid() && lobbies.At(id).Some?
      requires var i := PositionOf(lobbies.store, id);
        && i < |lobbies.store| && i < |store.Pairs()| && store.Pairs()[i] == (id, adv)
        && adv in repr && adv.Is(lobbies.store[i].1)
      modifies this`lobbies, adv`hostId
      ensures Valid() && lobbies == Apply(old(lobbies), SetHost(id, u))
    {
      hide Holds, Apply, PositionOf, Unique, Lookup, SafeOrderedMap.Valid, SafeOrderedMap.Pairs;
      SetHostAt(lobbies, id, u);
      ghost var i := PositionOf(lobbies.store, id);
      assert adv.hostId == lobbies.store[i].1.hostId;
      hide MainAdvertisement.Is;
      if adv.hostId == u {
        assert lobbies.store[i := (id, lobbies.store[i].1.(hostId := u))] == lobbies.store;
      } else {
        SetHostId(adv, u, store.Pairs(), lobbies.store, repr, i);
      }
      lobbies := Apply(lobbies, SetHost(id, u));
    }

    /** PeerAdd's block. Adding cannot fail half-way while the lobby is locked, so nothing is ever rolled back. */
    method AddPeers(id: AdvId, current: UserId, users: seq<UserId>, known: set<UserId>) returns (ok: bool)
      requires Valid()
      modifies this, repr
      ensures Valid() && fresh(repr - old(repr))
      ensures lobbies == PeerAdd(old(lobbies), id, current, users, known)
      ensures ok <==> AddsPeers(old(lobbies), id, current, users, known)
    {
      hide NewPeer, PositionOf, Unique, MainAdvertisements.Valid;
      ghost var s := lobbies;
      IdsUnique();
      var adv := GetAdvertisement(id);
      if adv.None? || adv.value.hostId != current {
        return false;
      }
      for j := 0 to |users|
        invariant forall k :: 0 <= k < j ==> users[k] in known
      {
        if users[j] !in known {
          return false;
        }
      }
      for j := 0 to |users|
        invariant Valid() && fresh(repr - old(repr))
        invariant lobbies == NewPeers(s, id, users[..j])
      {
        NewPeersStay(s, id, users[..j]);
        assert users[..j + 1][..j] == users[..j];
        var added := UnsafeNewPeer(id, users[j]);
        if !added {
          assert false;
        }
      }
      assert users[..|users|] == users;
      ok := true;
    }
  }
}
