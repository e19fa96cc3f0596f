// Switching every profile folder, all or none (launcher-config/internal/userData/profileBackup.go).
module Profiles {
  import opened Wrappers
  import opened FileSystem
  import opened UserDataPath
  import opened Isolation

  /** Active profiles no two of which share a stem, so that none shares a path with another. */
  ghost predicate Separate(profiles: seq<Path>) {
    && (forall i :: 0 <= i < |profiles| ==> TypeOf(profiles[i]) == Active)
    && (forall i, j :: 0 <= i < j < |profiles| ==> TrimExt(profiles[i]) != TrimExt(profiles[j]))
  }

  ghost function AllPlaces(profiles: seq<Path>): set<Path> {
    set i, p | 0 <= i < |profiles| && p in Places(profiles[i]) :: p
  }

  /** Different names without extensions are separate. */
  lemma PlainNamesSeparate(profiles: seq<Path>)
    requires forall i :: 0 <= i < |profiles| ==> Ext(profiles[i]) == ""
    requires forall i, j :: 0 <= i < j < |profiles| ==> profiles[i] != profiles[j]
    ensures Separate(profiles)
  {
    forall i | 0 <= i < |profiles| ensures TrimExt(profiles[i]) == profiles[i] {
      assert profiles[i][..|profiles[i]|] == profiles[i];
    }
  }

  lemma PlacesDisjoint(p: Path, q: Path)
    requires TypeOf(p) == Active && TypeOf(q) == Active && TrimExt(p) != TrimExt(q)
    ensures Places(p) !! Places(q)
  {
    hide Ext, TrimExt, TypeOf, TransformPath;
    TransformCollides(p, q);
    TransformCollides(q, p);
    ActivePaths(p);
    ActivePaths(q);
  }

  lemma ActivePaths(p: Path)
    requires TypeOf(p) == Active
    ensures TransformPath(p, Active, Server) == Some(IsolatedPath(p))
    ensures TransformPath(p, Active, Backup) == Some(OriginalPath(p))
  {
  }

  lemma SeparatePlaces(profiles: seq<Path>, i: nat, j: nat)
    requires Separate(profiles) && i < |profiles| && j < |profiles| && i != j
    ensures Places(profiles[i]) !! Places(profiles[j])
  {
    hide Places, TrimExt, TypeOf;
    PlacesDisjoint(profiles[i], profiles[j]);
  }

  lemma PlacesBefore(profiles: seq<Path>, i: nat)
    requires Separate(profiles) && i < |profiles|
    ensures AllPlaces(profiles[..i + 1]) == AllPlaces(profiles[..i]) + Places(profiles[i])
    ensures AllPlaces(profiles[..i]) !! Places(profiles[i])
  {
    hide Places, TrimExt, TypeOf;
    forall j | 0 <= j < i ensures Places(profiles[j]) !! Places(profiles[i]) {
      SeparatePlaces(profiles, j, i);
    }
    var all := profiles[..i + 1];
    assert forall j :: 0 <= j < i ==> all[j] == profiles[..i][j];
    assert all[i] == profiles[i];
    forall p | p in Places(profiles[i]) ensures p in AllPlaces(all) {
      assert 0 <= i < |all| && p in Places(all[i]);
    }
    forall p | p in AllPlaces(profiles[..i]) ensures p in AllPlaces(all) {
      var j :| 0 <= j < i && p in Places(profiles[..i][j]);
      assert p in Places(all[j]);
    }
  }

  lemma AsideInPlaces(path: Path, d: Direction)
    ensures d.Aside(path) in Places(path)
  {
  }

  /** Profile i was switched at some time and nothing touched its paths before or after. */
  lemma SwitchedFrame(pre: map<Path, Folder>, a: map<Path, Folder>, b: map<Path, Folder>, post: map<Path, Folder>,
                      before: set<Path>, after: set<Path>, path: Path, d: Direction)
    requires SwitchedAt(a, b, path, d)
    requires OnlyAt(pre, a, before) && OnlyAt(b, post, after)
    requires before !! Places(path) && after !! Places(path)
    ensures SwitchedAt(pre, post, path, d)
  {
    assert path in Places(path) && d.Aside(path) in Places(path) && d.Incoming(path) in Places(path);
  }

  lemma OnlyAtTwice(a: map<Path, Folder>, b: map<Path, Folder>, c: map<Path, Folder>, p: set<Path>, q: set<Path>)
    requires OnlyAt(a, b, p) && OnlyAt(b, c, q)
    ensures OnlyAt(a, c, p + q)
  {
    forall x | x !in p + q ensures (x in a <==> x in c) && Look(a, x) == Look(c, x) {
      assert (x in a <==> x in b) && Look(a, x) == Look(b, x);
    }
  }

  lemma OnlyAtSame(m: map<Path, Folder>, at: set<Path>)
    ensures OnlyAt(m, m, at)
  {
  }

  /** Work on one profile stays within the paths of all. */
  lemma OnlyAtMore(a: map<Path, Folder>, b: map<Path, Folder>, c: map<Path, Folder>, profiles: seq<Path>, j: nat)
    requires j < |profiles|
    requires OnlyAt(a, b, AllPlaces(profiles)) && OnlyAt(b, c, Places(profiles[j]))
    ensures OnlyAt(a, c, AllPlaces(profiles))
  {
    hide Places;
    forall p | p in Places(profiles[j]) ensures p in AllPlaces(profiles) {
    }
    hide AllPlaces;
    OnlyAtTwice(a, b, c, AllPlaces(profiles), Places(profiles[j]));
    assert AllPlaces(profiles) + Places(profiles[j]) == AllPlaces(profiles);
  }

  lemma OnlyAtPart(a: map<Path, Folder>, b: map<Path, Folder>, profiles: seq<Path>, i: nat)
    requires i <= |profiles| && OnlyAt(a, b, AllPlaces(profiles[..i]))
    ensures OnlyAt(a, b, AllPlaces(profiles))
  {
    hide Places;
    forall p | p in AllPlaces(profiles[..i]) ensures p in AllPlaces(profiles) {
      var j :| 0 <= j < i && p in Places(profiles[..i][j]);
      assert p in Places(profiles[j]);
    }
  }

  ghost predicate AllSwitched(pre: map<Path, Folder>, post: map<Path, Folder>, profiles: seq<Path>, d: Direction) {
    forall i :: 0 <= i < |profiles| ==> SwitchedAt(pre, post, profiles[i], d)
  }

  /** Contents agree everywhere but at the paths of the profiles still switched. */
  ghost predicate RestoredBut(pre: map<Path, Folder>, post: map<Path, Folder>, profiles: seq<Path>) {
    forall p :: p !in AllPlaces(profiles) ==> Look(pre, p) == Look(post, p)
  }

  /** Undoing the last of the switched profiles. */
  lemma UndoLast(pre: map<Path, Folder>, a: map<Path, Folder>, b: map<Path, Folder>, profiles: seq<Path>, j: nat, d: Direction)
    requires Separate(profiles) && j < |profiles|
    requires AllSwitched(pre, a, profiles[..j + 1], d) && RestoredBut(pre, a, profiles[..j + 1])
    requires OnlyAt(a, b, Places(profiles[j])) && SwitchedAt(a, b, profiles[j], d.Reverse())
    ensures AllSwitched(pre, b, profiles[..j], d) && RestoredBut(pre, b, profiles[..j])
  {
    hide Places, TrimExt, TypeOf, SwitchedAt;
    PlacesBefore(profiles, j);
    assert SwitchedAt(pre, a, profiles[..j + 1][j], d);
    SwitchUndone(pre, a, b, profiles[j], d);
    forall k | 0 <= k < j ensures SwitchedAt(pre, b, profiles[k], d) {
      SeparatePlaces(profiles, k, j);
      assert SwitchedAt(pre, a, profiles[..j + 1][k], d);
      SwitchedFrame(pre, pre, a, b, {}, Places(profiles[j]), profiles[k], d);
    }
    forall p | p !in AllPlaces(profiles[..j]) ensures Look(pre, p) == Look(b, p) {
      if p !in Places(profiles[j]) {
        assert p !in AllPlaces(profiles[..j + 1]);
        assert Look(a, p) == Look(b, p);
      }
    }
  }

  /**
   * The cleanup loop of runProfileMethod, from profile n - 1 down; its results are ignored.
   * whole says that nothing failed in undoing before.
   */
  method CleanUp(fs: FileSystem, profiles: seq<Path>, n: nat, d: Direction, ghost pre: map<Path, Folder>, ghost whole: bool)
    requires Separate(profiles) && n <= |profiles|
    requires whole ==> AllSwitched(pre, fs.folders, profiles[..n], d) && RestoredBut(pre, fs.folders, profiles[..n])
    modifies fs`folders, fs`faults
    ensures fs.faults >= old(fs.faults)
    ensures OnlyAt(old(fs.folders), fs.folders, AllPlaces(profiles))
    ensures whole && fs.faults == old(fs.faults) ==> SameContents(pre, fs.folders)
  {
    hide Places, TrimExt, TypeOf, SwitchedAt, OnlyAt;
    var j := n;
    OnlyAtSame(fs.folders, AllPlaces(profiles));
    while j > 0
      invariant 0 <= j <= n
      invariant fs.faults >= old(fs.faults)
      invariant OnlyAt(old(fs.folders), fs.folders, AllPlaces(profiles))
      invariant whole && fs.faults == old(fs.faults) ==>
        AllSwitched(pre, fs.folders, profiles[..j], d) && RestoredBut(pre, fs.folders, profiles[..j])
    {
      j := j - 1;
      ghost var a, f := fs.folders, fs.faults;
      if whole && f == old(fs.faults) {
        assert SwitchedAt(pre, a, profiles[..j + 1][j], d);
        SwitchUndone(pre, a, a, profiles[j], d);
      }
      var undone, _ := SwitchData(fs, profiles[j], d.Reverse());
      OnlyAtMore(old(fs.folders), a, fs.folders, profiles, j);
      if whole && f == old(fs.faults) && undone {
        UndoLast(pre, a, fs.folders, profiles, j, d);
      }
    }
    assert profiles[..0] == [];
    assert AllPlaces([]) == {};
  }

  /** The contents of one profile, active, isolated and backed up. */
  ghost predicate SameAt(pre: map<Path, Folder>, post: map<Path, Folder>, path: Path) {
    forall p :: p in Places(path) ==> Look(pre, p) == Look(post, p)
  }

  /** Each of the profiles before i was switched, or (unless a rollback failed) has its contents. */
  ghost predicate Settled(pre: map<Path, Folder>, post: map<Path, Folder>, profiles: seq<Path>, i: nat, d: Direction,
                          switched: set<nat>, undone: bool)
    requires i <= |profiles|
  {
    forall k :: 0 <= k < i ==>
      if k in switched then SwitchedAt(pre, post, profiles[k], d) else undone ==> SameAt(pre, post, profiles[k])
  }

  /** Working on profile i leaves the earlier ones as they were settled. */
  lemma SettledStays(pre: map<Path, Folder>, a: map<Path, Folder>, b: map<Path, Folder>, profiles: seq<Path>, i: nat,
                     d: Direction, switched: set<nat>, undone: bool)
    requires Separate(profiles) && i < |profiles|
    requires OnlyAt(a, b, Places(profiles[i]))
    requires Settled(pre, a, profiles, i, d, switched, undone)
    ensures Settled(pre, b, profiles, i, d, switched, undone)
  {
    hide Places, TrimExt, TypeOf, SwitchedAt;
    forall k | 0 <= k < i
      ensures if k in switched then SwitchedAt(pre, b, profiles[k], d) else undone ==> SameAt(pre, b, profiles[k])
    {
      SeparatePlaces(profiles, i, k);
      if k in switched {
        SwitchedFrame(pre, pre, a, b, {}, Places(profiles[i]), profiles[k], d);
      }
    }
  }

  /** What became of profile i: it joins the settled ones. */
  lemma SettleNext(pre: map<Path, Folder>, a: map<Path, Folder>, b: map<Path, Folder>, profiles: seq<Path>, i: nat,
                   d: Direction, switched: set<nat>, undone: bool)
    requires Separate(profiles) && i < |profiles| && i !in switched
    requires OnlyAt(pre, a, AllPlaces(profiles[..i])) && OnlyAt(a, b, Places(profiles[i]))
    requires Settled(pre, a, profiles, i, d, switched, undone)
    ensures OnlyAt(pre, b, AllPlaces(profiles[..i + 1]))
    ensures SwitchedAt(a, b, profiles[i], d) ==> Settled(pre, b, profiles, i + 1, d, switched + {i}, undone)
    ensures SameContents(a, b) || !undone ==> Settled(pre, b, profiles, i + 1, d, switched, undone)
    ensures d.Aside(profiles[i]) in a <==> d.Aside(profiles[i]) in pre
  {
    hide Places, TrimExt, TypeOf, SwitchedAt, AllPlaces;
    PlacesBefore(profiles, i);
    AsideInPlaces(profiles[i], d);
    SettledStays(pre, a, b, profiles, i, d, switched, undone);
    OnlyAtTwice(pre, a, b, AllPlaces(profiles[..i]), Places(profiles[i]));
    if SwitchedAt(a, b, profiles[i], d) {
      SwitchedFrame(pre, a, b, b, AllPlaces(profiles[..i]), {}, profiles[i], d);
    }
    if SameContents(a, b) {
      SameAtNext(pre, a, b, AllPlaces(profiles[..i]), profiles[i]);
    }
    assert d.Aside(profiles[i]) in a <==> d.Aside(profiles[i]) in pre;
    hide OnlyAt, SameContents, SameAt;
  }

  lemma SameAtNext(pre: map<Path, Folder>, a: map<Path, Folder>, b: map<Path, Folder>, at: set<Path>, path: Path)
    requires OnlyAt(pre, a, at) && SameContents(a, b) && at !! Places(path)
    ensures SameAt(pre, b, path)
  {
    forall p | p in Places(path) ensures Look(pre, p) == Look(b, p) {
      assert Look(pre, p) == Look(a, p) && Look(a, p) == Look(b, p);
    }
  }

  /** With every profile so far switched, a failed switch of the next leaves the rest as it was. */
  lemma ReadyToUndo(pre: map<Path, Folder>, a: map<Path, Folder>, b: map<Path, Folder>, profiles: seq<Path>, i: nat,
                    d: Direction, switched: set<nat>)
    requires Separate(profiles) && i < |profiles|
    requires OnlyAt(pre, a, AllPlaces(profiles[..i])) && OnlyAt(a, b, Places(profiles[i])) && SameContents(a, b)
    requires Settled(pre, a, profiles, i, d, switched, true) && forall k: nat :: k < i ==> k in switched
    ensures AllSwitched(pre, b, profiles[..i], d) && RestoredBut(pre, b, profiles[..i])
  {
    hide Places, TrimExt, TypeOf, SwitchedAt;
    SettledStays(pre, a, b, profiles, i, d, switched, true);
    forall p | p !in AllPlaces(profiles[..i]) ensures Look(pre, p) == Look(b, p) {
      assert Look(pre, p) == Look(a, p) && Look(a, p) == Look(b, p);
    }
  }

  /**
   * runProfileMethod over the listed profiles; the listing itself may fail. undoFaults counts what failed while undoing:
   * in the rollback of a profile that could not be switched, and in the cleanup.
   */
  method RunProfileMethod(fs: FileSystem, profiles: seq<Path>, d: Direction, stopOnFailed: bool)
    returns (ok: bool, ghost undoFaults: nat, ghost switched: set<nat>)
    requires Separate(profiles)
    modifies fs`folders, fs`faults
    ensures fs.faults >= old(fs.faults) + undoFaults
    ensures OnlyAt(old(fs.folders), fs.folders, AllPlaces(profiles))
    ensures ok ==> Settled(old(fs.folders), fs.folders, profiles, |profiles|, d, switched, undoFaults == 0)
    ensures ok && stopOnFailed ==> AllSwitched(old(fs.folders), fs.folders, profiles, d)
    ensures !ok && undoFaults == 0 ==> SameContents(old(fs.folders), fs.folders)
    ensures stopOnFailed && fs.faults == old(fs.faults) ==>
      (ok <==> forall i :: 0 <= i < |profiles| ==> d.Aside(profiles[i]) !in old(fs.folders))
    ensures !stopOnFailed && fs.faults == old(fs.faults) ==>
      ok && forall i :: 0 <= i < |profiles| ==> (i in switched <==> d.Aside(profiles[i]) !in old(fs.folders))
  {
    hide Places, TrimExt, TypeOf, SwitchedAt, OnlyAt, SameContents, AllPlaces, RestoredBut;
    ghost var pre := fs.folders;
    undoFaults, switched := 0, {};
    var unlisted := fs.Fails();
    if unlisted {
      NothingChanged(pre);
      OnlyAtSame(pre, AllPlaces(profiles));
      return false, 0, {};
    }
    NothingYet(pre, profiles);
    for i := 0 to |profiles|
      invariant fs.faults >= old(fs.faults) + undoFaults
      invariant OnlyAt(pre, fs.folders, AllPlaces(profiles[..i]))
      invariant Settled(pre, fs.folders, profiles, i, d, switched, undoFaults == 0)
      invariant forall k :: k in switched ==> k < i
      invariant fs.faults == old(fs.faults) && stopOnFailed ==>
        forall k :: 0 <= k < i ==> d.Aside(profiles[k]) !in pre
      invariant stopOnFailed ==> undoFaults == 0 && forall k: nat :: k < i ==> k in switched
      invariant fs.faults == old(fs.faults) ==>
        forall k :: 0 <= k < i ==> (k in switched <==> d.Aside(profiles[k]) !in pre)
    {
      ghost var a := fs.folders;
      var done, faults := SwitchData(fs, profiles[i], d);
      SettleNext(pre, a, fs.folders, profiles, i, d, switched, undoFaults == 0);
      if done {
        switched := switched + {i};
      } else if !stopOnFailed {
        SettledStays(pre, a, fs.folders, profiles, i, d, switched, undoFaults == 0);
        undoFaults := undoFaults + faults;
      } else {
        ghost var c := fs.faults;
        if faults == 0 {
          ReadyToUndo(pre, a, fs.folders, profiles, i, d, switched);
        }
        OnlyAtPart(pre, fs.folders, profiles, i + 1);
        ghost var b := fs.folders;
        CleanUp(fs, profiles, i, d, pre, faults == 0);
        OnlyAtTwice(pre, b, fs.folders, AllPlaces(profiles), AllPlaces(profiles));
        assert AllPlaces(profiles) + AllPlaces(profiles) == AllPlaces(profiles);
        undoFaults := faults + (fs.faults - c);
        return false, undoFaults, {};
      }
    }
    assert profiles[..|profiles|] == profiles;
    ok := true;
  }

  lemma NothingChanged(pre: map<Path, Folder>)
    ensures SameContents(pre, pre)
  {
  }

  lemma NothingYet(pre: map<Path, Folder>, profiles: seq<Path>)
    ensures OnlyAt(pre, pre, AllPlaces(profiles[..0]))
  {
  }

  /** The profiles are the active entries of their folder, as setProfileData lists them. */
  ghost predicate Listed(profiles: seq<Path>, folders: map<Path, Folder>, inFolder: Path -> bool) {
    forall p :: p in profiles <==> p in folders && inFolder(p) && TypeOf(p) == Active
  }

  lemma OnlyActiveOne(path: Path, p: Path)
    requires TypeOf(path) == Active && p in Places(path) && TypeOf(p) == Active
    ensures p == path
  {
    hide TypeOf, TrimExt, Ext, Suffix;
    SuffixedType(TrimExt(path), Server);
    SuffixedType(TrimExt(path), Backup);
  }

  /** Switching all the profiles leaves the listing as it was, so the undo works on the same ones. */
  lemma ListingKept(pre: map<Path, Folder>, post: map<Path, Folder>, profiles: seq<Path>, inFolder: Path -> bool, d: Direction)
    requires Separate(profiles) && Listed(profiles, pre, inFolder)
    requires AllSwitched(pre, post, profiles, d) && OnlyAt(pre, post, AllPlaces(profiles))
    ensures Listed(profiles, post, inFolder)
  {
    hide TypeOf, TrimExt, Places;
    forall p | p in profiles ensures p in post && inFolder(p) && TypeOf(p) == Active {
      var i :| 0 <= i < |profiles| && profiles[i] == p;
      assert SwitchedAt(pre, post, profiles[i], d);
    }
    forall p | p in post && inFolder(p) && TypeOf(p) == Active ensures p in profiles {
      if i :| 0 <= i < |profiles| && p in Places(profiles[i]) {
        OnlyActiveOne(profiles[i], p);
      } else {
        assert p !in AllPlaces(profiles);
        assert p in pre;
      }
    }
  }
}
