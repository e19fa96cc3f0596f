// The build targets of an archive made of several others
// (tools/scripts/internal/goreleaser/archive.go, binary.go).
module Targets {
  import opened Wrappers

  type OperatingSystem = string
  type Architecture = string

  /** For each system and architecture, the instruction sets built; none named means all. */
  type TargetMap = map<OperatingSystem, map<Architecture, set<string>>>

  /** What a target map builds. */
  predicate Covers(t: TargetMap, os: OperatingSystem, arch: Architecture, inst: string) {
    os in t && arch in t[os] && (t[os][arch] == {} || inst in t[os][arch])
  }

  /** Which architectures and instruction sets exist. */
  datatype Support = Support(archs: OperatingSystem -> set<Architecture>, instructions: Architecture -> set<string>)

  /** No system without an architecture. */
  ghost predicate Tidy(t: TargetMap) {
    forall os :: os in t ==> t[os] != map[]
  }

  /** Only targets that exist. */
  ghost predicate Supported(s: Support, t: TargetMap) {
    forall os :: os in t ==> forall arch :: arch in t[os] ==>
      arch in s.archs(os) && t[os][arch] <= s.instructions(arch)
  }

  /** Adds to the set at a target, making room for it first. */
  function AddTo(t: TargetMap, os: OperatingSystem, arch: Architecture, insts: set<string>): TargetMap {
    var withOs := if os in t then t else t[os := map[]];
    var archs := if arch in withOs[os] then withOs[os] else withOs[os][arch := {}];
    withOs[os := archs[arch := archs[arch] + insts]]
  }

  /** Instruction sets are added to those at the target, if any, and no other target changes. */
  lemma AddToAdds(t: TargetMap, os: OperatingSystem, arch: Architecture, insts: set<string>)
    ensures var u := AddTo(t, os, arch, insts);
      && u.Keys == t.Keys + {os}
      && (forall o :: o in t && o != os ==> u[o] == t[o])
      && u[os].Keys == (if os in t then t[os].Keys else {}) + {arch}
      && (os in t ==> forall a :: a in t[os] && a != arch ==> u[os][a] == t[os][a])
      && u[os][arch] == (if os in t && arch in t[os] then t[os][arch] else {}) + insts
  {
  }

  lemma AddToKeeps(s: Support, t: TargetMap, os: OperatingSystem, arch: Architecture, insts: set<string>)
    requires Tidy(t) && Supported(s, t)
    requires arch in s.archs(os) && insts <= s.instructions(arch)
    ensures Tidy(AddTo(t, os, arch, insts)) && Supported(s, AddTo(t, os, arch, insts))
  {
    var u := AddTo(t, os, arch, insts);
    assert arch in u[os];
    forall o | o in u ensures forall a :: a in u[o] ==> a in s.archs(o) && u[o][a] <= s.instructions(a) {
      if o != os {
        assert u[o] == t[o];
      } else if os in t {
        forall a | a in u[o] ensures a in s.archs(o) && u[o][a] <= s.instructions(a) {
          assert a in t[os] || a == arch;
        }
      }
    }
  }

  class BinaryTargets {
    const support: Support
    var targets: TargetMap

    ghost predicate Valid()
      reads this
    {
      Tidy(targets) && Supported(support, targets)
    }

    constructor (support: Support)
      ensures Valid() && targets == map[] && this.support == support
    {
      this.support, targets := support, map[];
    }

    /** False is the panic on an unsupported architecture or instruction set. */
    method AddTarget(os: OperatingSystem, arch: Architecture, insts: set<string>) returns (ok: bool)
      requires Valid()
      modifies this
      ensures Valid()
      ensures ok <==> arch in support.archs(os) && insts <= support.instructions(arch)
      ensures targets == if ok then AddTo(old(targets), os, arch, insts) else old(targets)
    {
      if arch !in support.archs(os) {
        return false;
      }
      if !(insts <= support.instructions(arch)) {
        return false;
      }
      AddToKeeps(support, targets, os, arch, insts);
      hide Tidy, Supported;
      if os !in targets {
        targets := targets[os := map[]];
      }
      var archs := targets[os];
      if arch !in archs {
        archs := archs[arch := {}];
      }
      archs := archs[arch := archs[arch] + insts];
      targets := targets[os := archs];
      ok := true;
    }

    /** Clone: every target added to an empty map. */
    method Clone() returns (clone: BinaryTargets)
      requires Valid()
      ensures fresh(clone) && clone.Valid() && clone.support == support && clone.targets == targets
    {
      clone := new BinaryTargets(support);
      var systems := targets.Keys;
      while systems != {}
        invariant systems <= targets.Keys
        invariant clone.Valid() && clone.support == support
        invariant clone.targets == map os | os in targets && os !in systems :: targets[os]
      {
        var os :| os in systems;
        CopySystem(clone, os);
        systems := systems - {os};
      }
    }

    method CopySystem(clone: BinaryTargets, os: OperatingSystem)
      requires Valid() && os in targets
      requires clone != this && clone.Valid() && clone.support == support && os !in clone.targets
      modifies clone
      ensures clone.Valid() && clone.targets == old(clone.targets)[os := targets[os]]
    {
      ghost var before := clone.targets;
      var archs := targets[os].Keys;
      while archs != {}
        invariant archs <= targets[os].Keys
        invariant clone.Valid()
        invariant clone.targets == Copied(before, os, targets[os], archs)
      {
        var arch :| arch in archs;
        assert arch in support.archs(os) && targets[os][arch] <= support.instructions(arch);
        CopyOne(before, os, targets[os], archs, arch);
        var ok := clone.AddTarget(os, arch, targets[os][arch]);
        archs := archs - {arch};
      }
      assert targets[os].Keys != {} && targets[os] - {} == targets[os];
    }
  }

  /** A system of which some architectures are still to be copied; it appears with the first one. */
  ghost function Copied(before: TargetMap, os: OperatingSystem, from: map<Architecture, set<string>>,
                        rest: set<Architecture>): TargetMap
  {
    if rest == from.Keys then before else before[os := from - rest]
  }

  lemma CopyOne(before: TargetMap, os: OperatingSystem, from: map<Architecture, set<string>>,
                rest: set<Architecture>, arch: Architecture)
    requires os !in before && arch in rest && rest <= from.Keys
    ensures AddTo(Copied(before, os, from, rest), os, arch, from[arch]) == Copied(before, os, from, rest - {arch})
  {
    assert {} + from[arch] == from[arch];
    assert rest - {arch} != from.Keys;
    var done := if rest == from.Keys then map[] else from - rest;
    assert arch !in done;
    assert done[arch := from[arch]] == from - (rest - {arch});
    var copied := Copied(before, os, from, rest);
    var withOs := if os in copied then copied else copied[os := map[]];
    assert withOs[os] == done;
    assert done[arch := {}][arch := from[arch]] == done[arch := from[arch]];
    var full := done[arch := from[arch]];
    assert withOs[os := full] == before[os := full];
  }

  // ---------- merging ----------

  /** Two sets of instruction sets, an empty one standing for all; None when they share nothing. */
  function MeetSets(a: set<string>, b: set<string>): Option<set<string>> {
    if a == {} then Some(b)
    else if b == {} then Some(a)
    else if a * b == {} then None
    else Some(a * b)
  }

  function MeetArchs(a: map<Architecture, set<string>>, b: map<Architecture, set<string>>): map<Architecture, set<string>> {
    map arch | arch in a && arch in b && MeetSets(a[arch], b[arch]).Some? :: MeetSets(a[arch], b[arch]).value
  }

  /** What two target maps share on a system; None when that is nothing. */
  function MeetAt(a: TargetMap, b: TargetMap, os: OperatingSystem): Option<map<Architecture, set<string>>>
    requires os in a
  {
    if os in b && MeetArchs(a[os], b[os]) != map[] then Some(MeetArchs(a[os], b[os])) else None
  }

  function Meet(a: TargetMap, b: TargetMap): TargetMap {
    map os | os in a && MeetAt(a, b, os).Some? :: MeetAt(a, b, os).value
  }

  function MergeAll(archives: seq<TargetMap>): TargetMap
    requires archives != []
  {
    if |archives| == 1 then archives[0]
    else Meet(MergeAll(archives[..|archives| - 1]), archives[|archives| - 1])
  }

  /** The loop over architectures of NewMergedArchive, with its list of those to delete. */
  method MergeArchs(merged: map<Architecture, set<string>>, archs: map<Architecture, set<string>>)
    returns (result: map<Architecture, set<string>>)
    ensures result == MeetArchs(merged, archs)
  {
    result := merged;
    var archsToDelete: set<Architecture> := {};
    var rest := merged.Keys;
    while rest != {}
      invariant rest <= merged.Keys && result.Keys == merged.Keys
      invariant forall a :: a in rest ==> a !in archsToDelete && result[a] == merged[a]
      invariant forall a :: a in merged && a !in rest ==>
        (a in archsToDelete <==> a !in archs || MeetSets(merged[a], archs[a]).None?)
        && (a !in archsToDelete ==> result[a] == MeetSets(merged[a], archs[a]).value)
    {
      var arch :| arch in rest;
      rest := rest - {arch};
      if arch !in archs {
        archsToDelete := archsToDelete + {arch};
        continue;
      }
      var mergedInstSet, instSet := result[arch], archs[arch];
      if mergedInstSet == {} && instSet == {} {
        continue;
      } else if mergedInstSet == {} {
        result := result[arch := instSet];
      } else if instSet == {} {
        continue;
      } else {
        var both := mergedInstSet * instSet;
        if both == {} {
          archsToDelete := archsToDelete + {arch};
        } else {
          result := result[arch := both];
        }
      }
    }
    result := result - archsToDelete;
  }

  /** The loop over systems for one more archive. */
  method MergeOne(merged: TargetMap, targets: TargetMap) returns (result: TargetMap)
    ensures result == Meet(merged, targets)
  {
    hide MeetArchs;
    result := merged;
    var osesToDelete: set<OperatingSystem> := {};
    var rest := merged.Keys;
    while rest != {}
      invariant rest <= merged.Keys && result.Keys == merged.Keys
      invariant forall os :: os in rest ==> os !in osesToDelete && result[os] == merged[os]
      invariant forall os :: os in merged && os !in rest ==>
        if os in osesToDelete then MeetAt(merged, targets, os) == None
        else MeetAt(merged, targets, os) == Some(result[os])
    {
      var os :| os in rest;
      rest := rest - {os};
      if os !in targets {
        osesToDelete := osesToDelete + {os};
        continue;
      }
      var archs := MergeArchs(result[os], targets[os]);
      result := result[os := archs];
      if |archs| == 0 {
        osesToDelete := osesToDelete + {os};
      }
    }
    result := result - osesToDelete;
  }

  /** NewMergedArchive's targets, starting from a clone of the first; with no archive the source indexes an empty list. */
  method NewMergedTargets(archives: seq<TargetMap>) returns (merged: TargetMap)
    requires archives != []
    ensures merged == MergeAll(archives)
  {
    merged := archives[0];
    for k := 1 to |archives|
      invariant merged == MergeAll(archives[..k])
    {
      assert archives[..k + 1][..k] == archives[..k];
      merged := MergeOne(merged, archives[k]);
    }
    assert archives[..|archives|] == archives;
  }

  lemma MeetSetsCover(a: set<string>, b: set<string>, inst: string)
    ensures (a == {} || inst in a) && (b == {} || inst in b) <==>
      MeetSets(a, b).Some? && (MeetSets(a, b).value == {} || inst in MeetSets(a, b).value)
  {
    if a != {} && b != {} && inst in a && inst in b {
      assert inst in a * b;
    }
  }

  lemma MeetCovers(a: TargetMap, b: TargetMap, os: OperatingSystem, arch: Architecture, inst: string)
    ensures Covers(Meet(a, b), os, arch, inst) <==> Covers(a, os, arch, inst) && Covers(b, os, arch, inst)
  {
    if os in a && os in b && arch in a[os] && arch in b[os] {
      MeetSetsCover(a[os][arch], b[os][arch], inst);
      hide MeetSets;
      if MeetSets(a[os][arch], b[os][arch]).Some? {
        assert arch in MeetArchs(a[os], b[os]);
      }
    }
  }

  /** The merge builds exactly what every archive builds. */
  lemma {:induction false} MergeIsIntersection(archives: seq<TargetMap>, os: OperatingSystem, arch: Architecture, inst: string)
    requires archives != []
    ensures Covers(MergeAll(archives), os, arch, inst) <==>
      forall k :: 0 <= k < |archives| ==> Covers(archives[k], os, arch, inst)
  {
    if |archives| > 1 {
      var n := |archives| - 1;
      hide Covers, Meet;
      MergeIsIntersection(archives[..n], os, arch, inst);
      MeetCovers(MergeAll(archives[..n]), archives[n], os, arch, inst);
      IntersectNext(archives, os, arch, inst);
    }
  }

  lemma IntersectNext(archives: seq<TargetMap>, os: OperatingSystem, arch: Architecture, inst: string)
    requires archives != []
    ensures var n := |archives| - 1;
      (forall k :: 0 <= k < |archives| ==> Covers(archives[k], os, arch, inst)) <==>
      (forall k :: 0 <= k < n ==> Covers(archives[..n][k], os, arch, inst)) && Covers(archives[n], os, arch, inst)
  {
    hide Covers;
    var n := |archives| - 1;
    if forall k :: 0 <= k < n ==> Covers(archives[..n][k], os, arch, inst) {
      forall k | 0 <= k < n ensures Covers(archives[k], os, arch, inst) {
        assert Covers(archives[..n][k], os, arch, inst);
      }
    }
  }

  /** Some text is not in a finite set of texts. */
  lemma {:induction false} LengthBound(names: set<string>) returns (n: nat)
    ensures forall x :: x in names ==> |x| <= n
    decreases |names|
  {
    if names == {} {
      n := 0;
    } else {
      var x :| x in names;
      var m := LengthBound(names - {x});
      n := if |x| > m then |x| else m;
    }
  }

  ghost predicate CoversSame(a: TargetMap, b: TargetMap) {
    forall os, arch, inst :: Covers(a, os, arch, inst) <==> Covers(b, os, arch, inst)
  }

  /** Tidy target maps that build the same are the same map. */
  lemma CoverageDecides(a: TargetMap, b: TargetMap)
    requires Tidy(a) && Tidy(b) && CoversSame(a, b)
    ensures a == b
  {
    forall os, arch | os in a && arch in a[os] ensures os in b && arch in b[os] && a[os][arch] == b[os][arch] {
      SameSet(a, b, os, arch);
    }
    forall os, arch | os in b && arch in b[os] ensures os in a && arch in a[os] {
      SameSet(b, a, os, arch);
    }
    forall os | os in a ensures os in b && a[os] == b[os] {
      var arch :| arch in a[os];
    }
    forall os | os in b ensures os in a {
      var arch :| arch in b[os];
    }
  }

  lemma SameSet(a: TargetMap, b: TargetMap, os: OperatingSystem, arch: Architecture)
    requires CoversSame(a, b) && os in a && arch in a[os]
    ensures os in b && arch in b[os] && a[os][arch] == b[os][arch]
  {
    var x := if a[os][arch] == {} then "" else var i :| i in a[os][arch]; i;
    assert Covers(a, os, arch, x) && Covers(b, os, arch, x);
    var n := LengthBound(a[os][arch] + b[os][arch]);
    var other := seq(n + 1, _ => 'x');
    assert other !in a[os][arch] && other !in b[os][arch];
    assert Covers(a, os, arch, other) <==> Covers(b, os, arch, other);
    forall i ensures i in a[os][arch] <==> i in b[os][arch] {
      assert Covers(a, os, arch, i) <==> Covers(b, os, arch, i);
    }
  }

  lemma {:induction false} MergeTidy(archives: seq<TargetMap>)
    requires archives != [] && forall k :: 0 <= k < |archives| ==> Tidy(archives[k])
    ensures Tidy(MergeAll(archives))
  {
    if |archives| > 1 {
      MergeTidy(archives[..|archives| - 1]);
    }
  }

  /** The same archives in any order, or repeated, merge to the same map. */
  lemma MergeOrderIrrelevant(xs: seq<TargetMap>, ys: seq<TargetMap>)
    requires xs != [] && ys != []
    requires forall k :: 0 <= k < |xs| ==> Tidy(xs[k]) && xs[k] in ys
    requires forall k :: 0 <= k < |ys| ==> Tidy(ys[k]) && ys[k] in xs
    ensures MergeAll(xs) == MergeAll(ys)
  {
    MergeTidy(xs);
    MergeTidy(ys);
    forall os, arch, inst ensures Covers(MergeAll(xs), os, arch, inst) <==> Covers(MergeAll(ys), os, arch, inst) {
      MergeIsIntersection(xs, os, arch, inst);
      MergeIsIntersection(ys, os, arch, inst);
    }
    CoverageDecides(MergeAll(xs), MergeAll(ys));
  }
}
