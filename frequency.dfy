/** Frequency analysis: which dependencies are declared often enough across the
    workspace members to be consolidated, and with which version requirement. */
module Frequency {

  /** One dependency entry of a member, as `cargo metadata` reports it. */
  datatype Dependency = Dependency(name: string, req: string, isPath: bool)

  /** A workspace member with its dependency entries (all kinds, in metadata order). */
  datatype Package = Package(name: string, dependencies: seq<Dependency>)

  /** All entries of all members, in the order the analysis scans them. */
  function AllDependencies(packages: seq<Package>): seq<Dependency>
    decreases |packages|
  {
    if |packages| == 0 then []
    else AllDependencies(packages[..|packages| - 1]) + packages[|packages| - 1].dependencies
  }

  /** Requirements of the counted (non-path) entries named `name`, in scan order. */
  function Counted(deps: seq<Dependency>, name: string): seq<string>
    decreases |deps|
  {
    if |deps| == 0 then []
    else
      var d := deps[|deps| - 1];
      Counted(deps[..|deps| - 1], name) + (if !d.isPath && d.name == name then [d.req] else [])
  }

  /** The running count a name must reach; a count is at least 1 once it exists. */
  function Threshold(minOccurrences: nat): (t: nat)
    ensures 1 <= t && minOccurrences <= t
    ensures minOccurrences == t || minOccurrences == 0
  {
    if minOccurrences == 0 then 1 else minOccurrences
  }

  function Names(deps: seq<Dependency>): set<string>
  {
    set d | d in deps :: d.name
  }

  function CommonOf(deps: seq<Dependency>, minOccurrences: nat): map<string, string>
  {
    var t := Threshold(minOccurrences);
    map name | name in Names(deps) && |Counted(deps, name)| >= t :: Counted(deps, name)[t - 1]
  }

  /** The common dependencies: every name with at least `Threshold` counted entries,
      mapped to the requirement of the entry at which its count reached the threshold. */
  function CommonDependencies(packages: seq<Package>, minOccurrences: nat): map<string, string>
  {
    CommonOf(AllDependencies(packages), minOccurrences)
  }

  /** Number of counted entries named `name` in one member. */
  function EntryCount(deps: seq<Dependency>, name: string): nat
  {
    if |deps| == 0 then 0
    else (if !deps[0].isPath && deps[0].name == name then 1 else 0) + EntryCount(deps[1..], name)
  }

  /** Number of counted entries named `name` over all members. */
  function Occurrences(packages: seq<Package>, name: string): nat
  {
    if |packages| == 0 then 0
    else EntryCount(packages[0].dependencies, name) + Occurrences(packages[1..], name)
  }

  /** The scan of `find_common_dependencies`: count each non-path entry by name and
      record the entry whose count first reaches `minOccurrences`. */
  method FindCommonDependencies(packages: seq<Package>, minOccurrences: nat)
    returns (common: map<string, string>)
    ensures common == CommonDependencies(packages, minOccurrences)
  {
    var depCount: map<string, nat> := map[];
    common := map[];
    ghost var scanned: seq<Dependency> := [];
    for i := 0 to |packages|
      invariant scanned == AllDependencies(packages[..i])
      invariant Tracks(scanned, depCount, common, Threshold(minOccurrences))
    {
      var deps := packages[i].dependencies;
      assert scanned + deps[..0] == scanned;
      for j := 0 to |deps|
        invariant scanned == AllDependencies(packages[..i]) + deps[..j]
        invariant Tracks(scanned, depCount, common, Threshold(minOccurrences))
      {
        var dep := deps[j];
        ghost var countBefore, commonBefore := depCount, common;
        if !dep.isPath {
          var count := (if dep.name in depCount then depCount[dep.name] else 0) + 1;
          depCount := depCount[dep.name := count];
          if count >= minOccurrences && dep.name !in common {
            common := common[dep.name := dep.req];
          }
        }
        TracksEntry(scanned, dep, countBefore, commonBefore, depCount, common, minOccurrences);
        assert deps[..j + 1] == deps[..j] + [dep];
        scanned := scanned + [dep];
      }
      assert deps[..|deps|] == deps;
      AllDependenciesSnoc(packages, i);
    }
    assert packages[..|packages|] == packages;
    TracksCommon(scanned, depCount, common, minOccurrences);
  }

  /** When the scan has tracked all entries, its map is the specified one. */
  lemma TracksCommon(seen: seq<Dependency>, depCount: map<string, nat>, common: map<string, string>, minOccurrences: nat)
    requires Tracks(seen, depCount, common, Threshold(minOccurrences))
    ensures common == CommonOf(seen, minOccurrences)
  {
    CountedNames(seen);
    var spec := CommonOf(seen, minOccurrences);
    assert common.Keys == spec.Keys;
  }

  /** What the two maps of the scan hold after `seen` has been scanned. */
  ghost predicate Tracks(seen: seq<Dependency>, depCount: map<string, nat>, common: map<string, string>, t: nat)
  {
    CountsTracked(seen, depCount) && CommonTracked(seen, common, t)
  }

  ghost predicate CountsTracked(seen: seq<Dependency>, depCount: map<string, nat>)
  {
    && (forall name | name in depCount :: depCount[name] == |Counted(seen, name)| > 0)
    && (forall name | name !in depCount :: |Counted(seen, name)| == 0)
  }

  ghost predicate CommonTracked(seen: seq<Dependency>, common: map<string, string>, t: nat)
  {
    && (forall name | name in common :: |Counted(seen, name)| >= t >= 1 && common[name] == Counted(seen, name)[t - 1])
    && (forall name | name !in common :: |Counted(seen, name)| < t)
  }

  /** Scanning one more entry, as the loop body does, keeps both maps in step with
      the entries scanned. */
  lemma TracksEntry(before: seq<Dependency>, dep: Dependency,
                    countBefore: map<string, nat>, commonBefore: map<string, string>,
                    depCount: map<string, nat>, common: map<string, string>, minOccurrences: nat)
    requires Tracks(before, countBefore, commonBefore, Threshold(minOccurrences))
    requires dep.isPath ==> depCount == countBefore && common == commonBefore
    requires !dep.isPath ==>
      var count := (if dep.name in countBefore then countBefore[dep.name] else 0) + 1;
      && depCount == countBefore[dep.name := count]
      && common == if count >= minOccurrences && dep.name !in commonBefore
                   then commonBefore[dep.name := dep.req] else commonBefore
    ensures Tracks(before + [dep], depCount, common, Threshold(minOccurrences))
  {
    CountsEntry(before, dep, countBefore, depCount);
    CommonEntry(before, dep, countBefore, commonBefore, common, minOccurrences);
  }

  lemma CountsEntry(before: seq<Dependency>, dep: Dependency,
                    countBefore: map<string, nat>, depCount: map<string, nat>)
    requires CountsTracked(before, countBefore)
    requires dep.isPath ==> depCount == countBefore
    requires !dep.isPath ==>
      depCount == countBefore[dep.name := (if dep.name in countBefore then countBefore[dep.name] else 0) + 1]
    ensures CountsTracked(before + [dep], depCount)
  {
    forall name
      ensures Counted(before + [dep], name) == Counted(before, name) + (if !dep.isPath && dep.name == name then [dep.req] else [])
    {
      CountedSnoc(before, dep, name);
    }
  }

  lemma CommonEntry(before: seq<Dependency>, dep: Dependency,
                    countBefore: map<string, nat>, commonBefore: map<string, string>,
                    common: map<string, string>, minOccurrences: nat)
    requires CountsTracked(before, countBefore)
    requires CommonTracked(before, commonBefore, Threshold(minOccurrences))
    requires dep.isPath ==> common == commonBefore
    requires !dep.isPath ==>
      var count := (if dep.name in countBefore then countBefore[dep.name] else 0) + 1;
      common == if count >= minOccurrences && dep.name !in commonBefore
                then commonBefore[dep.name := dep.req] else commonBefore
    ensures CommonTracked(before + [dep], common, Threshold(minOccurrences))
  {
    var t := Threshold(minOccurrences);
    var after := before + [dep];
    forall name | name != dep.name || dep.isPath
      ensures Counted(after, name) == Counted(before, name)
    {
      CountedSnoc(before, dep, name);
    }
    if !dep.isPath {
      var name := dep.name;
      CountedSnoc(before, dep, name);
      var count := (if name in countBefore then countBefore[name] else 0) + 1;
      assert count == |Counted(after, name)|;
      if name !in commonBefore {
        assert count <= t;
        if name in common {
          assert count == t;
          assert Counted(after, name)[t - 1] == dep.req;
        }
      } else {
        assert Counted(after, name)[..|Counted(before, name)|] == Counted(before, name);
        assert Counted(after, name)[t - 1] == Counted(before, name)[t - 1];
      }
    }
  }

  lemma CountedSnoc(deps: seq<Dependency>, d: Dependency, name: string)
    ensures Counted(deps + [d], name) == Counted(deps, name) + (if !d.isPath && d.name == name then [d.req] else [])
  {
    assert (deps + [d])[..|deps|] == deps;
  }

  lemma AllDependenciesSnoc(packages: seq<Package>, i: nat)
    requires i < |packages|
    ensures AllDependencies(packages[..i + 1]) == AllDependencies(packages[..i]) + packages[i].dependencies
  {
    assert packages[..i + 1][..i] == packages[..i];
  }

  /** Only names that occur are counted. */
  lemma {:induction false} CountedNames(deps: seq<Dependency>)
    ensures forall name | |Counted(deps, name)| > 0 :: name in Names(deps)
    decreases |deps|
  {
    if |deps| > 0 {
      var prefix := deps[..|deps| - 1];
      CountedNames(prefix);
      assert deps == prefix + [deps[|deps| - 1]];
      assert Names(prefix) <= Names(deps);
    }
  }

  lemma {:induction false} CountedAppend(a: seq<Dependency>, b: seq<Dependency>, name: string)
    ensures Counted(a + b, name) == Counted(a, name) + Counted(b, name)
    decreases |b|
  {
    if |b| > 0 {
      var last := b[|b| - 1];
      CountedAppend(a, b[..|b| - 1], name);
      assert (a + b)[..|a + b| - 1] == a + b[..|b| - 1];
    } else {
      assert a + b == a;
    }
  }

  lemma {:induction false} AllDependenciesAppend(ps: seq<Package>, qs: seq<Package>)
    ensures AllDependencies(ps + qs) == AllDependencies(ps) + AllDependencies(qs)
    decreases |qs|
  {
    if |qs| > 0 {
      AllDependenciesAppend(ps, qs[..|qs| - 1]);
      assert (ps + qs)[..|ps + qs| - 1] == ps + qs[..|qs| - 1];
    } else {
      assert ps + qs == ps;
    }
  }

  lemma {:induction false} EntryCountIsCounted(deps: seq<Dependency>, name: string)
    ensures |Counted(deps, name)| == EntryCount(deps, name)
    decreases |deps|
  {
    if |deps| > 0 {
      EntryCountIsCounted(deps[1..], name);
      CountedAppend([deps[0]], deps[1..], name);
      assert [deps[0]] + deps[1..] == deps;
      assert [deps[0]][..0] == [];
    }
  }

  /** The scan counts exactly the non-path entries, member by member. */
  lemma {:induction false} OccurrencesCounted(packages: seq<Package>, name: string)
    ensures |Counted(AllDependencies(packages), name)| == Occurrences(packages, name)
    decreases |packages|
  {
    if |packages| > 0 {
      OccurrencesCounted(packages[1..], name);
      AllDependenciesAppend([packages[0]], packages[1..]);
      assert [packages[0]] + packages[1..] == packages;
      assert [packages[0]][..0] == [];
      assert AllDependencies([packages[0]]) == [] + packages[0].dependencies == packages[0].dependencies;
      CountedAppend(packages[0].dependencies, AllDependencies(packages[1..]), name);
      EntryCountIsCounted(packages[0].dependencies, name);
    }
  }

  /** A name is common exactly when its non-path entries, counted one by one over all
      members, number at least `minOccurrences` (and at least one). */
  lemma CommonMembership(packages: seq<Package>, minOccurrences: nat, name: string)
    ensures name in CommonDependencies(packages, minOccurrences)
        <==> Occurrences(packages, name) >= minOccurrences && Occurrences(packages, name) >= 1
  {
    OccurrencesCounted(packages, name);
    CountedNames(AllDependencies(packages));
  }

  /** The representative is the requirement of the entry at which the running count
      of its name reaches the threshold: `Threshold - 1` counted entries precede it. */
  lemma RepresentativeReachesThreshold(packages: seq<Package>, minOccurrences: nat, name: string)
    requires name in CommonDependencies(packages, minOccurrences)
    ensures exists p | 0 <= p < |AllDependencies(packages)| ::
      var d := AllDependencies(packages)[p];
      && d.name == name && !d.isPath
      && d.req == CommonDependencies(packages, minOccurrences)[name]
      && |Counted(AllDependencies(packages)[..p], name)| == Threshold(minOccurrences) - 1
  {
    var deps := AllDependencies(packages);
    var t := Threshold(minOccurrences);
    var p := ReachingEntry(deps, name, t);
    assert deps[..p + 1][..p] == deps[..p];
    CountedAppend(deps[..p + 1], deps[p + 1..], name);
    assert deps[..p + 1] + deps[p + 1..] == deps;
  }

  /** Index of the entry at which the count of `name` reaches `t`. */
  lemma {:induction false} ReachingEntry(deps: seq<Dependency>, name: string, t: nat) returns (p: nat)
    requires 1 <= t <= |Counted(deps, name)|
    ensures p < |deps| && deps[p].name == name && !deps[p].isPath
    ensures |Counted(deps[..p], name)| == t - 1
    ensures Counted(deps[..p + 1], name) == Counted(deps[..p], name) + [deps[p].req]
    ensures Counted(deps, name)[t - 1] == deps[p].req
    decreases |deps|
  {
    var prefix := deps[..|deps| - 1];
    var d := deps[|deps| - 1];
    if |Counted(prefix, name)| >= t {
      p := ReachingEntry(prefix, name, t);
      assert p + 1 <= |prefix|;
      assert deps[..p] == prefix[..p];
      assert forall k | 0 <= k < p + 1 :: deps[k] == prefix[k];
      assert deps[..p + 1] == prefix[..p + 1];
    } else {
      p := |deps| - 1;
      assert deps[..p] == prefix;
      assert deps[..p + 1] == deps;
    }
  }

  /** Members scanned later never change a representative already chosen. */
  lemma RepresentativeStable(packages: seq<Package>, later: seq<Package>, minOccurrences: nat, name: string)
    requires name in CommonDependencies(packages, minOccurrences)
    ensures name in CommonDependencies(packages + later, minOccurrences)
    ensures CommonDependencies(packages + later, minOccurrences)[name]
         == CommonDependencies(packages, minOccurrences)[name]
  {
    AllDependenciesAppend(packages, later);
    CountedAppend(AllDependencies(packages), AllDependencies(later), name);
    CountedNames(AllDependencies(packages + later));
  }

  /** Path dependencies never count: a name declared only through `path` is never common. */
  lemma PathDependenciesExcluded(packages: seq<Package>, minOccurrences: nat, name: string)
    requires forall i, d | 0 <= i < |packages| && d in packages[i].dependencies :: d.name == name ==> d.isPath
    ensures name !in CommonDependencies(packages, minOccurrences)
  {
    NoCountedEntries(packages, name);
    CommonMembership(packages, minOccurrences, name);
  }

  lemma {:induction false} NoCountedEntries(packages: seq<Package>, name: string)
    requires forall i, d | 0 <= i < |packages| && d in packages[i].dependencies :: d.name == name ==> d.isPath
    ensures Occurrences(packages, name) == 0
    decreases |packages|
  {
    if |packages| > 0 {
      NoCountedEntries(packages[1..], name);
      NoEntryCount(packages[0].dependencies, name);
    }
  }

  lemma {:induction false} NoEntryCount(deps: seq<Dependency>, name: string)
    requires forall d | d in deps :: d.name == name ==> d.isPath
    ensures EntryCount(deps, name) == 0
    decreases |deps|
  {
    if |deps| > 0 {
      NoEntryCount(deps[1..], name);
    }
  }

  /** With the default threshold of 2, the second entry of a name, not the first,
      supplies its requirement. */
  lemma SecondEntryIsRepresentative()
    ensures CommonDependencies([Package("a", [Dependency("serde", "1.0", false)]),
                                Package("b", [Dependency("serde", "1.0.200", false)])], 2)
         == map["serde" := "1.0.200"]
  {
    var first, second := Dependency("serde", "1.0", false), Dependency("serde", "1.0.200", false);
    var ps := [Package("a", [first]), Package("b", [second])];
    var deps := AllDependencies(ps);
    assert deps == [first, second] by {
      assert ps[..1] == [ps[0]] && ps[..1][..0] == [];
      assert AllDependencies(ps[..1]) == [] + [first];
    }
    assert Counted(deps, "serde") == ["1.0", "1.0.200"] by {
      assert deps[..1] == [first] && deps[..1][..0] == [];
      assert Counted(deps[..1], "serde") == [] + ["1.0"];
    }
    assert Names(deps) == {"serde"} by {
      assert deps[0] in deps;
    }
    var common := CommonOf(deps, 2);
    assert "serde" in common;
    assert common.Keys == {"serde"};
  }

  /** Entries are counted, not members: one member declaring a crate both as a normal
      and as a dev-dependency makes it common on its own. */
  lemma OneMemberTwoEntries()
    ensures "rand" in CommonDependencies([Package("a", [Dependency("rand", "0.8", false),
                                                        Dependency("rand", "0.8", false)])], 2)
  {
    var ps := [Package("a", [Dependency("rand", "0.8", false), Dependency("rand", "0.8", false)])];
    CommonMembership(ps, 2, "rand");
  }
}
