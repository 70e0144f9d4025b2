/** What `plan` makes of its input, told from the atoms and their dependencies alone. */
module PlanDivision {
  import opened Model
  import opened Review
  import opened ReviewPlans
  import opened PlanAcceptance

  /** No hard dependency between two of the atoms leads into the set or out of it. */
  ghost predicate KeepsTogether(deps: seq<AtomDependency>, ids: set<AtomId>, s: set<AtomId>) {
    forall d :: d in deps && d.kind.Hard? && d.from in ids && d.to in ids ==> (d.from in s <==> d.to in s)
  }

  /** The atoms of a unit cannot be taken apart without cutting a hard dependency. */
  ghost predicate Inseparable(deps: seq<AtomDependency>, ids: set<AtomId>, part: set<AtomId>) {
    && KeepsTogether(deps, ids, part)
    && forall s :: KeepsTogether(deps, ids, s) ==> part <= s || part !! s
  }

  /** A unit depends on exactly the other units that a dependency of an ordering kind
      leads to. */
  ghost predicate DependsOnNeeded(deps: seq<AtomDependency>, units: seq<ReviewUnit>, u: ReviewUnit) {
    forall k :: k in u.dependsOn <==> NeedsUnit(deps, units, u, k)
  }

  ghost predicate NeedsUnit(deps: seq<AtomDependency>, units: seq<ReviewUnit>, u: ReviewUnit, k: nat) {
    exists v :: v in units && v != u && v.id == k && Ordering(deps, u.atoms, v.atoms)
  }

  ghost predicate IsUnit(deps: seq<AtomDependency>, ids: set<AtomId>, units: seq<ReviewUnit>, c: nat,
                         unitId: set<AtomId> -> nat, u: ReviewUnit) {
    && u.id == unitId(u.atoms) && u.confidenceMilli == c
    && Inseparable(deps, ids, u.atoms) && DependsOnNeeded(deps, units, u)
  }

  /** The atoms divided as far as hard dependencies allow. */
  ghost predicate IsDivision(deps: seq<AtomDependency>, ids: set<AtomId>, units: seq<ReviewUnit>, c: nat,
                             unitId: set<AtomId> -> nat) {
    && Partitions(units, ids) && SortedById(units)
    && forall u :: u in units ==> IsUnit(deps, ids, units, c, unitId, u)
  }

  // ----- components cannot be taken apart -----

  lemma HardIsConnected(deps: seq<AtomDependency>, ids: set<AtomId>, d: AtomDependency)
    requires d in deps && d.kind.Hard? && d.from in ids && d.to in ids
    ensures Connected(deps, ids, d.from, d.to)
  {
    ConnectedSelf(deps, ids, d.from);
    assert d.to in Neighbours(deps, d.from);
    ConnectedStep(deps, ids, d.from, d.from, d.to);
  }

  lemma TogetherIsSaturated(deps: seq<AtomDependency>, ids: set<AtomId>, s: set<AtomId>)
    requires KeepsTogether(deps, ids, s)
    ensures Saturated(deps, ids, s * ids)
  {
  }

  lemma PartIsInseparable(deps: seq<AtomDependency>, ids: set<AtomId>, parts: seq<set<AtomId>>, i: nat)
    requires Divided(deps, ids, parts) && i < |parts|
    ensures Inseparable(deps, ids, parts[i])
  {
    hide Connected, Saturated;
    var part := parts[i];
    forall d | d in deps && d.kind.Hard? && d.from in ids && d.to in ids
      ensures d.from in part <==> d.to in part
    {
      HardIsConnected(deps, ids, d);
      assert InSomePart(parts, d.from) && InSomePart(parts, d.to);
    }
    forall s | KeepsTogether(deps, ids, s)
      ensures part <= s || part !! s
    {
      TogetherIsSaturated(deps, ids, s);
      forall a, b | a in part && a in s && b in part
        ensures b in s
      {
        assert Connected(deps, ids, a, b);
        StaysIn(deps, ids, s * ids, a, b);
      }
    }
  }

  lemma StaysIn(deps: seq<AtomDependency>, ids: set<AtomId>, s: set<AtomId>, a: AtomId, b: AtomId)
    requires Saturated(deps, ids, s) && a in s && Connected(deps, ids, a, b)
    ensures b in s
  {
    var p :| IsWalk(deps, ids, p) && p[0] == a && p[|p| - 1] == b;
    WalkStays(deps, ids, s, p);
  }

  // ----- planned units are such units -----

  lemma PlannedDependsOnNeeded(deps: seq<AtomDependency>, ids: set<AtomId>, parts: seq<set<AtomId>>,
                               units: seq<ReviewUnit>, i: nat)
    requires Planned(deps, ids, parts, units) && i < |units|
    requires units[i].dependsOn <= UnitIds(units) - {units[i].id}
    ensures DependsOnNeeded(deps, units, units[i])
  {
    hide Divided, DistinctIds, Ordering;
    var u := units[i];
    forall k
      ensures k in u.dependsOn <==> NeedsUnit(deps, units, u, k)
    {
      if k in u.dependsOn {
        var v :| v in units && v.id == k;
        var j :| 0 <= j < |units| && units[j] == v;
        assert i != j;
      }
      if NeedsUnit(deps, units, u, k) {
        var v :| v in units && v != u && v.id == k && Ordering(deps, u.atoms, v.atoms);
        var j :| 0 <= j < |units| && units[j] == v;
        assert i != j;
      }
    }
  }

  lemma PlannedUnitIs(deps: seq<AtomDependency>, ids: set<AtomId>, parts: seq<set<AtomId>>, c: nat,
                      unitId: set<AtomId> -> nat, i: nat)
    requires Injective(unitId) && AreComponents(deps, ids, parts, ids) && i < |parts|
    ensures
      var units := PlannedUnits(parts, deps, c, unitId);
      IsUnit(deps, ids, units, c, unitId, units[i])
  {
    hide Inseparable, DependsOnNeeded, Links, UnitIds, AreComponents, PartOf, Divided, DistinctIds;
    var units := PlannedUnits(parts, deps, c, unitId);
    PlannedUnitsArePlanned(ids, parts, deps, c, unitId);
    PartIsInseparable(deps, ids, parts, i);
    assert units[i].dependsOn <= UnitIds(units) - {units[i].id} by {
      PartsAre(deps, ids, parts);
      PlannedClosed(parts, deps, c, unitId, i);
    }
    hide Planned;
    PlannedDependsOnNeeded(deps, ids, parts, units, i);
  }

  lemma PartsAre(deps: seq<AtomDependency>, ids: set<AtomId>, parts: seq<set<AtomId>>)
    requires AreComponents(deps, ids, parts, ids)
    ensures forall j :: 0 <= j < |parts| ==> parts[j] != {}
    ensures forall j, k :: 0 <= j < k < |parts| ==> parts[j] !! parts[k]
  {
  }

  lemma SameUnits(deps: seq<AtomDependency>, ids: set<AtomId>, units: seq<ReviewUnit>, others: seq<ReviewUnit>,
                  c: nat, unitId: set<AtomId> -> nat, u: ReviewUnit)
    requires (forall v :: v in units <==> v in others) && IsUnit(deps, ids, units, c, unitId, u)
    ensures IsUnit(deps, ids, others, c, unitId, u)
  {
    hide Inseparable, Ordering;
    forall k
      ensures NeedsUnit(deps, units, u, k) <==> NeedsUnit(deps, others, u, k)
    {
    }
  }

  lemma PlannedIsDivision(deps: seq<AtomDependency>, ids: set<AtomId>, units: seq<ReviewUnit>, c: nat,
                          unitId: set<AtomId> -> nat)
    requires Injective(unitId) && IsPlanned(units, ids, deps, c, unitId)
    ensures IsDivision(deps, ids, units, c, unitId)
  {
    hide AreComponents, SortUnits, PlannedUnits, Partitions, SortedById, IsUnit;
    var parts :| AreComponents(deps, ids, parts, ids) && units == SortUnits(PlannedUnits(parts, deps, c, unitId));
    var planned := PlannedUnits(parts, deps, c, unitId);
    PlannedAtoms(ids, parts, deps, c, unitId);
    SortKeeps(planned, ids);
    SortSorts(planned);
    SortMembers(planned);
    forall u | u in units
      ensures IsUnit(deps, ids, units, c, unitId, u)
    {
      var i :| 0 <= i < |planned| && planned[i] == u;
      PlannedUnitIs(deps, ids, parts, c, unitId, i);
      SameUnits(deps, ids, planned, units, c, unitId, u);
    }
  }

  /** With the confidence c of its input, planning keeps all atoms in one unit when the
      coverage or c is below its minimum, and otherwise divides them as far as hard
      dependencies allow. */
  lemma PlanIs(atoms: seq<ChangeAtom>, deps: seq<AtomDependency>, coverage: nat, minimumCoverage: nat,
               minimumConfidence: nat, unitId: set<AtomId> -> nat, units: seq<ReviewUnit>, c: nat)
    requires Injective(unitId) && IsConfidence(deps, |atoms|, c)
    requires PlanResult(atoms, deps, coverage, minimumCoverage, minimumConfidence, unitId, units)
    ensures if coverage < minimumCoverage || c < minimumConfidence
            then units == [ReviewUnit(unitId(AtomIds(atoms)), AtomIds(atoms), {}, c)]
            else IsDivision(deps, AtomIds(atoms), units, c, unitId)
  {
    hide IsPlanned, IsDivision, Confidence, AtomIds, Injective;
    ConfidenceIs(deps, |atoms|, c);
    if !Insufficient(atoms, deps, coverage, minimumCoverage, minimumConfidence) {
      PlannedIsDivision(deps, AtomIds(atoms), units, c, unitId);
    }
  }

  // ----- without dependencies -----

  lemma AtomsApart(units: seq<ReviewUnit>)
    requires units != [] && Apart(units)
    ensures UnitAtoms(units) == units[0].atoms + UnitAtoms(units[1..])
    ensures units[0].atoms !! UnitAtoms(units[1..])
  {
    assert units == [units[0]] + units[1..];
    assert units[0] in units && forall u :: u in units <==> u == units[0] || u in units[1..];
  }

  lemma {:induction false} OneEach(units: seq<ReviewUnit>)
    requires Apart(units) && forall u :: u in units ==> |u.atoms| == 1
    ensures |UnitAtoms(units)| == |units|
    decreases |units|
  {
    hide UnitAtoms;
    if units == [] {
      NoAtoms();
    } else {
      AtomsApart(units);
      OneEach(units[1..]);
      assert units[0] in units;
    }
  }

  lemma NoAtoms()
    ensures UnitAtoms([]) == {}
  {
  }

  lemma AloneWithoutDependencies(ids: set<AtomId>, units: seq<ReviewUnit>, c: nat, unitId: set<AtomId> -> nat,
                                 u: ReviewUnit)
    requires IsUnit([], ids, units, c, unitId, u) && u.atoms != {}
    ensures |u.atoms| == 1 && u.dependsOn == {} && u.confidenceMilli == c
  {
    var a :| a in u.atoms;
    assert KeepsTogether([], ids, {a});
    assert u.atoms == {a};
    forall k
      ensures k !in u.dependsOn
    {
      assert k in u.dependsOn <==> NeedsUnit([], units, u, k);
    }
  }

  /** Without dependencies every atom becomes a unit of its own, of 850 thousandths, if
      that and the coverage are enough, and otherwise all atoms become one such unit. */
  lemma PlanWithoutDependencies(atoms: seq<ChangeAtom>, coverage: nat, minimumCoverage: nat, minimumConfidence: nat,
                                unitId: set<AtomId> -> nat, units: seq<ReviewUnit>)
    requires Injective(unitId) && atoms != []
    requires PlanResult(atoms, [], coverage, minimumCoverage, minimumConfidence, unitId, units)
    ensures coverage < minimumCoverage || 850 < minimumConfidence ==>
      units == [ReviewUnit(unitId(AtomIds(atoms)), AtomIds(atoms), {}, 850)]
    ensures coverage >= minimumCoverage && 850 >= minimumConfidence ==>
      && |units| == |AtomIds(atoms)| && UnitAtoms(units) == AtomIds(atoms)
      && forall u :: u in units ==> |u.atoms| == 1 && u.dependsOn == {} && u.confidenceMilli == 850
  {
    hide PlanResult, IsUnit, AtomIds, Injective, SortedById, Apart, UnitAtoms;
    var ids := AtomIds(atoms);
    PlanIs(atoms, [], coverage, minimumCoverage, minimumConfidence, unitId, units, 850);
    if coverage >= minimumCoverage && 850 >= minimumConfidence {
      forall u | u in units
        ensures |u.atoms| == 1 && u.dependsOn == {} && u.confidenceMilli == 850
      {
        AloneWithoutDependencies(ids, units, 850, unitId, u);
      }
      OneEach(units);
    }
  }
}
