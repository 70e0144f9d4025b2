/** Which inputs of `plan` give a plan that `ReviewPlan::validate` accepts. */
module PlanAcceptance {
  import opened Model
  import opened Dag
  import opened TopologicalOrder
  import opened Review
  import opened ReviewPlans

  /** Where the dependencies of an atom that order units lead. */
  function OrderedAfter(deps: seq<AtomDependency>, a: AtomId): set<AtomId> {
    set d | d in deps && !d.kind.Causal? && d.from == a :: d.to
  }

  /** The atoms with their hard dependencies, followed in both directions, and the
      other ordering dependencies, followed in their own. */
  ghost function AtomGraph(deps: seq<AtomDependency>, ids: set<AtomId>): Graph {
    map a: AtomId | a in ids :: (set b: nat | b in ids && b in Neighbours(deps, a) + OrderedAfter(deps, a))
  }

  /** Two atoms that lead to each other are connected by hard dependencies alone. */
  ghost predicate Untangled(deps: seq<AtomDependency>, ids: set<AtomId>) {
    forall a, b :: a in ids && b in ids && Leads(AtomGraph(deps, ids), a, b) && Leads(AtomGraph(deps, ids), b, a)
      ==> Connected(deps, ids, a, b)
  }

  lemma ConnectedLeads(deps: seq<AtomDependency>, ids: set<AtomId>, a: AtomId, b: AtomId)
    requires Connected(deps, ids, a, b)
    ensures Leads(AtomGraph(deps, ids), a, b)
  {
    var g := AtomGraph(deps, ids);
    var p: seq<AtomId> :| IsWalk(deps, ids, p) && p[0] == a && p[|p| - 1] == b;
    var q: seq<nat> := p;
    forall i | 0 <= i < |q| - 1
      ensures q[i] in g && q[i + 1] in g[q[i]]
    {
      assert p[i + 1] in Neighbours(deps, p[i]);
    }
    assert IsChain(g, q);
  }

  // ----- components -----

  /** Two atoms lie in one part exactly when they are connected. */
  ghost predicate Divided(deps: seq<AtomDependency>, ids: set<AtomId>, parts: seq<set<AtomId>>) {
    && (forall i :: 0 <= i < |parts| ==> parts[i] != {} && parts[i] <= ids)
    && (forall a :: a in ids ==> InSomePart(parts, a))
    && (forall i, j, a, b :: 0 <= i < |parts| && 0 <= j < |parts| && a in parts[i] && b in parts[j] ==>
          (Connected(deps, ids, a, b) <==> i == j))
  }

  lemma ComponentsDivide(deps: seq<AtomDependency>, ids: set<AtomId>, parts: seq<set<AtomId>>)
    requires AreComponents(deps, ids, parts, ids)
    ensures Divided(deps, ids, parts)
  {
    hide AreComponents, Connected;
    forall i | 0 <= i < |parts|
      ensures parts[i] != {} && parts[i] <= ids
    {
      PartIs(deps, ids, parts, i);
    }
    forall a | a in ids
      ensures InSomePart(parts, a)
    {
      PartOfAtom(deps, ids, parts, a);
    }
    forall i, j, a, b | 0 <= i < |parts| && 0 <= j < |parts| && a in parts[i] && b in parts[j]
      ensures Connected(deps, ids, a, b) <==> i == j
    {
      SamePartIff(deps, ids, parts, i, j, a, b);
    }
  }

  lemma PartIs(deps: seq<AtomDependency>, ids: set<AtomId>, parts: seq<set<AtomId>>, i: nat)
    requires AreComponents(deps, ids, parts, ids) && i < |parts|
    ensures parts[i] != {} && parts[i] <= ids
    ensures forall b :: b in ids ==> (b in parts[i] <==> Connected(deps, ids, Min(parts[i]), b))
  {
    assert IsComponent(deps, ids, Min(parts[i]), parts[i]);
    hide Connected, Min;
  }

  lemma PartOfAtom(deps: seq<AtomDependency>, ids: set<AtomId>, parts: seq<set<AtomId>>, a: AtomId)
    requires AreComponents(deps, ids, parts, ids) && a in ids
    ensures InSomePart(parts, a)
  {
    hide IsComponent, Min;
  }

  lemma PartsShareNothing(deps: seq<AtomDependency>, ids: set<AtomId>, parts: seq<set<AtomId>>, i: nat, j: nat,
                          a: AtomId)
    requires AreComponents(deps, ids, parts, ids) && i < |parts| && j < |parts| && a in parts[i] && a in parts[j]
    ensures i == j
  {
    hide IsComponent, Min;
  }

  lemma SamePartIff(deps: seq<AtomDependency>, ids: set<AtomId>, parts: seq<set<AtomId>>, i: nat, j: nat, a: AtomId,
                    b: AtomId)
    requires AreComponents(deps, ids, parts, ids) && i < |parts| && j < |parts| && a in parts[i] && b in parts[j]
    ensures Connected(deps, ids, a, b) <==> i == j
  {
    hide AreComponents, Connected, Min;
    var start := Min(parts[i]);
    PartIs(deps, ids, parts, i);
    PartIs(deps, ids, parts, j);
    assert Connected(deps, ids, start, a);
    if Connected(deps, ids, a, b) {
      ConnectedJoin(deps, ids, start, a, b);
      PartsShareNothing(deps, ids, parts, i, j, b);
    }
    if i == j {
      ConnectedBack(deps, ids, start, a);
      ConnectedJoin(deps, ids, a, start, b);
    }
  }

  /** What is known of planned units with derived, distinct identifiers. */
  ghost predicate Planned(deps: seq<AtomDependency>, ids: set<AtomId>, parts: seq<set<AtomId>>,
                          units: seq<ReviewUnit>) {
    && Divided(deps, ids, parts) && |units| == |parts|
    && (forall i :: 0 <= i < |parts| ==> units[i].atoms == parts[i])
    && DistinctIds(units) && Closed(UnitGraph(units)) && NoLoops(UnitGraph(units))
    && (forall i, j :: 0 <= i < |parts| && 0 <= j < |parts| && i != j ==>
          (units[j].id in units[i].dependsOn <==> Ordering(deps, parts[i], parts[j])))
  }

  /** A dependency leads from one part to another. A causal one does not order them. */
  ghost predicate Ordering(deps: seq<AtomDependency>, one: set<AtomId>, other: set<AtomId>) {
    exists d :: d in deps && !d.kind.Causal? && d.from in one && d.to in other
  }

  lemma PlannedUnitsArePlanned(ids: set<AtomId>, parts: seq<set<AtomId>>, deps: seq<AtomDependency>, confidence: nat,
                               unitId: set<AtomId> -> nat)
    requires Injective(unitId) && AreComponents(deps, ids, parts, ids)
    ensures Planned(deps, ids, parts, PlannedUnits(parts, deps, confidence, unitId))
  {
    var units := PlannedUnits(parts, deps, confidence, unitId);
    hide AreComponents, Injective, UnitGraph, SortUnits, DistinctIds, Closed, NoLoops, Partitions, Derived,
        Divided;
    PlannedUnitsWellFormed(ids, parts, deps, confidence, unitId);
    SortedWellFormed(units, ids, unitId);
    WellFormedIsDistinct(units, ids, unitId);
    ComponentsDivide(deps, ids, parts);
    forall i, j | 0 <= i < |parts| && 0 <= j < |parts| && i != j
      ensures units[j].id in units[i].dependsOn <==> Ordering(deps, parts[i], parts[j])
    {
      PlannedDependency(ids, parts, deps, confidence, unitId, i, j);
    }
  }

  lemma WellFormedIsDistinct(units: seq<ReviewUnit>, ids: set<AtomId>, unitId: set<AtomId> -> nat)
    requires Injective(unitId) && WellFormed(units, ids, unitId)
    ensures DistinctIds(units)
  {
    DerivedAreDistinct(units, unitId);
  }

  // ----- chains of units and chains of atoms -----

  /** A step between atoms stays in a unit or follows a dependency between two. */
  lemma AtomStep(deps: seq<AtomDependency>, ids: set<AtomId>, parts: seq<set<AtomId>>, i: nat, j: nat, a: AtomId,
                 b: AtomId)
    requires Divided(deps, ids, parts) && i < |parts| && j < |parts| && a in parts[i] && b in parts[j]
    requires a in AtomGraph(deps, ids) && b in AtomGraph(deps, ids)[a]
    ensures i == j || Ordering(deps, parts[i], parts[j])
  {
    hide Connected, Neighbours;
    assert Connected(deps, ids, a, b) <==> i == j;
    ConnectedSelf(deps, ids, a);
    if b in Neighbours(deps, a) {
      ConnectedStep(deps, ids, a, a, b);
    } else {
      assert b in OrderedAfter(deps, a);
    }
  }

  lemma PartWith(deps: seq<AtomDependency>, ids: set<AtomId>, parts: seq<set<AtomId>>, a: AtomId) returns (i: nat)
    requires Divided(deps, ids, parts) && a in ids
    ensures i < |parts| && a in parts[i]
  {
    hide Connected;
    assert InSomePart(parts, a);
    i :| 0 <= i < |parts| && a in parts[i];
  }

  /** A chain of atoms runs through a chain of units. */
  lemma {:induction false} AtomChainIsUnitChain(deps: seq<AtomDependency>, ids: set<AtomId>, parts: seq<set<AtomId>>,
                                                units: seq<ReviewUnit>, p: seq<nat>, i: nat, j: nat)
    requires Planned(deps, ids, parts, units) && i < |parts| && j < |parts|
    requires IsChain(AtomGraph(deps, ids), p) && p[0] in parts[i] && p[|p| - 1] in parts[j] && p[0] in ids
    ensures Leads(UnitGraph(units), units[i].id, units[j].id)
    decreases |p|
  {
    var g := UnitGraph(units);
    hide UnitGraph, Leads, DistinctIds, Ordering, Closed, NoLoops, Divided, Connected, Neighbours;
    if |p| == 1 {
      ConnectedSelf(deps, ids, p[0]);
      SamePart(deps, ids, parts, i, j, p[0], p[0]);
      LeadsSelf(g, [units[i].id]);
    } else {
      var b := p[0 + 1];
      assert b in AtomGraph(deps, ids)[p[0]] && b in ids;
      var k := PartWith(deps, ids, parts, b);
      AtomStep(deps, ids, parts, i, k, p[0], b);
      SubChain(AtomGraph(deps, ids), p, 1, |p|);
      AtomChainIsUnitChain(deps, ids, parts, units, p[1..|p|], k, j);
      if i != k {
        GraphAt(units, units[i]);
        LeadsStep(g, units[i].id, units[k].id, units[j].id);
      }
    }
  }

  /** An ordering dependency between two units leads from any atom of the one to any
      atom of the other. */
  lemma UnitStep(deps: seq<AtomDependency>, ids: set<AtomId>, parts: seq<set<AtomId>>, i: nat, j: nat, a: AtomId,
                 b: AtomId)
    requires Divided(deps, ids, parts) && i < |parts| && j < |parts| && a in parts[i] && b in parts[j]
    requires i == j || Ordering(deps, parts[i], parts[j])
    ensures Leads(AtomGraph(deps, ids), a, b)
  {
    hide Connected, Neighbours, Leads, Divided;
    var g := AtomGraph(deps, ids);
    if i == j {
      SamePart(deps, ids, parts, i, i, a, b);
      ConnectedLeads(deps, ids, a, b);
    } else {
      var d :| d in deps && !d.kind.Causal? && d.from in parts[i] && d.to in parts[j];
      SamePart(deps, ids, parts, i, i, a, d.from);
      SamePart(deps, ids, parts, j, j, d.to, b);
      AtomsWithin(deps, ids, parts, i);
      AtomsWithin(deps, ids, parts, j);
      ConnectedLeads(deps, ids, a, d.from);
      ConnectedLeads(deps, ids, d.to, b);
      assert d.to in OrderedAfter(deps, d.from);
      LeadsStep(g, d.from, d.to, b);
      LeadsJoin(g, a, d.from, b);
    }
  }

  lemma {:induction false} UnitChainIsAtomChain(deps: seq<AtomDependency>, ids: set<AtomId>, parts: seq<set<AtomId>>,
                                                units: seq<ReviewUnit>, p: seq<nat>, i: nat, j: nat, a: AtomId,
                                                b: AtomId)
    requires Planned(deps, ids, parts, units) && i < |parts| && j < |parts| && a in parts[i] && b in parts[j]
    requires IsChain(UnitGraph(units), p) && p[0] == units[i].id && p[|p| - 1] == units[j].id
    ensures Leads(AtomGraph(deps, ids), a, b)
    decreases |p|
  {
    hide Leads, DistinctIds, Ordering, Closed, NoLoops, AtomGraph, Connected, Divided;
    if |p| == 1 {
      DistinctPositions(units, i, j);
      UnitStep(deps, ids, parts, i, j, a, b);
    } else {
      var k := NextUnit(deps, ids, parts, units, p, i);
      var c := AtomOf(deps, ids, parts, k);
      UnitStep(deps, ids, parts, i, k, a, c);
      SubChain(UnitGraph(units), p, 1, |p|);
      UnitChainIsAtomChain(deps, ids, parts, units, p[1..|p|], k, j, c, b);
      LeadsJoin(AtomGraph(deps, ids), a, c, b);
    }
  }

  lemma NextUnit(deps: seq<AtomDependency>, ids: set<AtomId>, parts: seq<set<AtomId>>, units: seq<ReviewUnit>,
                 p: seq<nat>, i: nat)
    returns (k: nat)
    requires Planned(deps, ids, parts, units) && i < |parts|
    requires IsChain(UnitGraph(units), p) && |p| > 1 && p[0] == units[i].id
    ensures k < |parts| && units[k].id == p[1] && k != i && Ordering(deps, parts[i], parts[k])
  {
    hide Divided, Ordering, Connected;
    GraphAt(units, units[i]);
    assert p[0 + 1] in UnitGraph(units)[p[0]];
    k := UnitWith(units, p[1]);
  }

  lemma AtomOf(deps: seq<AtomDependency>, ids: set<AtomId>, parts: seq<set<AtomId>>, i: nat) returns (a: AtomId)
    requires Divided(deps, ids, parts) && i < |parts|
    ensures a in parts[i] && a in ids
  {
    hide Connected;
    assert parts[i] != {} && parts[i] <= ids;
    a :| a in parts[i];
  }

  lemma UnitWith(units: seq<ReviewUnit>, id: nat) returns (k: nat)
    requires id in UnitGraph(units)
    ensures k < |units| && units[k].id == id
  {
    var u :| u in units && u.id == id;
    k :| 0 <= k < |units| && units[k] == u;
  }

  // ----- which plans have no cycle -----

  lemma UntangledIsAcyclic(deps: seq<AtomDependency>, ids: set<AtomId>, parts: seq<set<AtomId>>,
                           units: seq<ReviewUnit>, p: seq<nat>)
    requires Planned(deps, ids, parts, units) && Untangled(deps, ids)
    ensures !IsCycle(UnitGraph(units), p)
  {
    hide Leads, DistinctIds, Ordering, Closed, NoLoops, AtomGraph, Connected, Divided, UnitGraph;
    if IsCycle(UnitGraph(units), p) {
      var i := UnitWith(units, p[0]);
      var j := NextUnit(deps, ids, parts, units, p, i);
      var a := AtomOf(deps, ids, parts, i);
      var b := AtomOf(deps, ids, parts, j);
      SubChain(UnitGraph(units), p, 0, 2);
      SubChain(UnitGraph(units), p, 1, |p|);
      UnitChainIsAtomChain(deps, ids, parts, units, p[0..2], i, j, a, b);
      UnitChainIsAtomChain(deps, ids, parts, units, p[1..|p|], j, i, b, a);
      SamePart(deps, ids, parts, i, j, a, b);
    }
  }

  lemma AtomsWithin(deps: seq<AtomDependency>, ids: set<AtomId>, parts: seq<set<AtomId>>, i: nat)
    requires Divided(deps, ids, parts) && i < |parts|
    ensures parts[i] <= ids
  {
    hide Connected;
  }

  lemma SamePart(deps: seq<AtomDependency>, ids: set<AtomId>, parts: seq<set<AtomId>>, i: nat, j: nat, a: AtomId,
                 b: AtomId)
    requires Divided(deps, ids, parts) && i < |parts| && j < |parts| && a in parts[i] && b in parts[j]
    ensures Connected(deps, ids, a, b) <==> i == j
  {
    hide Connected;
  }

  lemma AcyclicIsUntangled(deps: seq<AtomDependency>, ids: set<AtomId>, parts: seq<set<AtomId>>,
                           units: seq<ReviewUnit>, a: AtomId, b: AtomId)
    requires Planned(deps, ids, parts, units) && Acyclic(UnitGraph(units)) && a in ids && b in ids
    requires Leads(AtomGraph(deps, ids), a, b) && Leads(AtomGraph(deps, ids), b, a)
    ensures Connected(deps, ids, a, b)
  {
    var i := PartWith(deps, ids, parts, a);
    var j := PartWith(deps, ids, parts, b);
    SamePart(deps, ids, parts, i, j, a, b);
    hide Divided, UnitGraph, DistinctIds, Ordering, Closed, NoLoops, AtomGraph, Connected, Acyclic;
    var p :| IsChain(AtomGraph(deps, ids), p) && p[0] == a && p[|p| - 1] == b;
    var q :| IsChain(AtomGraph(deps, ids), q) && q[0] == b && q[|q| - 1] == a;
    hide Leads;
    AtomChainIsUnitChain(deps, ids, parts, units, p, i, j);
    AtomChainIsUnitChain(deps, ids, parts, units, q, j, i);
    if units[i].id == units[j].id {
      DistinctPositions(units, i, j);
    } else {
      LeadsBack(UnitGraph(units), units[i].id, units[j].id);
    }
  }

  lemma {:induction false} DistinctPositions(units: seq<ReviewUnit>, i: nat, j: nat)
    requires DistinctIds(units) && i < |units| && j < |units| && units[i].id == units[j].id
    ensures i == j
  {
    assert forall k :: 1 <= k < |units| ==> units[k] == units[1..][k - 1] && units[k] in units[1..];
    if i > 0 && j > 0 {
      DistinctPositions(units[1..], i - 1, j - 1);
    }
  }

  /** The planned units have no cycle if and only if no two unconnected atoms lead to
      each other. */
  lemma PlannedAcyclicIff(deps: seq<AtomDependency>, ids: set<AtomId>, parts: seq<set<AtomId>>, units: seq<ReviewUnit>)
    requires Planned(deps, ids, parts, units)
    ensures Acyclic(UnitGraph(units)) <==> Untangled(deps, ids)
  {
    hide Planned, Leads, Connected, UnitGraph, AtomGraph;
    if Untangled(deps, ids) {
      forall p
        ensures !IsCycle(UnitGraph(units), p)
      {
        UntangledIsAcyclic(deps, ids, parts, units, p);
      }
    }
    if Acyclic(UnitGraph(units)) {
      forall a, b | a in ids && b in ids && Leads(AtomGraph(deps, ids), a, b) && Leads(AtomGraph(deps, ids), b, a)
        ensures Connected(deps, ids, a, b)
      {
        AcyclicIsUntangled(deps, ids, parts, units, a, b);
      }
    }
  }

  // ----- which plans are accepted -----

  lemma OneUnitWellFormed(ids: set<AtomId>, confidence: nat, unitId: set<AtomId> -> nat)
    requires ids != {}
    ensures
      var units := [ReviewUnit(unitId(ids), ids, {}, confidence)];
      WellFormed(units, ids, unitId) && Acyclic(UnitGraph(units))
  {
    var units := [ReviewUnit(unitId(ids), ids, {}, confidence)];
    assert units[1..] == [] && UnitAtoms(units) == ids;
    var g := UnitGraph(units);
    forall p
      ensures !IsCycle(g, p)
    {
      assert |p| >= 2 ==> p[0] !in g || p[0 + 1] !in g[p[0]];
    }
  }

  /** Whatever planning is given, over some atoms its units are well-formed, and they
      have a cycle exactly when it divides tangled atoms. */
  lemma PlanWellFormed(atoms: seq<ChangeAtom>, deps: seq<AtomDependency>, coverage: nat, minimumCoverage: nat,
                       minimumConfidence: nat, unitId: set<AtomId> -> nat, units: seq<ReviewUnit>)
    requires Injective(unitId) && atoms != []
    requires PlanResult(atoms, deps, coverage, minimumCoverage, minimumConfidence, unitId, units)
    ensures WellFormed(units, AtomIds(atoms), unitId)
    ensures Acyclic(UnitGraph(units))
       <==> Insufficient(atoms, deps, coverage, minimumCoverage, minimumConfidence) || Untangled(deps, AtomIds(atoms))
  {
    hide IsPlanned, WellFormed, Acyclic, Untangled, UnitGraph, Confidence, AtomIds, Injective, Insufficient;
    var ids := AtomIds(atoms);
    var confidence := Confidence(deps, |atoms|);
    SomeAtoms(atoms);
    if Insufficient(atoms, deps, coverage, minimumCoverage, minimumConfidence) {
      OneUnitWellFormed(ids, confidence, unitId);
    } else {
      assert IsPlanned(units, ids, deps, confidence, unitId);
      DividedWellFormed(ids, deps, confidence, unitId, units);
    }
  }

  lemma SomeAtoms(atoms: seq<ChangeAtom>)
    requires atoms != []
    ensures AtomIds(atoms) != {}
  {
    assert atoms[0].id in AtomIds(atoms);
  }

  lemma DividedWellFormed(ids: set<AtomId>, deps: seq<AtomDependency>, confidence: nat, unitId: set<AtomId> -> nat,
                          units: seq<ReviewUnit>)
    requires Injective(unitId) && IsPlanned(units, ids, deps, confidence, unitId)
    ensures WellFormed(units, ids, unitId)
    ensures Acyclic(UnitGraph(units)) <==> Untangled(deps, ids)
  {
    hide AreComponents, WellFormed, Acyclic, Untangled, UnitGraph, SortUnits, PlannedUnits, Planned, Injective;
    var parts :|
      AreComponents(deps, ids, parts, ids) && units == SortUnits(PlannedUnits(parts, deps, confidence, unitId));
    var planned := PlannedUnits(parts, deps, confidence, unitId);
    PlannedUnitsWellFormed(ids, parts, deps, confidence, unitId);
    PlannedUnitsArePlanned(ids, parts, deps, confidence, unitId);
    PlannedAcyclicIff(deps, ids, parts, planned);
    SortKeeps(planned, ids);
  }

  /** Validation accepts a plan that planning returns if and only if there are atoms,
      each listed once, the coverage is in range, the paths are theirs, and, unless
      everything became one unit, no two unconnected atoms lead to each other. */
  lemma PlanAccepted(atoms: seq<ChangeAtom>, deps: seq<AtomDependency>, coverage: nat, minimumCoverage: nat,
                     minimumConfidence: nat, unitId: set<AtomId> -> nat, units: seq<ReviewUnit>,
                     paths: map<AtomId, string>)
    requires Injective(unitId)
    requires PlanResult(atoms, deps, coverage, minimumCoverage, minimumConfidence, unitId, units)
    ensures ValidPlan(ReviewPlan(units, paths, atoms, coverage))
       <==> && atoms != [] && |AtomIds(atoms)| == |atoms| && coverage <= 1000
            && (paths == map[] || paths.Keys == AtomIds(atoms))
            && (Insufficient(atoms, deps, coverage, minimumCoverage, minimumConfidence)
                || Untangled(deps, AtomIds(atoms)))
  {
    hide PlanResult, Injective, Untangled, Insufficient, AtomIds;
    if atoms == [] {
      NothingPlanned(deps, coverage, minimumCoverage, minimumConfidence, unitId, units);
    } else {
      PlanWellFormed(atoms, deps, coverage, minimumCoverage, minimumConfidence, unitId, units);
      hide WellFormed, Acyclic;
      PlanAcceptedIff(ReviewPlan(units, paths, atoms, coverage), unitId);
    }
  }

  lemma NothingPlanned(deps: seq<AtomDependency>, coverage: nat, minimumCoverage: nat, minimumConfidence: nat,
                       unitId: set<AtomId> -> nat, units: seq<ReviewUnit>)
    requires PlanResult([], deps, coverage, minimumCoverage, minimumConfidence, unitId, units)
    ensures units == [] || !NoneEmpty(units)
  {
    hide Confidence, AreComponents;
    assert AtomIds([]) == {};
    if !Insufficient([], deps, coverage, minimumCoverage, minimumConfidence) {
      var parts :|
        && AreComponents(deps, {}, parts, {})
        && units == SortUnits(PlannedUnits(parts, deps, Confidence(deps, 0), unitId));
      ComponentsDivide(deps, {}, parts);
      PartsHoldAtoms(deps, {}, parts);
    }
  }

  lemma PartsHoldAtoms(deps: seq<AtomDependency>, ids: set<AtomId>, parts: seq<set<AtomId>>)
    requires Divided(deps, ids, parts)
    ensures parts != [] ==> ids != {}
  {
    hide Connected;
    if parts != [] {
      var a :| a in parts[0];
      assert a in ids;
    }
  }

  const TWO_ATOMS := [ChangeAtom(1, "a", 1, 1), ChangeAtom(2, "b", 1, 1)]
  const OPPOSITE_IMPORTS := [AtomDependency(1, 2, Import, 900), AtomDependency(2, 1, Import, 900)]

  /** Two atoms that import each other: planning divides them into two units that
      depend on each other, and validation refuses the plan. */
  lemma OppositeImportsExample(unitId: set<AtomId> -> nat, units: seq<ReviewUnit>, paths: map<AtomId, string>)
    requires Injective(unitId) && paths.Keys == AtomIds(TWO_ATOMS)
    requires PlanResult(TWO_ATOMS, OPPOSITE_IMPORTS, 1000, 800, 800, unitId, units)
    ensures !ValidPlan(ReviewPlan(units, paths, TWO_ATOMS, 1000))
  {
    hide PlanResult, Injective, Untangled, ValidPlan, Confidence, AtomIds;
    TwoAtoms();
    ConfidentEnough();
    OppositeImportsTangle(AtomIds(TWO_ATOMS));
    PlanAccepted(TWO_ATOMS, OPPOSITE_IMPORTS, 1000, 800, 800, unitId, units, paths);
  }

  lemma TwoAtoms()
    ensures AtomIds(TWO_ATOMS) == {1, 2} && |TWO_ATOMS| == 2
  {
    assert TWO_ATOMS[0] in TWO_ATOMS && TWO_ATOMS[1] in TWO_ATOMS;
  }

  lemma ConfidentEnough()
    ensures Confidence(OPPOSITE_IMPORTS, 2) == 900
  {
    ConfidenceBetween(OPPOSITE_IMPORTS, 2, 900, 900);
  }

  lemma OppositeImportsTangle(ids: set<AtomId>)
    requires ids == {1, 2}
    ensures !Untangled(OPPOSITE_IMPORTS, ids)
  {
    var deps := OPPOSITE_IMPORTS;
    var g := AtomGraph(deps, ids);
    assert deps[0] in deps && deps[1] in deps;
    assert 2 in OrderedAfter(deps, 1) && 1 in OrderedAfter(deps, 2);
    assert Neighbours(deps, 1) == {};
    hide OrderedAfter, Neighbours;
    TwoSteps(g, 1, 2);
    TwoSteps(g, 2, 1);
    forall p | IsWalk(deps, ids, p) && p[0] == 1
      ensures |p| == 1
    {
      FirstStep(deps, ids, p);
    }
  }

  lemma FirstStep(deps: seq<AtomDependency>, ids: set<AtomId>, p: seq<AtomId>)
    requires IsWalk(deps, ids, p)
    ensures |p| == 1 || p[1] in Neighbours(deps, p[0])
  {
    assert |p| > 1 ==> p[0 + 1] in Neighbours(deps, p[0]);
  }

  lemma TwoSteps(g: Graph, a: nat, b: nat)
    requires a in g && b in g[a]
    ensures Leads(g, a, b)
  {
    LeadsSelf(g, [b]);
    LeadsStep(g, a, b, b);
  }
}
