/** Lists of review units: what makes them a partition with a dependency graph, how
    `plan` derives them, and what `ReviewPlan::validate` accepts.
 */
module ReviewPlans {
  import KeyedLists
  import opened Wrappers
  import opened Model
  import opened Dag
  import opened TopologicalOrder
  import opened Review

  ghost function UnitIds(units: seq<ReviewUnit>): set<nat> {
    set u | u in units :: u.id
  }

  function UnitAtoms(units: seq<ReviewUnit>): set<AtomId> {
    set u, a | u in units && a in u.atoms :: a
  }

  /** The dependency graph of the units, by identifier. */
  ghost function UnitGraph(units: seq<ReviewUnit>): Graph {
    map id | id in UnitIds(units) :: set u, d | u in units && u.id == id && d in u.dependsOn :: d
  }

  /** No two units share an atom. */
  ghost predicate Apart(units: seq<ReviewUnit>) {
    units == [] || ((forall v :: v in units[1..] ==> units[0].atoms !! v.atoms) && Apart(units[1..]))
  }

  ghost predicate DistinctIds(units: seq<ReviewUnit>) {
    units == [] || ((forall v :: v in units[1..] ==> units[0].id != v.id) && DistinctIds(units[1..]))
  }

  ghost predicate NoneEmpty(units: seq<ReviewUnit>) {
    forall u :: u in units ==> u.atoms != {}
  }

  ghost predicate Partitions(units: seq<ReviewUnit>, atoms: set<AtomId>) {
    NoneEmpty(units) && Apart(units) && UnitAtoms(units) == atoms
  }

  /** Every identifier is the digest of the unit's atoms. */
  ghost predicate Derived(units: seq<ReviewUnit>, unitId: set<AtomId> -> nat) {
    forall u :: u in units ==> u.id == unitId(u.atoms)
  }

  lemma {:induction false} DerivedAreDistinct(units: seq<ReviewUnit>, unitId: set<AtomId> -> nat)
    requires Injective(unitId) && Derived(units, unitId) && NoneEmpty(units) && Apart(units)
    ensures DistinctIds(units)
    decreases |units|
  {
    if units != [] {
      var rest := units[1..];
      assert units == [units[0]] + rest;
      assert forall u :: u in rest ==> u in units;
      DerivedAreDistinct(rest, unitId);
      assert units[0] in units;
      forall v | v in rest
        ensures units[0].id != v.id
      {
        var a :| a in v.atoms;
      }
    }
  }

  /** Two units of a partition with a common atom, or one identifier, are the same. */
  lemma {:induction false} ApartMembers(units: seq<ReviewUnit>, u: ReviewUnit, v: ReviewUnit)
    requires Apart(units) && u in units && v in units && u.atoms * v.atoms != {}
    ensures u == v
    decreases |units|
  {
    var rest := units[1..];
    assert units == [units[0]] + rest;
    if u in rest && v in rest {
      ApartMembers(rest, u, v);
    }
  }

  lemma {:induction false} DistinctMembers(units: seq<ReviewUnit>, u: ReviewUnit, v: ReviewUnit)
    requires DistinctIds(units) && u in units && v in units && u.id == v.id
    ensures u == v
    decreases |units|
  {
    var rest := units[1..];
    assert units == [units[0]] + rest;
    if u in rest && v in rest {
      DistinctMembers(rest, u, v);
    }
  }

  lemma GraphAt(units: seq<ReviewUnit>, u: ReviewUnit)
    requires DistinctIds(units) && u in units
    ensures u.id in UnitGraph(units) && UnitGraph(units)[u.id] == u.dependsOn
  {
    forall v | v in units && v.id == u.id
      ensures v == u
    {
      DistinctMembers(units, u, v);
    }
  }

  // ----- sorting by identifier -----

  function UnitKey(u: ReviewUnit): nat {
    u.id
  }

  /** The stable `sort_by` on identifiers. */
  function SortUnits(units: seq<ReviewUnit>): seq<ReviewUnit> {
    KeyedLists.Sort(UnitKey, units)
  }

  lemma {:induction false} InsertMembers(u: ReviewUnit, sorted: seq<ReviewUnit>)
    ensures forall x :: x in KeyedLists.Insert(UnitKey, u, sorted) <==> x == u || x in sorted
    ensures Apart(KeyedLists.Insert(UnitKey, u, sorted))
        <==> Apart(sorted) && forall v :: v in sorted ==> u.atoms !! v.atoms
    decreases |sorted|
  {
    if sorted == [] || u.id <= sorted[0].id {
      assert ([u] + sorted)[1..] == sorted;
    } else {
      var rest := sorted[1..];
      InsertMembers(u, rest);
      assert sorted == [sorted[0]] + rest;
      var more := KeyedLists.Insert(UnitKey, u, rest);
      assert ([sorted[0]] + more)[1..] == more;
    }
  }

  ghost predicate SortedById(units: seq<ReviewUnit>) {
    forall i, j :: 0 <= i < j < |units| ==> units[i].id <= units[j].id
  }

  /** Plans list their units in the order of their identifiers. */
  lemma SortSorts(units: seq<ReviewUnit>)
    ensures SortedById(SortUnits(units))
  {
    KeyedLists.SortOrders(UnitKey, units);
    hide KeyedLists.Sort;
    assert forall u: ReviewUnit :: UnitKey(u) == u.id;
  }

  lemma {:induction false} SortMembers(units: seq<ReviewUnit>)
    ensures forall x :: x in SortUnits(units) <==> x in units
    ensures Apart(SortUnits(units)) <==> Apart(units)
    decreases |units|
  {
    if units != [] {
      var rest := units[1..];
      assert units == [units[0]] + rest;
      SortMembers(rest);
      InsertMembers(units[0], SortUnits(rest));
    }
  }

  /** Sorting changes neither the atoms nor the graph. */
  lemma SortKeeps(units: seq<ReviewUnit>, atoms: set<AtomId>)
    ensures UnitGraph(SortUnits(units)) == UnitGraph(units)
    ensures Partitions(SortUnits(units), atoms) <==> Partitions(units, atoms)
  {
    SortMembers(units);
    SameMembers(SortUnits(units), units);
  }

  lemma SameMembers(a: seq<ReviewUnit>, b: seq<ReviewUnit>)
    requires forall x :: x in a <==> x in b
    ensures UnitGraph(a) == UnitGraph(b) && UnitAtoms(a) == UnitAtoms(b) && (NoneEmpty(a) <==> NoneEmpty(b))
  {
    assert UnitIds(a) == UnitIds(b);
    forall id | id in UnitIds(a)
      ensures UnitGraph(a)[id] == UnitGraph(b)[id]
    {
      assert forall d :: d in UnitGraph(a)[id] <==> d in UnitGraph(b)[id];
    }
  }

  // ----- confidence -----

  function Sum(deps: seq<AtomDependency>): nat {
    if deps == [] then 0 else deps[0].confidenceMilli + Sum(deps[1..])
  }

  function U16Of(n: nat): U16 {
    n % 0x1_0000
  }

  function Average(sum: nat, n: nat): nat
    requires n > 0
  {
    sum / n
  }

  function Confidence(deps: seq<AtomDependency>, atomCount: nat): U16 {
    if atomCount == 0 then 0
    else if deps == [] then 850
    else U16Of(Average(Sum(deps), |deps|))
  }

  lemma {:induction false} SumBounds(deps: seq<AtomDependency>, lo: nat, hi: nat)
    requires forall d :: d in deps ==> lo <= d.confidenceMilli <= hi
    ensures lo * |deps| <= Sum(deps) <= hi * |deps|
    decreases |deps|
  {
    if deps != [] {
      assert deps[0] in deps;
      assert forall d :: d in deps[1..] ==> d in deps;
      SumBounds(deps[1..], lo, hi);
      OneMore(lo, |deps|);
      OneMore(hi, |deps|);
    }
  }

  lemma OneMore(x: nat, n: nat)
    requires n > 0
    ensures x * n == x + x * (n - 1)
  {
  }

  lemma DivisionFacts(sum: nat, n: nat)
    requires n > 0
    ensures Average(sum, n) * n <= sum < (Average(sum, n) + 1) * n
  {
  }

  lemma AverageBetween(sum: nat, n: nat, lo: nat, hi: nat)
    requires n > 0 && lo * n <= sum <= hi * n
    ensures lo <= Average(sum, n) <= hi
  {
    hide Average;
    DivisionFacts(sum, n);
  }

  lemma U16OfSmall(n: nat)
    requires n < 0x1_0000
    ensures U16Of(n) == n
  {
  }

  /** The confidences added up, from the last one. */
  ghost function Total(deps: seq<AtomDependency>): nat {
    if deps == [] then 0 else deps[|deps| - 1].confidenceMilli + Total(deps[..|deps| - 1])
  }

  /** The confidence of a plan: nothing without atoms, 850 thousandths when nothing is
      known about them, otherwise the average of the dependencies, rounded down. */
  ghost predicate IsConfidence(deps: seq<AtomDependency>, atomCount: nat, c: nat) {
    if atomCount == 0 then c == 0
    else if deps == [] then c == 850
    else c * |deps| <= Total(deps) < (c + 1) * |deps|
  }

  lemma {:induction false} SumSnoc(deps: seq<AtomDependency>, d: AtomDependency)
    ensures Sum(deps + [d]) == Sum(deps) + d.confidenceMilli
    decreases |deps|
  {
    if deps == [] {
      assert (deps + [d])[1..] == [];
    } else {
      assert (deps + [d])[1..] == deps[1..] + [d];
      SumSnoc(deps[1..], d);
    }
  }

  lemma {:induction false} TotalIsSum(deps: seq<AtomDependency>)
    ensures Total(deps) == Sum(deps)
    decreases |deps|
  {
    if deps != [] {
      var init := deps[..|deps| - 1];
      TotalIsSum(init);
      SumSnoc(init, deps[|deps| - 1]);
      assert deps == init + [deps[|deps| - 1]];
    }
  }

  lemma QuotientIsUnique(n: nat, sum: nat, c: nat)
    requires n > 0
    ensures c * n <= sum < (c + 1) * n <==> c == Average(sum, n)
  {
    DivisionFacts(sum, n);
    var q := Average(sum, n);
    hide Average;
    if c < q {
      ProductsGrow(c + 1, q, n);
    } else if q < c {
      ProductsGrow(q + 1, c, n);
    }
  }

  lemma ProductsGrow(a: nat, b: nat, n: nat)
    requires a <= b
    ensures a * n <= b * n
  {
  }

  /** The narrowing cast loses nothing: the average of 16-bit confidences has 16 bits. */
  lemma ConfidenceIs(deps: seq<AtomDependency>, atomCount: nat, c: nat)
    ensures IsConfidence(deps, atomCount, c) <==> c == Confidence(deps, atomCount)
  {
    hide U16Of, Sum, Total, Average;
    if atomCount > 0 && deps != [] {
      TotalIsSum(deps);
      SumBounds(deps, 0, 0xFFFF);
      AverageBetween(Sum(deps), |deps|, 0, 0xFFFF);
      U16OfSmall(Average(Sum(deps), |deps|));
      QuotientIsUnique(|deps|, Sum(deps), c);
    }
  }

  /** The confidence of a plan lies between the
      least and the greatest confidence of its dependencies. */
  lemma ConfidenceBetween(deps: seq<AtomDependency>, atomCount: nat, lo: nat, hi: nat)
    requires deps != [] && atomCount > 0 && hi < 0x1_0000
    requires forall d :: d in deps ==> lo <= d.confidenceMilli <= hi
    ensures lo <= Confidence(deps, atomCount) <= hi
  {
    hide U16Of, Sum, Average;
    SumBounds(deps, lo, hi);
    AverageBetween(Sum(deps), |deps|, lo, hi);
    U16OfSmall(Average(Sum(deps), |deps|));
  }

  // ----- plan -----

  /** The component that holds an atom. */
  function PartOf(parts: seq<set<AtomId>>, a: AtomId): (r: Option<nat>)
    ensures r.Some? ==> r.value < |parts| && a in parts[r.value]
    ensures r.None? ==> forall i :: 0 <= i < |parts| ==> a !in parts[i]
    decreases |parts|
  {
    if parts == [] then None
    else if a in parts[|parts| - 1] then Some(|parts| - 1)
    else PartOf(parts[..|parts| - 1], a)
  }

  /** The dependencies that order units; a causal one only informs the confidence. */
  predicate Orders(kind: DependencyKind) {
    kind.Hard? || kind.Import? || kind.Test? || kind.Configuration?
  }

  predicate Links(parts: seq<set<AtomId>>, d: AtomDependency, i: nat) {
    && Orders(d.kind) && PartOf(parts, d.from) == Some(i)
    && PartOf(parts, d.to).Some? && PartOf(parts, d.to) != Some(i)
  }

  function PlannedUnit(parts: seq<set<AtomId>>, deps: seq<AtomDependency>, confidence: nat, unitId: set<AtomId> -> nat,
                       i: nat): ReviewUnit
    requires i < |parts|
  {
    ReviewUnit(unitId(parts[i]), parts[i],
               set d | d in deps && Links(parts, d, i) :: unitId(parts[PartOf(parts, d.to).value]), confidence)
  }

  ghost function PlannedUnits(parts: seq<set<AtomId>>, deps: seq<AtomDependency>, confidence: nat,
                              unitId: set<AtomId> -> nat)
    : (units: seq<ReviewUnit>)
    ensures |units| == |parts|
  {
    seq(|parts|, i requires 0 <= i < |parts| => PlannedUnit(parts, deps, confidence, unitId, i))
  }

  /** One unit for each component, linked by the dependencies between components. */
  ghost predicate IsPlanned(units: seq<ReviewUnit>, atoms: set<AtomId>, deps: seq<AtomDependency>, confidence: nat,
                            unitId: set<AtomId> -> nat) {
    exists parts ::
        AreComponents(deps, atoms, parts, atoms) && units == SortUnits(PlannedUnits(parts, deps, confidence, unitId))
  }

  /** Too little is known to divide the atoms. */
  predicate Insufficient(atoms: seq<ChangeAtom>, deps: seq<AtomDependency>, coverage: nat, minimumCoverage: nat,
                         minimumConfidence: nat) {
    coverage < minimumCoverage || Confidence(deps, |atoms|) < minimumConfidence
  }

  ghost predicate PlanResult(atoms: seq<ChangeAtom>, deps: seq<AtomDependency>, coverage: nat, minimumCoverage: nat,
                             minimumConfidence: nat, unitId: set<AtomId> -> nat, units: seq<ReviewUnit>)
  {
    var confidence := Confidence(deps, |atoms|);
    if Insufficient(atoms, deps, coverage, minimumCoverage, minimumConfidence)
    then units == [ReviewUnit(unitId(AtomIds(atoms)), AtomIds(atoms), {}, confidence)]
    else IsPlanned(units, AtomIds(atoms), deps, confidence, unitId)
  }

  method Plan(atoms: seq<ChangeAtom>, deps: seq<AtomDependency>, coverage: nat, minimumCoverage: nat,
              minimumConfidence: nat, unitId: set<AtomId> -> nat)
    returns (units: seq<ReviewUnit>)
    ensures PlanResult(atoms, deps, coverage, minimumCoverage, minimumConfidence, unitId, units)
    ensures forall c: nat :: IsConfidence(deps, |atoms|, c) ==>
      if coverage < minimumCoverage || c < minimumConfidence
      then units == [ReviewUnit(unitId(AtomIds(atoms)), AtomIds(atoms), {}, c)]
      else IsPlanned(units, AtomIds(atoms), deps, c, unitId)
  {
    hide AreComponents, SortUnits, IsConfidence;
    forall c: nat
      ensures IsConfidence(deps, |atoms|, c) <==> c == Confidence(deps, |atoms|)
    {
      ConfidenceIs(deps, |atoms|, c);
    }
    var confidence := Confidence(deps, |atoms|);
    if coverage < minimumCoverage || confidence < minimumConfidence {
      return [ReviewUnit(unitId(AtomIds(atoms)), AtomIds(atoms), {}, confidence)];
    }
    var components := HardComponents(atoms, deps);
    units := seq(|components|, i requires 0 <= i < |components| =>
      ReviewUnit(unitId(components[i]), components[i], {}, confidence));
    NoDeps(components, confidence, unitId);
    units := LinkUnits(units, components, deps, confidence, unitId);
    units := SortUnits(units);
  }

  /** The loop over the dependencies. */
  method LinkUnits(unlinked: seq<ReviewUnit>, parts: seq<set<AtomId>>, deps: seq<AtomDependency>,
                   ghost confidence: nat, unitId: set<AtomId> -> nat)
    returns (units: seq<ReviewUnit>)
    requires unlinked == PlannedUnits(parts, [], confidence, unitId)
    ensures units == PlannedUnits(parts, deps, confidence, unitId)
  {
    hide PlannedUnits, PartOf, Orders;
    units := unlinked;
    assert deps[..0] == [];
    for k := 0 to |deps|
      invariant units == PlannedUnits(parts, deps[..k], confidence, unitId)
    {
      var dep := deps[k];
      var from, to := PartOf(parts, dep.from), PartOf(parts, dep.to);
      DepStep(parts, deps, k, confidence, unitId);
      if from.Some? && to.Some? && from != to && Orders(dep.kind) {
        var u := units[from.value];
        units := units[from.value := u.(dependsOn := u.dependsOn + {unitId(parts[to.value])})];
      }
    }
    assert deps[..|deps|] == deps;
  }

  lemma NoDeps(parts: seq<set<AtomId>>, confidence: nat, unitId: set<AtomId> -> nat)
    ensures PlannedUnits(parts, [], confidence, unitId)
         == seq(|parts|, i requires 0 <= i < |parts| => ReviewUnit(unitId(parts[i]), parts[i], {}, confidence))
  {
    forall i | 0 <= i < |parts|
      ensures PlannedUnit(parts, [], confidence, unitId, i).dependsOn == {}
    {
    }
  }

  lemma DepSnoc(parts: seq<set<AtomId>>, deps: seq<AtomDependency>, dep: AtomDependency, confidence: nat,
                unitId: set<AtomId> -> nat, i: nat)
    requires i < |parts|
    ensures
      var u := PlannedUnit(parts, deps, confidence, unitId, i);
      PlannedUnit(parts, deps + [dep], confidence, unitId, i)
      == if Links(parts, dep, i) then u.(dependsOn := u.dependsOn + {unitId(parts[PartOf(parts, dep.to).value])}) else u
  {
    hide Links, PartOf;
    assert forall d :: d in deps + [dep] <==> d in deps || d == dep;
  }

  lemma DepStep(parts: seq<set<AtomId>>, deps: seq<AtomDependency>, k: nat, confidence: nat, unitId: set<AtomId> -> nat)
    requires k < |deps|
    ensures
      var units := PlannedUnits(parts, deps[..k], confidence, unitId);
      var from, to := PartOf(parts, deps[k].from), PartOf(parts, deps[k].to);
      PlannedUnits(parts, deps[..k + 1], confidence, unitId)
      == if from.Some? && to.Some? && from != to && Orders(deps[k].kind) then
           units[from.value := units[from.value].(dependsOn := units[from.value].dependsOn + {unitId(parts[to.value])})]
         else units
  {
    hide PlannedUnit, Orders, PartOf;
    assert deps[..k + 1] == deps[..k] + [deps[k]];
    forall i | 0 <= i < |parts|
      ensures
        var u := PlannedUnit(parts, deps[..k], confidence, unitId, i);
        PlannedUnit(parts, deps[..k + 1], confidence, unitId, i)
        == if Links(parts, deps[k], i)
           then u.(dependsOn := u.dependsOn + {unitId(parts[PartOf(parts, deps[k].to).value])})
           else u
    {
      DepSnoc(parts, deps[..k], deps[k], confidence, unitId, i);
    }
  }

  // ----- what a planned partition is -----

  /** A well-formed plan: a partition with derived identifiers whose dependencies stay
      inside and do not name their own unit. */
  ghost predicate WellFormed(units: seq<ReviewUnit>, atoms: set<AtomId>, unitId: set<AtomId> -> nat) {
    && Partitions(units, atoms) && Derived(units, unitId)
    && Closed(UnitGraph(units)) && NoLoops(UnitGraph(units))
  }

  lemma {:induction false} PartsApart(parts: seq<set<AtomId>>, units: seq<ReviewUnit>)
    requires |parts| == |units| && forall i :: 0 <= i < |parts| ==> units[i].atoms == parts[i]
    ensures Apart(units) <==> forall i, j :: 0 <= i < j < |parts| ==> parts[i] !! parts[j]
    decreases |parts|
  {
    if units != [] {
      var rest := units[1..];
      PartsApart(parts[1..], rest);
      assert forall i :: 0 <= i < |rest| ==> parts[1..][i] == parts[i + 1] && rest[i].atoms == parts[i + 1];
      if Apart(units) {
        forall i, j | 0 <= i < j < |parts|
          ensures parts[i] !! parts[j]
        {
          assert rest[j - 1] in rest;
          assert i > 0 ==> parts[1..][i - 1] !! parts[1..][j - 1];
        }
      }
    }
  }

  lemma PartHolds(parts: seq<set<AtomId>>, a: AtomId, i: nat)
    requires i < |parts| && forall j, k :: 0 <= j < k < |parts| ==> parts[j] !! parts[k]
    ensures PartOf(parts, a) == Some(i) <==> a in parts[i]
  {
    assert forall j :: 0 <= j < |parts| && j != i ==> parts[j] !! parts[i];
  }

  /** A planned unit depends on another exactly when some dependency that orders units
      leads from one of its atoms to one of the other's. */
  lemma PlannedDependency(atoms: set<AtomId>, parts: seq<set<AtomId>>, deps: seq<AtomDependency>, confidence: nat,
                          unitId: set<AtomId> -> nat, i: nat, j: nat)
    requires Injective(unitId) && AreComponents(deps, atoms, parts, atoms) && i < |parts| && j < |parts| && i != j
    ensures
      var units := PlannedUnits(parts, deps, confidence, unitId);
      units[j].id in units[i].dependsOn
      <==> exists d :: d in deps && !d.kind.Causal? && d.from in units[i].atoms && d.to in units[j].atoms
  {
    hide IsComponent, PartOf;
    var units := PlannedUnits(parts, deps, confidence, unitId);
    if units[j].id in units[i].dependsOn {
      var d :| d in deps && Links(parts, d, i) && unitId(parts[j]) == unitId(parts[PartOf(parts, d.to).value]);
      var k := PartOf(parts, d.to).value;
      PartHolds(parts, d.from, i);
      PartHolds(parts, d.to, k);
      assert parts[k] == parts[j];
    }
    if d :| d in deps && !d.kind.Causal? && d.from in parts[i] && d.to in parts[j] {
      PartHolds(parts, d.from, i);
      PartHolds(parts, d.to, j);
      assert Links(parts, d, i);
    }
  }

  lemma PlannedAtoms(atoms: set<AtomId>, parts: seq<set<AtomId>>, deps: seq<AtomDependency>, confidence: nat,
                     unitId: set<AtomId> -> nat)
    requires AreComponents(deps, atoms, parts, atoms)
    ensures Partitions(PlannedUnits(parts, deps, confidence, unitId), atoms)
  {
    var units := PlannedUnits(parts, deps, confidence, unitId);
    hide IsComponent, Links;
    PartsApart(parts, units);
    assert forall i :: 0 <= i < |parts| ==> units[i] in units && units[i].atoms == parts[i];
    forall a
      ensures a in UnitAtoms(units) <==> a in atoms
    {
      if i :| 0 <= i < |parts| && a in parts[i] {
        assert a in units[i].atoms;
      }
    }
  }

  lemma PlannedClosed(parts: seq<set<AtomId>>, deps: seq<AtomDependency>, confidence: nat, unitId: set<AtomId> -> nat,
                      i: nat)
    requires Injective(unitId) && i < |parts|
    requires forall j :: 0 <= j < |parts| ==> parts[j] != {}
    requires forall j, k :: 0 <= j < k < |parts| ==> parts[j] !! parts[k]
    ensures
      var units := PlannedUnits(parts, deps, confidence, unitId);
      units[i].dependsOn <= UnitIds(units) - {units[i].id}
  {
    var units := PlannedUnits(parts, deps, confidence, unitId);
    forall d | d in units[i].dependsOn
      ensures d in UnitIds(units) - {units[i].id}
    {
      var dep :| dep in deps && Links(parts, dep, i) && d == unitId(parts[PartOf(parts, dep.to).value]);
      var j := PartOf(parts, dep.to).value;
      assert units[j] in units && units[j].id == d;
      assert i != j && parts[i] !! parts[j] && parts[i] != {};
    }
  }

  lemma SortedWellFormed(units: seq<ReviewUnit>, atoms: set<AtomId>, unitId: set<AtomId> -> nat)
    ensures WellFormed(SortUnits(units), atoms, unitId) <==> WellFormed(units, atoms, unitId)
  {
    SortMembers(units);
    SortKeeps(units, atoms);
    hide Partitions, UnitGraph, Closed, SortUnits;
  }

  /** Whatever the atoms and dependencies, planning yields a partition of the atoms
      into identified units with closed dependencies. */
  lemma PlannedUnitsWellFormed(atoms: set<AtomId>, parts: seq<set<AtomId>>, deps: seq<AtomDependency>, confidence: nat,
                               unitId: set<AtomId> -> nat)
    requires Injective(unitId) && AreComponents(deps, atoms, parts, atoms)
    ensures WellFormed(SortUnits(PlannedUnits(parts, deps, confidence, unitId)), atoms, unitId)
  {
    var units := PlannedUnits(parts, deps, confidence, unitId);
    PlannedAtoms(atoms, parts, deps, confidence, unitId);
    hide PlannedUnits, UnitIds, Partitions, UnitGraph, IsComponent;
    forall i | 0 <= i < |units|
      ensures units[i].id == unitId(units[i].atoms)
    {
    }
    forall i | 0 <= i < |parts|
      ensures units[i].dependsOn <= UnitIds(units) - {units[i].id}
    {
      PlannedClosed(parts, deps, confidence, unitId, i);
    }
    PlannedFromPoints(units, atoms, unitId);
    SortedWellFormed(units, atoms, unitId);
  }

  lemma PlannedFromPoints(units: seq<ReviewUnit>, atoms: set<AtomId>, unitId: set<AtomId> -> nat)
    requires Partitions(units, atoms)
    requires forall i :: 0 <= i < |units| ==> units[i].id == unitId(units[i].atoms)
    requires forall i :: 0 <= i < |units| ==> units[i].dependsOn <= UnitIds(units) - {units[i].id}
    ensures WellFormed(units, atoms, unitId)
  {
    hide Partitions, UnitIds, UnitGraph;
    forall u | u in units
      ensures u.dependsOn <= UnitIds(units) - {u.id}
    {
      var i :| 0 <= i < |units| && units[i] == u;
    }
    ClosedByMembers(units);
    LoopFreeByMembers(units);
  }

  lemma ClosedByMembers(units: seq<ReviewUnit>)
    requires forall u :: u in units ==> u.dependsOn <= UnitIds(units)
    ensures Closed(UnitGraph(units))
  {
  }

  lemma LoopFreeByMembers(units: seq<ReviewUnit>)
    requires forall u :: u in units ==> u.id !in u.dependsOn
    ensures NoLoops(UnitGraph(units))
  {
  }

  // ----- ReviewPlan::validate -----

  datatype ReviewPlan = ReviewPlan(
    units: seq<ReviewUnit>,
    atomPaths: map<AtomId, string>,
    atoms: seq<ChangeAtom>,
    coverageMilli: nat)

  ghost predicate DistinctAtoms(atoms: seq<ChangeAtom>) {
    |AtomIds(atoms)| == |atoms|
  }

  /** What the validation is to accept. Plans without an atom manifest are of an old
      format and need not partition anything. */
  ghost predicate ValidPlan(plan: ReviewPlan) {
    && plan.coverageMilli <= 1000
    && plan.units != [] && NoneEmpty(plan.units) && DistinctIds(plan.units)
    && (plan.atoms != [] ==>
          && DistinctAtoms(plan.atoms)
          && Partitions(plan.units, AtomIds(plan.atoms))
          && (plan.atomPaths != map[] ==> plan.atomPaths.Keys == AtomIds(plan.atoms)))
    && Closed(UnitGraph(plan.units)) && Acyclic(UnitGraph(plan.units))
  }

  method ValidatePlan(plan: ReviewPlan) returns (result: Result<()>)
    ensures result.Ok? <==> ValidPlan(plan)
  {
    if plan.coverageMilli > 1000 || plan.units == [] {
      return Err(Invalid);
    }
    var distinct, ids := CheckUnits(plan.units);
    if !distinct {
      return Err(Invalid);
    }
    if plan.atoms != [] {
      var atomIds := AtomIds(plan.atoms);
      if |atomIds| != |plan.atoms| {
        return Err(Invalid);
      }
      var apart, used := CheckPartition(plan.units, atomIds);
      if !apart || used != atomIds {
        return Err(Invalid);
      }
      if plan.atomPaths != map[] && plan.atomPaths.Keys != atomIds {
        return Err(Invalid);
      }
    }
    var closed := CheckClosed(plan.units, ids);
    if !closed {
      return Err(Invalid);
    }
    var acyclic := CheckAcyclic(plan.units, ids);
    if !acyclic {
      return Err(Invalid);
    }
    return Ok(());
  }

  /** Non-empty units with unique identifiers. */
  method CheckUnits(units: seq<ReviewUnit>) returns (ok: bool, ids: set<nat>)
    ensures ok <==> NoneEmpty(units) && DistinctIds(units)
    ensures ok ==> ids == UnitIds(units)
  {
    ids := {};
    for i := 0 to |units|
      invariant ids == UnitIds(units[..i]) && NoneEmpty(units[..i]) && DistinctIds(units[..i])
    {
      var u := units[i];
      assert units[..i + 1] == units[..i] + [u];
      IdsSnoc(units[..i], u);
      if u.atoms == {} || u.id in ids {
        Prefix(units, i + 1);
        return false, ids;
      }
      ids := ids + {u.id};
    }
    assert units[..|units|] == units;
    ok := true;
  }

  lemma {:induction false} IdsSnoc(units: seq<ReviewUnit>, u: ReviewUnit)
    ensures UnitIds(units + [u]) == UnitIds(units) + {u.id}
    ensures NoneEmpty(units + [u]) <==> NoneEmpty(units) && u.atoms != {}
    ensures DistinctIds(units + [u]) <==> DistinctIds(units) && u.id !in UnitIds(units)
    decreases |units|
  {
    var all := units + [u];
    assert forall x :: x in all <==> x in units || x == u;
    if units != [] {
      assert all[1..] == units[1..] + [u] && units == [units[0]] + units[1..];
      IdsSnoc(units[1..], u);
    }
  }

  lemma {:induction false} Prefix(units: seq<ReviewUnit>, n: nat)
    requires n <= |units|
    ensures NoneEmpty(units) ==> NoneEmpty(units[..n])
    ensures DistinctIds(units) ==> DistinctIds(units[..n])
    ensures Apart(units) ==> Apart(units[..n])
    ensures UnitAtoms(units[..n]) <= UnitAtoms(units)
    decreases |units| - n
  {
    if n < |units| {
      Prefix(units, n + 1);
      var u := units[n];
      assert units[..n + 1] == units[..n] + [u];
      IdsSnoc(units[..n], u);
      AtomsSnoc(units[..n], u);
    } else {
      assert units[..n] == units;
    }
  }

  lemma {:induction false} AtomsSnoc(units: seq<ReviewUnit>, u: ReviewUnit)
    ensures UnitAtoms(units + [u]) == UnitAtoms(units) + u.atoms
    ensures Apart(units + [u]) <==> Apart(units) && UnitAtoms(units) !! u.atoms
    decreases |units|
  {
    var all := units + [u];
    assert forall x :: x in all <==> x in units || x == u;
    if units != [] {
      assert all[1..] == units[1..] + [u] && units == [units[0]] + units[1..];
      assert forall x :: x in units <==> x == units[0] || x in units[1..];
      AtomsSnoc(units[1..], u);
    }
  }

  /** No unit invents an atom or repeats one. */
  method CheckPartition(units: seq<ReviewUnit>, atomIds: set<AtomId>) returns (ok: bool, used: set<AtomId>)
    ensures ok <==> Apart(units) && UnitAtoms(units) <= atomIds
    ensures ok ==> used == UnitAtoms(units)
  {
    used := {};
    for i := 0 to |units|
      invariant used == UnitAtoms(units[..i]) && used <= atomIds && Apart(units[..i])
    {
      var u := units[i];
      assert units[..i + 1] == units[..i] + [u];
      AtomsSnoc(units[..i], u);
      if !(u.atoms <= atomIds) || !(u.atoms !! used) {
        Prefix(units, i + 1);
        return false, used;
      }
      used := used + u.atoms;
    }
    assert units[..|units|] == units;
    ok := true;
  }

  /** No dangling dependency, and none of a unit on itself. */
  method CheckClosed(units: seq<ReviewUnit>, ids: set<nat>) returns (ok: bool)
    requires ids == UnitIds(units) && DistinctIds(units)
    ensures ok ==> Closed(UnitGraph(units))
    ensures !ok ==> !(Closed(UnitGraph(units)) && Acyclic(UnitGraph(units)))
  {
    for i := 0 to |units|
      invariant forall k :: 0 <= k < i ==> units[k].dependsOn <= ids
    {
      var u := units[i];
      GraphAt(units, u);
      if u.id in u.dependsOn || !(u.dependsOn <= ids) {
        if u.id in u.dependsOn {
          assert IsCycle(UnitGraph(units), [u.id, u.id]);
        }
        return false;
      }
    }
    ClosedByMembers(units);
    ok := true;
  }

  /** The rounds over the units in list order. */
  method CheckAcyclic(units: seq<ReviewUnit>, ids: set<nat>) returns (ok: bool)
    requires ids == UnitIds(units) && DistinctIds(units) && Closed(UnitGraph(units))
    ensures ok <==> Acyclic(UnitGraph(units))
  {
    hide UnitGraph, UnitIds, DistinctIds, Closed, Acyclic, Level;
    ghost var g := UnitGraph(units);
    GraphIds(units);
    var remaining, complete: set<nat> := ids, {};
    ghost var n: nat := 0;
    NothingYet(g);
    while remaining != {}
      invariant complete == Level(g, n) && remaining == g.Keys - complete
      decreases remaining
    {
      var ready := set u | u in units && u.id in remaining && u.dependsOn <= complete :: u.id;
      ReadyIsLayer(units, remaining, complete, ready);
      Round(g, n, remaining, complete);
      if ready == {} {
        return false;
      }
      remaining := remaining - ready;
      complete := complete + ready;
      n := n + 1;
    }
    FullLevelIsDag(g, n);
    ok := true;
  }

  lemma GraphIds(units: seq<ReviewUnit>)
    ensures UnitGraph(units).Keys == UnitIds(units)
  {
  }

  lemma ReadyIsLayer(units: seq<ReviewUnit>, remaining: set<nat>, complete: set<nat>, ready: set<nat>)
    requires DistinctIds(units) && remaining <= UnitIds(units)
    requires ready == set u | u in units && u.id in remaining && u.dependsOn <= complete :: u.id
    ensures
      var g := UnitGraph(units);
      remaining <= g.Keys && ready == set k | k in remaining && g[k] <= complete
  {
    var g := UnitGraph(units);
    forall u | u in units
      ensures u.id in g && g[u.id] == u.dependsOn
    {
      GraphAt(units, u);
    }
    hide UnitGraph;
    forall k | k in remaining && g[k] <= complete
      ensures k in ready
    {
      var u :| u in units && u.id == k;
    }
  }

  /** A well-formed plan over some atoms is accepted if and only if its unit graph has no
      cycle, each atom is listed once, the coverage is in range, and the paths, if there
      are any, are those of the atoms. */
  lemma PlanAcceptedIff(plan: ReviewPlan, unitId: set<AtomId> -> nat)
    requires Injective(unitId) && WellFormed(plan.units, AtomIds(plan.atoms), unitId) && plan.atoms != []
    ensures ValidPlan(plan)
       <==> && Acyclic(UnitGraph(plan.units)) && plan.coverageMilli <= 1000
            && |AtomIds(plan.atoms)| == |plan.atoms|
            && (plan.atomPaths == map[] || plan.atomPaths.Keys == AtomIds(plan.atoms))
  {
    DerivedAreDistinct(plan.units, unitId);
    assert plan.atoms[0].id in AtomIds(plan.atoms);
    assert plan.units != [];
  }
}
