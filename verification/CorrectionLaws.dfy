/** What corrections of a review plan keep: the partition, the derived identifiers, closed
    dependencies, and, under an exact condition, the absence of cycles.
 */
module CorrectionLaws {
  import opened Wrappers
  import opened Model
  import opened Dag
  import opened DagSurgery
  import opened TopologicalOrder
  import opened Review
  import opened ReviewPlans
  import opened Corrections

  // ----- merging -----

  /** The merged list before it is sorted. */
  ghost function MergedList(units: seq<ReviewUnit>, ids: set<nat>, unitId: set<AtomId> -> nat): seq<ReviewUnit> {
    var merged := MergedUnit(units, ids, unitId);
    RedirectAll(Others(units, ids) + [merged], ids, merged.id)
  }

  /** The merged unit is a new one. */
  lemma MergedIsNew(units: seq<ReviewUnit>, atoms: set<AtomId>, ids: set<nat>, unitId: set<AtomId> -> nat)
    requires Injective(unitId) && WellFormed(units, atoms, unitId) && |ids| >= 2 && ids <= UnitIds(units)
    ensures MergedUnit(units, ids, unitId).id !in UnitIds(units) && MergedUnit(units, ids, unitId).atoms != {}
  {
    var merged := MergedUnit(units, ids, unitId);
    var a, b := TwoOf(ids);
    var ua :| ua in units && ua.id == a;
    var ub :| ub in units && ub.id == b;
    SelectedWithin(units, ids, ua);
    SelectedWithin(units, ids, ub);
    hide Apart, UnitAtoms, Selected, Injective;
    forall u | u in units
      ensures u.id != merged.id
    {
      HoldsTwo(units, u, ua, ub);
    }
  }

  lemma SelectedWithin(units: seq<ReviewUnit>, ids: set<nat>, u: ReviewUnit)
    requires u in units && u.id in ids
    ensures u.atoms <= UnitAtoms(Selected(units, ids))
  {
    Pieces(units, ids);
    assert u in Selected(units, ids);
  }

  lemma HoldsTwo(units: seq<ReviewUnit>, u: ReviewUnit, a: ReviewUnit, b: ReviewUnit)
    requires Apart(units) && NoneEmpty(units) && u in units && a in units && b in units && a != b
    ensures !(a.atoms + b.atoms <= u.atoms)
  {
    if a.atoms + b.atoms <= u.atoms {
      assert a.atoms * u.atoms == a.atoms && b.atoms * u.atoms == b.atoms;
      ApartMembers(units, a, u);
      ApartMembers(units, b, u);
    }
  }

  lemma TwoOf(s: set<nat>) returns (a: nat, b: nat)
    requires |s| >= 2
    ensures a in s && b in s && a != b
  {
    a :| a in s;
    assert |s - {a}| >= 1;
    b :| b in s - {a};
  }

  lemma MergedApart(units: seq<ReviewUnit>, ids: set<nat>)
    requires Apart(units)
    ensures UnitAtoms(Others(units, ids)) !! UnitAtoms(Selected(units, ids))
  {
    Pieces(units, ids);
    forall u, v, a | u in Others(units, ids) && v in Selected(units, ids) && a in u.atoms
      ensures a !in v.atoms
    {
      if a in v.atoms {
        assert a in u.atoms * v.atoms;
        ApartMembers(units, u, v);
      }
    }
  }

  lemma MergedUnion(units: seq<ReviewUnit>, ids: set<nat>)
    ensures UnitAtoms(Others(units, ids)) + UnitAtoms(Selected(units, ids)) == UnitAtoms(units)
  {
    Pieces(units, ids);
    forall a | a in UnitAtoms(units)
      ensures a in UnitAtoms(Others(units, ids)) + UnitAtoms(Selected(units, ids))
    {
      var u :| u in units && a in u.atoms;
      assert u in Selected(units, ids) || u in Others(units, ids);
    }
  }

  lemma MergeKeepsAtoms(units: seq<ReviewUnit>, atoms: set<AtomId>, ids: set<nat>, unitId: set<AtomId> -> nat)
    requires Partitions(units, atoms) && MergedUnit(units, ids, unitId).atoms != {}
    ensures Partitions(MergedList(units, ids, unitId), atoms)
  {
    var merged := MergedUnit(units, ids, unitId);
    var list := Others(units, ids) + [merged];
    Pieces(units, ids);
    MergedApart(units, ids);
    MergedUnion(units, ids);
    AtomsSnoc(Others(units, ids), merged);
    SameAtoms(MergedList(units, ids, unitId), list);
  }

  lemma MergeDerives(units: seq<ReviewUnit>, ids: set<nat>, unitId: set<AtomId> -> nat)
    requires Derived(units, unitId)
    ensures Derived(MergedList(units, ids, unitId), unitId)
  {
    Pieces(units, ids);
  }

  /** A graph that agrees with every unit is the graph of the units. */
  lemma GraphIs(units: seq<ReviewUnit>, g: Graph)
    requires g.Keys == UnitIds(units) && forall u :: u in units ==> g[u.id] == u.dependsOn
    ensures UnitGraph(units) == g
  {
    forall id | id in g
      ensures UnitGraph(units)[id] == g[id]
    {
      var u :| u in units && u.id == id;
      assert forall d :: d in g[id] ==> d in UnitGraph(units)[id];
    }
  }

  lemma SameIds(a: seq<ReviewUnit>, b: seq<ReviewUnit>)
    requires |a| == |b| && forall i :: 0 <= i < |a| ==> a[i].id == b[i].id
    ensures UnitIds(a) == UnitIds(b)
  {
    assert forall i :: 0 <= i < |a| ==> a[i] in a && b[i] in b;
  }

  lemma OthersIds(units: seq<ReviewUnit>, ids: set<nat>)
    ensures UnitIds(Others(units, ids)) == UnitIds(units) - ids
  {
    Pieces(units, ids);
  }

  lemma MergedIds(units: seq<ReviewUnit>, ids: set<nat>, unitId: set<AtomId> -> nat)
    ensures UnitIds(MergedList(units, ids, unitId)) == UnitIds(units) - ids + {MergedUnit(units, ids, unitId).id}
  {
    var merged := MergedUnit(units, ids, unitId);
    OthersIds(units, ids);
    SameIds(MergedList(units, ids, unitId), Others(units, ids) + [merged]);
  }

  lemma MergedDeps(units: seq<ReviewUnit>, ids: set<nat>, unitId: set<AtomId> -> nat)
    requires DistinctIds(units) && ids <= UnitIds(units)
    ensures MergedUnit(units, ids, unitId).dependsOn == DagSurgery.Union(UnitGraph(units), ids) - ids
  {
    var g := UnitGraph(units);
    Pieces(units, ids);
    forall u | u in units
      ensures u.id in g && g[u.id] == u.dependsOn
    {
      GraphAt(units, u);
    }
    hide UnitGraph;
    forall d
      ensures d in DependenciesOf(Selected(units, ids)) <==> d in DagSurgery.Union(g, ids)
    {
      if k :| k in ids && k in g && d in g[k] {
        var u :| u in units && u.id == k;
        assert u in Selected(units, ids);
      }
    }
  }

  /** The unit graph after the correction is the quotient of the unit graph before. */
  lemma MergeIsQuotient(units: seq<ReviewUnit>, ids: set<nat>, unitId: set<AtomId> -> nat)
    requires DistinctIds(units) && ids <= UnitIds(units) && MergedUnit(units, ids, unitId).id !in UnitIds(units)
    ensures UnitGraph(MergedList(units, ids, unitId))
         == Quotient(UnitGraph(units), ids, MergedUnit(units, ids, unitId).id)
  {
    var merged := MergedUnit(units, ids, unitId);
    var list := Others(units, ids) + [merged];
    var result := MergedList(units, ids, unitId);
    var g := UnitGraph(units);
    var h := Quotient(g, ids, merged.id);
    Pieces(units, ids);
    MergedIds(units, ids, unitId);
    MergedDeps(units, ids, unitId);
    hide MergedUnit, DagSurgery.Union;
    forall u | u in result
      ensures u.id in h && h[u.id] == u.dependsOn
    {
      var i :| 0 <= i < |result| && result[i] == u;
      assert u == Redirected(list[i], ids, merged.id);
      if i < |list| - 1 {
        assert list[i] in Others(units, ids);
        GraphAt(units, list[i]);
      }
    }
    GraphIs(result, h);
  }

  lemma MergedWellFormed(units: seq<ReviewUnit>, atoms: set<AtomId>, ids: set<nat>, unitId: set<AtomId> -> nat)
    requires Injective(unitId) && WellFormed(units, atoms, unitId) && |ids| >= 2 && ids <= UnitIds(units)
    ensures WellFormed(MergedList(units, ids, unitId), atoms, unitId)
    ensures UnitGraph(MergedList(units, ids, unitId))
         == Quotient(UnitGraph(units), ids, MergedUnit(units, ids, unitId).id)
    ensures Acyclic(UnitGraph(units)) ==>
      (Acyclic(UnitGraph(MergedList(units, ids, unitId))) <==> NoEscape(UnitGraph(units), ids))
  {
    var g, m := UnitGraph(units), MergedUnit(units, ids, unitId).id;
    GraphIds(units);
    DerivedAreDistinct(units, unitId);
    MergedIsNew(units, atoms, ids, unitId);
    MergeKeepsAtoms(units, atoms, ids, unitId);
    MergeDerives(units, ids, unitId);
    MergeIsQuotient(units, ids, unitId);
    hide *;
    QuotientNoLoops(g, ids, m);
    if Acyclic(g) {
      QuotientAcyclicIff(g, ids, m);
    }
  }

  /** Merging two or more known units of a well-formed acyclic plan yields a well-formed plan over
      the same atoms, whose graph is the quotient; it is acyclic if and only if no
      dependency chain between two merged units passes through another unit. */
  lemma MergeKeepsPlan(units: seq<ReviewUnit>, atoms: set<AtomId>, ids: set<nat>, unitId: set<AtomId> -> nat)
    requires Injective(unitId) && WellFormed(units, atoms, unitId)
    ensures MergeSpec(units, ids, unitId) == Err(Invalid) <==> |ids| < 2
    ensures MergeSpec(units, ids, unitId) == Err(NotFound) <==> |ids| >= 2 && !(ids <= UnitIds(units))
    ensures |ids| >= 2 && ids <= UnitIds(units) ==>
      var result := MergeSpec(units, ids, unitId);
      && result.Ok? && WellFormed(result.value, atoms, unitId) && SortedById(result.value)
      && UnitGraph(result.value) == Quotient(UnitGraph(units), ids, MergedUnit(units, ids, unitId).id)
      && (Acyclic(UnitGraph(units)) ==> (Acyclic(UnitGraph(result.value)) <==> NoEscape(UnitGraph(units), ids)))
  {
    DerivedAreDistinct(units, unitId);
    SelectedCount(units, ids);
    SubsetCount(ids, UnitIds(units));
    if |ids| >= 2 && ids <= UnitIds(units) {
      var list := MergedList(units, ids, unitId);
      MergedWellFormed(units, atoms, ids, unitId);
      SortedWellFormed(list, atoms, unitId);
      SortKeeps(list, atoms);
      SortSorts(list);
      assert MergeSpec(units, ids, unitId) == Ok(SortUnits(list));
      hide *;
    }
  }

  lemma SubsetCount(a: set<nat>, b: set<nat>)
    ensures |a * b| == |a| <==> a <= b
  {
    if a <= b {
      assert a * b == a;
    } else {
      var x :| x in a && x !in b;
      SubsetSmaller(a * b, a);
    }
  }

  /** Three units in a chain, the first depending on the second and the second on the
      third: merging the ends is accepted and makes the merged unit and the middle one
      depend on each other. */
  lemma MergeExample(unitId: set<AtomId> -> nat)
    requires Injective(unitId)
    ensures
      var units := ChainOfThree(unitId);
      var result := MergeSpec(units, {units[0].id, units[2].id}, unitId);
      && WellFormed(units, {1, 2, 3}, unitId) && Acyclic(UnitGraph(units))
      && result.Ok? && !Acyclic(UnitGraph(result.value))
  {
    var units := ChainOfThree(unitId);
    SinglesDiffer(unitId, 1, 2);
    SinglesDiffer(unitId, 1, 3);
    SinglesDiffer(unitId, 2, 3);
    ChainIsWellFormed(unitId);
    ChainEscapes(units[0].id, units[1].id, units[2].id);
    TwoIds(units[0].id, units[2].id, UnitIds(units));
    MergeKeepsPlan(units, {1, 2, 3}, {units[0].id, units[2].id}, unitId);
    hide *;
  }

  lemma TwoIds(a: nat, b: nat, ids: set<nat>)
    requires a != b && a in ids && b in ids
    ensures |{a, b}| == 2 && {a, b} <= ids
  {
  }

  lemma SinglesDiffer(unitId: set<AtomId> -> nat, x: AtomId, y: AtomId)
    requires Injective(unitId) && x != y
    ensures unitId({x}) != unitId({y})
  {
    assert x in {x} && x !in {y};
  }

  function ChainOfThree(unitId: set<AtomId> -> nat): (units: seq<ReviewUnit>)
    ensures |units| == 3
  {
    [ReviewUnit(unitId({1}), {1}, {unitId({2})}, 0),
     ReviewUnit(unitId({2}), {2}, {unitId({3})}, 0),
     ReviewUnit(unitId({3}), {3}, {}, 0)]
  }

  lemma ChainIsWellFormed(unitId: set<AtomId> -> nat)
    requires Injective(unitId)
    requires unitId({1}) != unitId({2}) && unitId({1}) != unitId({3}) && unitId({2}) != unitId({3})
    ensures
      var units := ChainOfThree(unitId);
      && WellFormed(units, {1, 2, 3}, unitId) && UnitIds(units) == {unitId({1}), unitId({2}), unitId({3})}
      && UnitGraph(units) == map[unitId({1}) := {unitId({2})}, unitId({2}) := {unitId({3})}, unitId({3}) := {}]
  {
    var units := ChainOfThree(unitId);
    ApartThree(units[0], units[1], units[2]);
    assert units == [units[0], units[1], units[2]];
    assert forall u :: u in units <==> u == units[0] || u == units[1] || u == units[2];
    assert UnitAtoms(units) == {1, 2, 3} && NoneEmpty(units) && Derived(units, unitId);
    var g: Graph := map[unitId({1}) := {unitId({2})}, unitId({2}) := {unitId({3})}, unitId({3}) := {}];
    assert Closed(g) && NoLoops(g);
    GraphIs(units, g);
    hide UnitGraph, Apart, UnitAtoms, NoneEmpty, Derived, Closed, NoLoops;
  }

  lemma ApartThree(u: ReviewUnit, v: ReviewUnit, w: ReviewUnit)
    requires u.atoms !! v.atoms && u.atoms !! w.atoms && v.atoms !! w.atoms
    ensures Apart([u, v, w])
  {
    assert Apart([]) && [w][1..] == [];
    assert Apart([w]) && [v, w][1..] == [w];
    assert Apart([v, w]) && [u, v, w][1..] == [v, w];
  }

  lemma ChainEscapes(a: nat, b: nat, c: nat)
    requires a != b && a != c && b != c
    ensures var g: Graph := map[a := {b}, b := {c}, c := {}]; Acyclic(g) && !NoEscape(g, {a, c})
  {
    var g: Graph := map[a := {b}, b := {c}, c := {}];
    ThreeLevels(a, b, c);
    FullLevelIsDag(g, 3);
    var p := [a, b, c];
    assert p[1] !in {a, c};
    assert Escape(g, {a, c}, p);
  }

  lemma ThreeLevels(a: nat, b: nat, c: nat)
    requires a != b && a != c && b != c
    ensures Level(map[a := {b}, b := {c}, c := {}], 3) == {a, b, c}
  {
    var g := map[a := {b}, b := {c}, c := {}];
    assert Level(g, 0) == {};
    assert Level(g, 1) == {c};
    assert Level(g, 2) == {b, c};
  }

  // ----- splitting -----

  ghost predicate Disjoint(groups: seq<set<AtomId>>) {
    forall i, j :: 0 <= i < j < |groups| ==> groups[i] !! groups[j]
  }

  lemma {:induction false} RestIsOthers(units: seq<ReviewUnit>, at: nat)
    requires DistinctIds(units) && at < |units|
    ensures units[..at] + units[at + 1..] == Others(units, {units[at].id})
    decreases |units|
  {
    var rest := units[1..];
    assert units == [units[0]] + rest;
    if at == 0 {
      NoneSelected(rest, {units[0].id});
    } else {
      RestIsOthers(rest, at - 1);
      assert rest[at - 1] == units[at] && units[at] in rest;
      assert units[..at] == [units[0]] + rest[..at - 1] && units[at + 1..] == rest[at..];
    }
  }

  lemma {:induction false} NoneSelected(units: seq<ReviewUnit>, ids: set<nat>)
    requires forall u :: u in units ==> u.id !in ids
    ensures Others(units, ids) == units
    decreases |units|
  {
    if units != [] {
      assert units == [units[0]] + units[1..];
      NoneSelected(units[1..], ids);
    }
  }

  lemma {:induction false} ApartConcat(a: seq<ReviewUnit>, b: seq<ReviewUnit>)
    ensures Apart(a + b) <==> Apart(a) && Apart(b) && UnitAtoms(a) !! UnitAtoms(b)
    ensures UnitAtoms(a + b) == UnitAtoms(a) + UnitAtoms(b)
    decreases |b|
  {
    if b == [] {
      assert a + b == a;
    } else {
      var init, last := b[..|b| - 1], b[|b| - 1];
      assert b == init + [last] && a + b == a + init + [last];
      ApartConcat(a, init);
      AtomsSnoc(a + init, last);
      AtomsSnoc(init, last);
    }
  }

  /** What `apply_correction` demands of a split. */
  ghost predicate CanSplit(original: ReviewUnit, groups: seq<set<AtomId>>) {
    |groups| >= 2 && {} !in groups && UnionOf(groups) == original.atoms
  }

  /** The split list before it is sorted. */
  ghost function SplitList(units: seq<ReviewUnit>, at: nat, groups: seq<set<AtomId>>,
                           unitId: set<AtomId> -> nat): seq<ReviewUnit>
    requires at < |units|
  {
    var next := units[..at] + units[at + 1..] + PartUnits(units[at], groups, unitId);
    SpreadAll(next, units[at].id, PartIds(groups, unitId))
  }

  lemma PartAtoms(original: ReviewUnit, groups: seq<set<AtomId>>, unitId: set<AtomId> -> nat)
    ensures UnitAtoms(PartUnits(original, groups, unitId)) == UnionOf(groups)
    ensures NoneEmpty(PartUnits(original, groups, unitId)) <==> {} !in groups
    ensures Apart(PartUnits(original, groups, unitId)) <==> Disjoint(groups)
  {
    var parts := PartUnits(original, groups, unitId);
    PartsApart(groups, parts);
    assert forall i :: 0 <= i < |groups| ==> parts[i] in parts && groups[i] in groups && parts[i].atoms == groups[i];
  }

  lemma SplitKeepsAtoms(units: seq<ReviewUnit>, atoms: set<AtomId>, at: nat, groups: seq<set<AtomId>>,
                        unitId: set<AtomId> -> nat)
    requires DistinctIds(units) && Partitions(units, atoms) && at < |units| && CanSplit(units[at], groups)
    ensures Partitions(SplitList(units, at, groups, unitId), atoms) <==> Disjoint(groups)
    ensures UnitAtoms(SplitList(units, at, groups, unitId)) == atoms && NoneEmpty(SplitList(units, at, groups, unitId))
  {
    var rest, parts := units[..at] + units[at + 1..], PartUnits(units[at], groups, unitId);
    RestIsOthers(units, at);
    PiecesAtoms(units, units[at].id, units[at]);
    PartAtoms(units[at], groups, unitId);
    ApartConcat(rest, parts);
    SameAtoms(SplitList(units, at, groups, unitId), rest + parts);
    assert forall u :: u in rest + parts <==> u in rest || u in parts;
  }

  lemma PiecesAtoms(units: seq<ReviewUnit>, id: nat, u: ReviewUnit)
    requires DistinctIds(units) && Apart(units) && NoneEmpty(units) && u in units && u.id == id
    ensures UnitAtoms(Others(units, {id})) !! u.atoms && UnitAtoms(Others(units, {id})) + u.atoms == UnitAtoms(units)
    ensures Apart(Others(units, {id})) && NoneEmpty(Others(units, {id}))
  {
    Pieces(units, {id});
    MergedApart(units, {id});
    MergedUnion(units, {id});
    assert forall v :: v in Selected(units, {id}) <==> v == u by {
      forall v | v in units && v.id == id
        ensures v == u
      {
        DistinctMembers(units, u, v);
      }
    }
  }

  /** A part's identifier is never that of another unit. */
  lemma PartsAreNew(units: seq<ReviewUnit>, at: nat, groups: seq<set<AtomId>>, unitId: set<AtomId> -> nat)
    requires Injective(unitId) && Derived(units, unitId) && Apart(units) && at < |units| && CanSplit(units[at], groups)
    ensures forall u :: u in units && u != units[at] ==> u.id !in PartIds(groups, unitId)
  {
    forall u, group | u in units && u != units[at] && group in groups
      ensures u.id != unitId(group)
    {
      assert group != {};
      var a :| a in group;
      assert a in units[at].atoms;
      if u.atoms == group {
        assert a in u.atoms * units[at].atoms;
        ApartMembers(units, u, units[at]);
      }
    }
  }

  lemma PartUnitIds(original: ReviewUnit, groups: seq<set<AtomId>>, unitId: set<AtomId> -> nat)
    ensures UnitIds(PartUnits(original, groups, unitId)) == PartIds(groups, unitId)
  {
    var parts := PartUnits(original, groups, unitId);
    assert forall i :: 0 <= i < |groups| ==>
        parts[i] in parts && groups[i] in groups && parts[i].id == unitId(groups[i]);
  }

  lemma SplitIds(units: seq<ReviewUnit>, at: nat, groups: seq<set<AtomId>>, unitId: set<AtomId> -> nat)
    requires DistinctIds(units) && at < |units|
    ensures UnitIds(SplitList(units, at, groups, unitId)) == UnitIds(units) - {units[at].id} + PartIds(groups, unitId)
  {
    var rest, parts := units[..at] + units[at + 1..], PartUnits(units[at], groups, unitId);
    RestIsOthers(units, at);
    OthersIds(units, {units[at].id});
    PartUnitIds(units[at], groups, unitId);
    SameIds(SplitList(units, at, groups, unitId), rest + parts);
  }

  /** An element of the split list: another unit with its dependencies spread, or a part. */
  lemma SplitElement(units: seq<ReviewUnit>, at: nat, groups: seq<set<AtomId>>, unitId: set<AtomId> -> nat,
                     u: ReviewUnit)
    requires DistinctIds(units) && at < |units| && u in SplitList(units, at, groups, unitId)
    ensures
      || (exists v :: v in units && v.id != units[at].id && u == SpreadUnit(v, units[at].id, PartIds(groups, unitId)))
      || (exists group :: group in groups
            && u == SpreadUnit(PartUnit(units[at], group, unitId), units[at].id, PartIds(groups, unitId)))
  {
    var rest, parts := units[..at] + units[at + 1..], PartUnits(units[at], groups, unitId);
    var all, result := rest + parts, SplitList(units, at, groups, unitId);
    RestIsOthers(units, at);
    Pieces(units, {units[at].id});
    var i :| 0 <= i < |result| && result[i] == u;
    assert u == SpreadUnit(all[i], units[at].id, PartIds(groups, unitId));
    if i < |rest| {
      assert all[i] in rest;
    } else {
      assert groups[i - |rest|] in groups && all[i] == PartUnit(units[at], groups[i - |rest|], unitId);
    }
  }

  /** A unit with spread dependencies agrees with the blow-up of a graph that the
      unit agreed with. */
  lemma SpreadAgrees(g: Graph, v: ReviewUnit, unit: nat, parts: set<nat>)
    requires v.id in g && g[v.id] == v.dependsOn && unit in g && v.id != unit && v.id !in parts
    ensures
      var h, u := BlowUp(g, unit, parts), SpreadUnit(v, unit, parts);
      u.id in h && h[u.id] == u.dependsOn
  {
  }

  lemma SplitAgrees(units: seq<ReviewUnit>, at: nat, groups: seq<set<AtomId>>, unitId: set<AtomId> -> nat,
                    u: ReviewUnit)
    requires DistinctIds(units) && at < |units| && NoLoops(UnitGraph(units)) && units[at].id in UnitGraph(units)
    requires forall v :: v in units && v != units[at] ==> v.id !in PartIds(groups, unitId)
    requires u in SplitList(units, at, groups, unitId)
    ensures
      var h := BlowUp(UnitGraph(units), units[at].id, PartIds(groups, unitId));
      u.id in h && h[u.id] == u.dependsOn
  {
    var g, original, ids := UnitGraph(units), units[at], PartIds(groups, unitId);
    GraphAt(units, original);
    SplitElement(units, at, groups, unitId, u);
    hide UnitGraph, BlowUp, SplitList, DistinctIds, SpreadUnit, PartUnit;
    if v :| v in units && v.id != original.id && u == SpreadUnit(v, original.id, ids) {
      GraphAt(units, v);
      SpreadAgrees(g, v, original.id, ids);
    } else {
      var group :| group in groups && u == SpreadUnit(PartUnit(original, group, unitId), original.id, ids);
    }
  }

  /** The unit graph after a split is the blow-up of the unit graph before. */
  lemma SplitIsBlowUp(units: seq<ReviewUnit>, at: nat, groups: seq<set<AtomId>>, unitId: set<AtomId> -> nat)
    requires Injective(unitId) && DistinctIds(units) && Derived(units, unitId) && Apart(units)
    requires at < |units| && CanSplit(units[at], groups) && NoLoops(UnitGraph(units))
    requires units[at].id in UnitGraph(units)
    ensures PartIds(groups, unitId) * (UnitGraph(units).Keys - {units[at].id}) == {}
    ensures UnitGraph(SplitList(units, at, groups, unitId))
        == BlowUp(UnitGraph(units), units[at].id, PartIds(groups, unitId))
  {
    var h := BlowUp(UnitGraph(units), units[at].id, PartIds(groups, unitId));
    SplitIds(units, at, groups, unitId);
    PartsAreNew(units, at, groups, unitId);
    GraphIds(units);
    hide UnitGraph, CanSplit, Injective, Apart, Derived, SplitList, DistinctIds, PartIds;
    forall u | u in SplitList(units, at, groups, unitId)
      ensures u.id in h && h[u.id] == u.dependsOn
    {
      SplitAgrees(units, at, groups, unitId, u);
    }
    GraphIs(SplitList(units, at, groups, unitId), h);
  }

  /** Splitting a unit of a well-formed plan yields units over the same atoms with
      derived identifiers, closed dependencies and, if there was none before, no cycle;
      the plan is well-formed again if and only if the groups are disjoint, which is
      not checked. */
  lemma SplitKeepsPlan(units: seq<ReviewUnit>, atoms: set<AtomId>, unit: nat, groups: seq<set<AtomId>>,
                       unitId: set<AtomId> -> nat)
    requires Injective(unitId) && WellFormed(units, atoms, unitId)
    ensures
      var result := SplitSpec(units, unit, groups, unitId);
      && (result == Err(NotFound) <==> unit !in UnitIds(units))
      && (result.Ok? <==> exists u :: u in units && u.id == unit && CanSplit(u, groups))
      && (result.Ok? ==>
            && unit in UnitGraph(units)
            && UnitGraph(result.value) == BlowUp(UnitGraph(units), unit, PartIds(groups, unitId))
            && Closed(UnitGraph(result.value)) && NoLoops(UnitGraph(result.value))
            && (Acyclic(UnitGraph(units)) ==> Acyclic(UnitGraph(result.value)))
            && UnitAtoms(result.value) == atoms && SortedById(result.value)
            && (WellFormed(result.value, atoms, unitId) <==> Disjoint(groups)))
  {
    DerivedAreDistinct(units, unitId);
    var result := SplitSpec(units, unit, groups, unitId);
    var position := Position(units, unit);
    if position.Some? {
      var at := position.value;
      assert units[at] in units;
      forall u | u in units && u.id == unit
        ensures u == units[at]
      {
        DistinctMembers(units, u, units[at]);
      }
      if CanSplit(units[at], groups) {
        SplitWellFormed(units, atoms, at, groups, unitId);
        var list := SplitList(units, at, groups, unitId);
        assert result == Ok(SortUnits(list));
        SortedWellFormed(list, atoms, unitId);
        SortKeeps(list, atoms);
        SortMembers(list);
        SortSorts(list);
        SameMembers(SortUnits(list), list);
        hide *;
      }
    }
  }

  lemma SplitWellFormed(units: seq<ReviewUnit>, atoms: set<AtomId>, at: nat, groups: seq<set<AtomId>>,
                        unitId: set<AtomId> -> nat)
    requires Injective(unitId) && WellFormed(units, atoms, unitId) && DistinctIds(units)
    requires at < |units| && CanSplit(units[at], groups)
    ensures
      var list := SplitList(units, at, groups, unitId);
      && units[at].id in UnitGraph(units)
      && UnitGraph(list) == BlowUp(UnitGraph(units), units[at].id, PartIds(groups, unitId))
      && Closed(UnitGraph(list)) && NoLoops(UnitGraph(list))
      && (Acyclic(UnitGraph(units)) ==> Acyclic(UnitGraph(list)))
      && UnitAtoms(list) == atoms
      && (WellFormed(list, atoms, unitId) <==> Disjoint(groups))
  {
    var g, unit, parts := UnitGraph(units), units[at].id, PartIds(groups, unitId);
    var list := SplitList(units, at, groups, unitId);
    GraphAt(units, units[at]);
    SplitKeepsAtoms(units, atoms, at, groups, unitId);
    SplitIsBlowUp(units, at, groups, unitId);
    SplitDerives(units, at, groups, unitId);
    BlowUpNoLoops(g, unit, parts);
    hide SplitList, UnitGraph, BlowUp, Partitions, Acyclic, Closed, NoLoops, UnitAtoms, Derived, Injective, PartIds;
    if Acyclic(g) {
      BlowUpAcyclic(g, unit, parts);
    }
  }

  lemma SplitDerives(units: seq<ReviewUnit>, at: nat, groups: seq<set<AtomId>>, unitId: set<AtomId> -> nat)
    requires Derived(units, unitId) && at < |units|
    ensures Derived(SplitList(units, at, groups, unitId), unitId)
  {
  }

  /** Splitting atoms 1 and 2 into both and the first alone is accepted. */
  lemma OverlapExample(unitId: set<AtomId> -> nat)
    requires Injective(unitId)
    ensures
      var unit := ReviewUnit(unitId({1, 2}), {1, 2}, {}, 0);
      var result := SplitSpec([unit], unit.id, [{1, 2}, {1}], unitId);
      WellFormed([unit], {1, 2}, unitId) && result.Ok? && !WellFormed(result.value, {1, 2}, unitId)
  {
    var unit := ReviewUnit(unitId({1, 2}), {1, 2}, {}, 0);
    var units, groups: seq<set<AtomId>> := [unit], [{1, 2}, {1}];
    assert units[1..] == [];
    assert UnitAtoms(units) == {1, 2};
    assert NoneEmpty(units) && Apart(units) && Derived(units, unitId);
    assert UnitIds(units) == {unit.id};
    GraphIs(units, map[unit.id := {}]);
    assert UnionOf(groups) == {1, 2} by {
      assert {1, 2} in groups;
    }
    assert forall group :: group in groups ==> group == {1, 2} || group == {1};
    assert 1 in groups[0] * groups[1];
    assert unit in units && CanSplit(unit, groups);
    SplitKeepsPlan(units, {1, 2}, unit.id, groups, unitId);
  }
}
