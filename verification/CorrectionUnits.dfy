/** What a corrected plan consists of, told unit by unit, and which corrections are
    refused.
 */
module CorrectionUnits {
  import opened Wrappers
  import opened Model
  import opened Review
  import opened ReviewPlans
  import opened Corrections
  import opened CorrectionLaws

  // ----- merging -----

  /** v is u, except that a dependency on the units of `ids` is one on `others` instead. */
  ghost predicate IsRelinked(u: ReviewUnit, ids: set<nat>, others: set<nat>, v: ReviewUnit) {
    && v.id == u.id && v.atoms == u.atoms && v.confidenceMilli == u.confidenceMilli
    && (u.dependsOn !! ids ==> v.dependsOn == u.dependsOn)
    && (!(u.dependsOn !! ids) ==> v.dependsOn == (u.dependsOn - ids) + others)
  }

  /** The merged unit: the atoms of all, their dependencies on others, and the least of
      their confidences. */
  ghost predicate IsMerged(units: seq<ReviewUnit>, ids: set<nat>, unitId: set<AtomId> -> nat, m: ReviewUnit) {
    && m.id == unitId(m.atoms)
    && (forall a :: a in m.atoms <==> exists u :: u in units && u.id in ids && a in u.atoms)
    && (forall d :: d in m.dependsOn <==> d !in ids && exists u :: u in units && u.id in ids && d in u.dependsOn)
    && (exists u :: u in units && u.id in ids && u.confidenceMilli == m.confidenceMilli)
    && (forall u :: u in units && u.id in ids ==> m.confidenceMilli <= u.confidenceMilli)
  }

  lemma MergedIs(units: seq<ReviewUnit>, ids: set<nat>, unitId: set<AtomId> -> nat)
    requires Selected(units, ids) != []
    ensures IsMerged(units, ids, unitId, MergedUnit(units, ids, unitId))
  {
    Pieces(units, ids);
    LeastIsLeast(Selected(units, ids));
    hide Selected, LeastConfidence;
  }

  ghost predicate KeptByMerge(units: seq<ReviewUnit>, ids: set<nat>, merged: nat, v: ReviewUnit) {
    exists u :: u in units && u.id !in ids && IsRelinked(u, ids, {merged}, v)
  }

  lemma RelinkedIff(u: ReviewUnit, ids: set<nat>, merged: nat, v: ReviewUnit)
    ensures IsRelinked(u, ids, {merged}, v) <==> v == Redirected(u, ids, merged)
  {
  }

  lemma RedirectedMembers(units: seq<ReviewUnit>, ids: set<nat>, merged: nat, v: ReviewUnit)
    ensures v in RedirectAll(units, ids, merged) <==> exists u :: u in units && v == Redirected(u, ids, merged)
  {
    var all := RedirectAll(units, ids, merged);
    hide Redirected;
    if v in all {
      var i :| 0 <= i < |all| && all[i] == v;
    }
    if u :| u in units && v == Redirected(u, ids, merged) {
      var i :| 0 <= i < |units| && units[i] == u;
      assert all[i] == v;
    }
  }

  lemma MergeMembers(units: seq<ReviewUnit>, ids: set<nat>, m: ReviewUnit, v: ReviewUnit)
    requires Redirected(m, ids, m.id) == m
    ensures v in RedirectAll(Others(units, ids) + [m], ids, m.id) <==> v == m || KeptByMerge(units, ids, m.id, v)
  {
    Pieces(units, ids);
    var next := Others(units, ids) + [m];
    RedirectedMembers(next, ids, m.id, v);
    hide Others, RedirectAll, Redirected, IsRelinked;
    assert forall u :: u in next <==> u in Others(units, ids) || u == m;
    forall u
      ensures IsRelinked(u, ids, {m.id}, v) <==> v == Redirected(u, ids, m.id)
    {
      RelinkedIff(u, ids, m.id, v);
    }
  }

  /** After a merge there are the merged unit and the other units, relinked to it. */
  lemma MergeGives(units: seq<ReviewUnit>, ids: set<nat>, unitId: set<AtomId> -> nat) returns (m: ReviewUnit)
    requires MergeSpec(units, ids, unitId).Ok?
    ensures IsMerged(units, ids, unitId, m)
    ensures forall v :: v in MergeSpec(units, ids, unitId).value <==> v == m || KeptByMerge(units, ids, m.id, v)
  {
    m := MergedUnit(units, ids, unitId);
    assert Redirected(m, ids, m.id) == m;
    MergedIs(units, ids, unitId);
    hide Selected, MergedUnit, SortUnits, IsMerged, RedirectAll, KeptByMerge, Redirected;
    SortMembers(RedirectAll(Others(units, ids) + [m], ids, m.id));
    forall v
      ensures v in RedirectAll(Others(units, ids) + [m], ids, m.id) <==> v == m || KeptByMerge(units, ids, m.id, v)
    {
      MergeMembers(units, ids, m, v);
    }
  }

  // ----- splitting -----

  ghost predicate KeptBySplit(units: seq<ReviewUnit>, unit: nat, parts: set<nat>, v: ReviewUnit) {
    exists u :: u in units && u.id != unit && IsRelinked(u, {unit}, parts, v)
  }

  /** A part of the unit: one of the groups with the confidence of the unit and, but for
      a dependency on itself, its dependencies. */
  ghost predicate IsPart(original: ReviewUnit, groups: seq<set<AtomId>>, parts: set<nat>,
                         unitId: set<AtomId> -> nat, v: ReviewUnit) {
    && v.atoms in groups && v.id == unitId(v.atoms)
    && IsRelinked(ReviewUnit(v.id, v.atoms, original.dependsOn, original.confidenceMilli), {original.id}, parts, v)
  }

  lemma SpreadIff(u: ReviewUnit, unit: nat, parts: set<nat>, v: ReviewUnit)
    ensures IsRelinked(u, {unit}, parts, v) <==> v == SpreadUnit(u, unit, parts)
  {
  }

  lemma SpreadMembers(units: seq<ReviewUnit>, unit: nat, parts: set<nat>, v: ReviewUnit)
    ensures v in SpreadAll(units, unit, parts) <==> exists u :: u in units && v == SpreadUnit(u, unit, parts)
  {
    var all := SpreadAll(units, unit, parts);
    hide SpreadUnit;
    if v in all {
      var i :| 0 <= i < |all| && all[i] == v;
    }
    if u :| u in units && v == SpreadUnit(u, unit, parts) {
      var i :| 0 <= i < |units| && units[i] == u;
      assert all[i] == v;
    }
  }

  lemma PartMembers(original: ReviewUnit, groups: seq<set<AtomId>>, unitId: set<AtomId> -> nat, u: ReviewUnit)
    ensures u in PartUnits(original, groups, unitId)
       <==> u.atoms in groups
            && u == ReviewUnit(unitId(u.atoms), u.atoms, original.dependsOn, original.confidenceMilli)
  {
    var parts := PartUnits(original, groups, unitId);
    if u.atoms in groups && u == ReviewUnit(unitId(u.atoms), u.atoms, original.dependsOn, original.confidenceMilli) {
      var i :| 0 <= i < |groups| && groups[i] == u.atoms;
      assert parts[i] == u;
    }
  }

  /** The units before their dependencies are spread. */
  lemma SplitMembers(units: seq<ReviewUnit>, at: nat, groups: seq<set<AtomId>>, unitId: set<AtomId> -> nat,
                     u: ReviewUnit)
    requires DistinctIds(units) && at < |units|
    ensures u in units[..at] + units[at + 1..] + PartUnits(units[at], groups, unitId)
       <==> || (u in units && u.id != units[at].id)
            || (u.atoms in groups
                && u == ReviewUnit(unitId(u.atoms), u.atoms, units[at].dependsOn, units[at].confidenceMilli))
  {
    RestIsOthers(units, at);
    Pieces(units, {units[at].id});
    PartMembers(units[at], groups, unitId, u);
    hide Others, PartUnits, DistinctIds;
  }

  /** After a split there are the parts and the other units, and what depended on the
      split unit depends on all parts. */
  lemma SplitGives(units: seq<ReviewUnit>, unit: nat, groups: seq<set<AtomId>>, unitId: set<AtomId> -> nat,
                   v: ReviewUnit) returns (original: ReviewUnit)
    requires DistinctIds(units) && SplitSpec(units, unit, groups, unitId).Ok?
    ensures original in units && original.id == unit
    ensures
      var parts := set g | g in groups :: unitId(g);
      v in SplitSpec(units, unit, groups, unitId).value
      <==> KeptBySplit(units, unit, parts, v) || IsPart(original, groups, parts, unitId, v)
  {
    var at := Position(units, unit).value;
    original := units[at];
    var next := units[..at] + units[at + 1..] + PartUnits(original, groups, unitId);
    SortMembers(SpreadAll(next, unit, PartIds(groups, unitId)));
    hide SortUnits, SpreadAll, PartUnits, KeptBySplit, IsPart, DistinctIds;
    SpreadGives(units, at, groups, PartIds(groups, unitId), unitId, v);
  }

  lemma SpreadGives(units: seq<ReviewUnit>, at: nat, groups: seq<set<AtomId>>, parts: set<nat>,
                    unitId: set<AtomId> -> nat, v: ReviewUnit)
    requires DistinctIds(units) && at < |units|
    ensures
      var next := units[..at] + units[at + 1..] + PartUnits(units[at], groups, unitId);
      v in SpreadAll(next, units[at].id, parts)
      <==> KeptBySplit(units, units[at].id, parts, v) || IsPart(units[at], groups, parts, unitId, v)
  {
    hide SpreadAll, SpreadUnit, PartUnits, IsRelinked, DistinctIds;
    var unit := units[at].id;
    var next := units[..at] + units[at + 1..] + PartUnits(units[at], groups, unitId);
    SpreadMembers(next, unit, parts, v);
    var part := ReviewUnit(v.id, v.atoms, units[at].dependsOn, units[at].confidenceMilli);
    SplitMembers(units, at, groups, unitId, part);
    SpreadIff(part, unit, parts, v);
    if v in SpreadAll(next, unit, parts) {
      var u :| u in next && v == SpreadUnit(u, unit, parts);
      SpreadIff(u, unit, parts, v);
      SplitMembers(units, at, groups, unitId, u);
      SpreadKeeps(u, unit, parts);
    }
    if KeptBySplit(units, unit, parts, v) {
      var u :| u in units && u.id != unit && IsRelinked(u, {unit}, parts, v);
      SpreadIff(u, unit, parts, v);
      SplitMembers(units, at, groups, unitId, u);
    }
  }

  lemma SpreadKeeps(u: ReviewUnit, unit: nat, parts: set<nat>)
    ensures SpreadUnit(u, unit, parts).id == u.id && SpreadUnit(u, unit, parts).atoms == u.atoms
  {
  }

  // ----- when a correction is refused -----

  /** A merge names at least two units, all of which exist. */
  lemma MergeFailsIff(units: seq<ReviewUnit>, ids: set<nat>, unitId: set<AtomId> -> nat)
    requires DistinctIds(units)
    ensures MergeSpec(units, ids, unitId) == Err(Invalid) <==> |ids| < 2
    ensures MergeSpec(units, ids, unitId) == Err(NotFound) <==> |ids| >= 2 && !(ids <= UnitIds(units))
  {
    SelectedCount(units, ids);
    var found := ids * UnitIds(units);
    assert ids == found + (ids - found);
    hide UnitIds, Selected, MergedUnit, SortUnits;
    if |found| == |ids| {
      assert |ids - found| == 0;
      assert ids <= UnitIds(units);
    }
  }

  /** A split names an existing unit and at least two non-empty groups that have exactly
      its atoms. */
  lemma SplitFailsIff(units: seq<ReviewUnit>, unit: nat, groups: seq<set<AtomId>>, unitId: set<AtomId> -> nat)
    requires DistinctIds(units)
    ensures SplitSpec(units, unit, groups, unitId) == Err(NotFound) <==> forall u :: u in units ==> u.id != unit
    ensures SplitSpec(units, unit, groups, unitId) == Err(Invalid)
       <==> exists u :: u in units && u.id == unit && !MayDivide(u, groups)
  {
    hide SortUnits, SpreadAll, UnionOf;
    var position := Position(units, unit);
    if position.Some? {
      var original := units[position.value];
      forall u | u in units && u.id == unit
        ensures u == original
      {
        DistinctMembers(units, u, original);
      }
      SplitTest(original, groups);
    }
  }

  ghost predicate MayDivide(u: ReviewUnit, groups: seq<set<AtomId>>) {
    && |groups| >= 2 && (forall g :: g in groups ==> g != {})
    && (forall a :: a in u.atoms <==> exists g :: g in groups && a in g)
  }

  lemma SplitTest(u: ReviewUnit, groups: seq<set<AtomId>>)
    ensures MayDivide(u, groups) <==> !(|groups| < 2 || {} in groups || UnionOf(groups) != u.atoms)
  {
    assert forall a :: a in UnionOf(groups) <==> exists g :: g in groups && a in g;
    if forall a :: a in u.atoms <==> a in UnionOf(groups) {
      assert UnionOf(groups) == u.atoms;
    }
  }
}
