/** Corrections of a review plan: merging review units and splitting one.
 */
module Corrections {
  import opened Wrappers
  import opened Model
  import opened DagSurgery
  import opened Review
  import opened ReviewPlans

  function Selected(units: seq<ReviewUnit>, ids: set<nat>): seq<ReviewUnit> {
    if units == [] then []
    else if units[0].id in ids then [units[0]] + Selected(units[1..], ids)
    else Selected(units[1..], ids)
  }

  function Others(units: seq<ReviewUnit>, ids: set<nat>): seq<ReviewUnit> {
    if units == [] then []
    else if units[0].id in ids then Others(units[1..], ids)
    else [units[0]] + Others(units[1..], ids)
  }

  function DependenciesOf(units: seq<ReviewUnit>): set<nat> {
    set u, d | u in units && d in u.dependsOn :: d
  }

  function LeastConfidence(units: seq<ReviewUnit>): nat {
    if units == [] then 0
    else if |units| == 1 || units[0].confidenceMilli < LeastConfidence(units[1..]) then units[0].confidenceMilli
    else LeastConfidence(units[1..])
  }

  /** The least confidence is that of some unit and no more than that of any. */
  lemma {:induction false} LeastIsLeast(units: seq<ReviewUnit>)
    requires units != []
    ensures exists u :: u in units && u.confidenceMilli == LeastConfidence(units)
    ensures forall u :: u in units ==> LeastConfidence(units) <= u.confidenceMilli
    decreases |units|
  {
    assert units == [units[0]] + units[1..];
    if |units| > 1 {
      LeastIsLeast(units[1..]);
    }
  }

  /** One unit with its dependencies on merged units redirected. */
  function Redirected(u: ReviewUnit, ids: set<nat>, merged: nat): ReviewUnit {
    u.(dependsOn := Redirect(u.dependsOn, ids, merged))
  }

  function MergedUnit(units: seq<ReviewUnit>, ids: set<nat>, unitId: set<AtomId> -> nat): ReviewUnit {
    var selected := Selected(units, ids);
    ReviewUnit(unitId(UnitAtoms(selected)), UnitAtoms(selected), DependenciesOf(selected) - ids,
        LeastConfidence(selected))
  }

  function RedirectAll(units: seq<ReviewUnit>, ids: set<nat>, merged: nat): seq<ReviewUnit> {
    seq(|units|, i requires 0 <= i < |units| => Redirected(units[i], ids, merged))
  }

  function MergeSpec(units: seq<ReviewUnit>, ids: set<nat>, unitId: set<AtomId> -> nat): Result<seq<ReviewUnit>> {
    if |ids| < 2 then Err(Invalid)
    else if |Selected(units, ids)| != |ids| then Err(NotFound)
    else
      var merged := MergedUnit(units, ids, unitId);
      Ok(SortUnits(RedirectAll(Others(units, ids) + [merged], ids, merged.id)))
  }

  method ApplyMerge(units: seq<ReviewUnit>, ids: set<nat>, unitId: set<AtomId> -> nat)
    returns (result: Result<seq<ReviewUnit>>)
    ensures result == MergeSpec(units, ids, unitId)
  {
    if |ids| < 2 {
      return Err(Invalid);
    }
    var selected := Selected(units, ids);
    if |selected| != |ids| {
      return Err(NotFound);
    }
    var merged := MergedUnit(units, ids, unitId);
    var next := RedirectUnits(Others(units, ids) + [merged], ids, merged.id);
    return Ok(SortUnits(next));
  }

  /** The loop that redirects dependencies in place. */
  method RedirectUnits(units: seq<ReviewUnit>, ids: set<nat>, merged: nat) returns (next: seq<ReviewUnit>)
    ensures next == RedirectAll(units, ids, merged)
  {
    next := units;
    for i := 0 to |next|
      invariant |next| == |units|
      invariant forall k :: 0 <= k < |units| ==>
          next[k] == if k < i then Redirected(units[k], ids, merged) else units[k]
    {
      var u := next[i];
      if u.dependsOn * ids != {} {
        next := next[i := u.(dependsOn := u.dependsOn - ids + {merged})];
      }
    }
  }

  // ----- members of the pieces -----

  lemma {:induction false} Pieces(units: seq<ReviewUnit>, ids: set<nat>)
    ensures forall u :: u in Selected(units, ids) <==> u in units && u.id in ids
    ensures forall u :: u in Others(units, ids) <==> u in units && u.id !in ids
    ensures Apart(units) ==> Apart(Others(units, ids)) && Apart(Selected(units, ids))
    ensures DistinctIds(units) ==> DistinctIds(Selected(units, ids))
    decreases |units|
  {
    if units != [] {
      var rest := units[1..];
      Pieces(rest, ids);
      assert units == [units[0]] + rest;
      assert ([units[0]] + Selected(rest, ids))[1..] == Selected(rest, ids);
      assert ([units[0]] + Others(rest, ids))[1..] == Others(rest, ids);
    }
  }

  /** Rewriting dependencies in place changes no atoms. */
  lemma SameAtoms(a: seq<ReviewUnit>, b: seq<ReviewUnit>)
    requires |a| == |b| && forall i :: 0 <= i < |a| ==> a[i].atoms == b[i].atoms
    ensures Apart(a) <==> Apart(b)
    ensures UnitAtoms(a) == UnitAtoms(b) && (NoneEmpty(a) <==> NoneEmpty(b))
  {
    var parts := seq(|a|, i requires 0 <= i < |a| => a[i].atoms);
    PartsApart(parts, a);
    PartsApart(parts, b);
  }

  /** All merged identifiers are found exactly when they name units. */
  lemma {:induction false} SelectedCount(units: seq<ReviewUnit>, ids: set<nat>)
    requires DistinctIds(units)
    ensures |Selected(units, ids)| == |ids * UnitIds(units)|
    decreases |units|
  {
    if units == [] {
      assert ids * UnitIds(units) == {};
    } else {
      var rest := units[1..];
      SelectedCount(rest, ids);
      assert units == [units[0]] + rest;
      assert UnitIds(units) == UnitIds(rest) + {units[0].id};
      if units[0].id in ids {
        assert ids * UnitIds(units) == ids * UnitIds(rest) + {units[0].id};
      } else {
        assert ids * UnitIds(units) == ids * UnitIds(rest);
      }
    }
  }

  // ----- splitting -----

  /** The first unit with an identifier. */
  function Position(units: seq<ReviewUnit>, id: nat): (r: Option<nat>)
    ensures r.Some? ==> r.value < |units| && units[r.value].id == id
    ensures r.None? ==> forall u :: u in units ==> u.id != id
  {
    if units == [] then None
    else if units[0].id == id then Some(0)
    else match Position(units[1..], id)
      case None => None
      case Some(i) => Some(i + 1)
  }

  function UnionOf(groups: seq<set<AtomId>>): set<AtomId> {
    set g, a | g in groups && a in g :: a
  }

  function PartIds(groups: seq<set<AtomId>>, unitId: set<AtomId> -> nat): set<nat> {
    set g | g in groups :: unitId(g)
  }

  function PartUnit(original: ReviewUnit, group: set<AtomId>, unitId: set<AtomId> -> nat): ReviewUnit {
    ReviewUnit(unitId(group), group, original.dependsOn, original.confidenceMilli)
  }

  function PartUnits(original: ReviewUnit, groups: seq<set<AtomId>>, unitId: set<AtomId> -> nat): seq<ReviewUnit> {
    seq(|groups|, i requires 0 <= i < |groups| => PartUnit(original, groups[i], unitId))
  }

  /** One unit whose dependency on the split unit is spread over the parts. */
  function SpreadUnit(u: ReviewUnit, unit: nat, parts: set<nat>): ReviewUnit {
    u.(dependsOn := Spread(u.dependsOn, unit, parts))
  }

  function SpreadAll(units: seq<ReviewUnit>, unit: nat, parts: set<nat>): seq<ReviewUnit> {
    seq(|units|, i requires 0 <= i < |units| => SpreadUnit(units[i], unit, parts))
  }

  function SplitSpec(units: seq<ReviewUnit>, unit: nat, groups: seq<set<AtomId>>, unitId: set<AtomId> -> nat)
    : Result<seq<ReviewUnit>>
  {
    match Position(units, unit)
    case None => Err(NotFound)
    case Some(at) =>
      var original := units[at];
      if |groups| < 2 || {} in groups || UnionOf(groups) != original.atoms then Err(Invalid)
      else
        var next := units[..at] + units[at + 1..] + PartUnits(original, groups, unitId);
        Ok(SortUnits(SpreadAll(next, unit, PartIds(groups, unitId))))
  }

  method ApplySplit(units: seq<ReviewUnit>, unit: nat, groups: seq<set<AtomId>>, unitId: set<AtomId> -> nat)
    returns (result: Result<seq<ReviewUnit>>)
    ensures result == SplitSpec(units, unit, groups, unitId)
  {
    hide SortUnits;
    var position := Position(units, unit);
    if position.None? {
      return Err(NotFound);
    }
    var original := units[position.value];
    var rest := units[..position.value] + units[position.value + 1..];
    if |groups| < 2 || {} in groups || UnionOf(groups) != original.atoms {
      return Err(Invalid);
    }
    var ids := PartIds(groups, unitId);
    var next := rest;
    for i := 0 to |groups|
      invariant next == rest + PartUnits(original, groups, unitId)[..i]
    {
      next := next + [ReviewUnit(unitId(groups[i]), groups[i], original.dependsOn, original.confidenceMilli)];
    }
    assert PartUnits(original, groups, unitId)[..|groups|] == PartUnits(original, groups, unitId);
    next := SpreadUnits(next, unit, ids);
    return Ok(SortUnits(next));
  }

  /** The loop that spreads dependencies in place. */
  method SpreadUnits(units: seq<ReviewUnit>, unit: nat, parts: set<nat>) returns (next: seq<ReviewUnit>)
    ensures next == SpreadAll(units, unit, parts)
  {
    next := units;
    for i := 0 to |next|
      invariant |next| == |units|
      invariant forall k :: 0 <= k < |units| ==>
          next[k] == if k < i then SpreadUnit(units[k], unit, parts) else units[k]
    {
      var u := next[i];
      if unit in u.dependsOn {
        next := next[i := u.(dependsOn := u.dependsOn - {unit} + parts)];
      }
    }
  }
}
