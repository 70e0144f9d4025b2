/** The forge reviews of a review plan: one branch for each unit, stacked on the branch
    of the unit it depends on.
 */
module ReviewProjections {
  import opened Wrappers
  import opened Digits
  import opened Model
  import opened Dag
  import opened TopologicalOrder
  import opened Review
  import opened ReviewPlans
  import Projection
  import KeyedLists

  datatype ForgeReview = ForgeReview(unit: nat, branch: string, base: string)

  /** Of two units with one identifier the later counts. */
  function UnitsById(units: seq<ReviewUnit>): map<nat, ReviewUnit> {
    KeyedLists.Collect(UnitKey, units)
  }

  function DependencyGraph(byId: map<nat, ReviewUnit>): Graph {
    map k | k in byId :: byId[k].dependsOn
  }

  /** On units with distinct identifiers this is the unit graph. */
  lemma {:induction false} DependencyGraphIs(units: seq<ReviewUnit>)
    requires DistinctIds(units)
    ensures DependencyGraph(UnitsById(units)) == UnitGraph(units)
    ensures forall u :: u in units ==> u.id in UnitsById(units) && UnitsById(units)[u.id] == u
    decreases |units|
  {
    var g, byId := UnitGraph(units), UnitsById(units);
    UnitsByIdHolds(units);
    forall u | u in units
      ensures u.id in byId && byId[u.id] == u
    {
      assert byId[u.id] in units && byId[u.id].id == u.id;
      DistinctMembers(units, u, byId[u.id]);
    }
    forall k | k in g
      ensures g[k] == DependencyGraph(byId)[k]
    {
      var u :| u in units && u.id == k;
      GraphAt(units, u);
    }
  }

  lemma UnitsByIdHolds(units: seq<ReviewUnit>)
    ensures UnitsById(units).Keys == UnitIds(units)
    ensures forall k :: k in UnitsById(units) ==> UnitsById(units)[k] in units && UnitsById(units)[k].id == k
  {
    KeyedLists.CollectKeys(UnitKey, units);
    forall u | u in units
      ensures u.id in UnitsById(units)
    {
      var i :| 0 <= i < |units| && units[i] == u;
      assert UnitKey(units[i]) in KeyedLists.Keys(UnitKey, units);
    }
  }

  function UnitBranch(plan: nat, unit: nat): string {
    "orkia/" + Hex(plan, 32) + "/r" + Hex(unit, 32)
  }

  /** The name consists of the digits of the plan and of the unit. */
  lemma UnitBranchReads(plan: Uuid, unit: Uuid)
    ensures
      var s := UnitBranch(plan, unit);
      && |s| == 72 && s[..6] == "orkia/" && s[38..40] == "/r"
      && AllHex(s[6..38]) && ReadHex(s[6..38]) == plan && AllHex(s[40..]) && ReadHex(s[40..]) == unit
  {
    Projection.UuidDigits();
    HexReads(plan, 32);
    HexReads(unit, 32);
    hide Hex, ReadHex, Pow16;
    Pieces("orkia/", Hex(plan, 32), "/r", Hex(unit, 32));
  }

  lemma Pieces(a: string, b: string, c: string, d: string)
    ensures
      var s, i, j := a + b + c + d, |a| + |b|, |a| + |b| + |c|;
      |s| == j + |d| && s[..|a|] == a && s[|a|..i] == b && s[i..j] == c && s[j..] == d
  {
  }

  /** Two reviews are never pushed to one branch. */
  lemma UnitBranchInjective(plan: Uuid, unit: Uuid, otherPlan: Uuid, otherUnit: Uuid)
    requires UnitBranch(plan, unit) == UnitBranch(otherPlan, otherUnit)
    ensures plan == otherPlan && unit == otherUnit
  {
    hide UnitBranch;
    UnitBranchReads(plan, unit);
    UnitBranchReads(otherPlan, otherUnit);
  }

  function ReviewOf(g: Graph, plan: nat, base: string, id: nat): ForgeReview
    requires id in g
  {
    ForgeReview(id, UnitBranch(plan, id), if g[id] == {} then base else UnitBranch(plan, Min(g[id])))
  }

  lemma ReviewIs(g: Graph, plan: nat, base: string, id: nat, parent: string)
    requires id in g && parent == if g[id] == {} then base else UnitBranch(plan, Min(g[id]))
    ensures ForgeReview(id, UnitBranch(plan, id), parent) == ReviewOf(g, plan, base, id)
  {
  }

  ghost predicate Known(g: Graph, ids: seq<nat>) {
    forall i :: 0 <= i < |ids| ==> ids[i] in g
  }

  ghost function ReviewsOf(g: Graph, plan: nat, base: string, ids: seq<nat>): (reviews: seq<ForgeReview>)
    requires Known(g, ids)
    ensures |reviews| == |ids|
  {
    seq(|ids|, i requires 0 <= i < |ids| => ReviewOf(g, plan, base, ids[i]))
  }

  lemma ReviewsSnoc(g: Graph, plan: nat, base: string, ids: seq<nat>, id: nat)
    requires Known(g, ids) && id in g
    ensures Known(g, ids + [id])
    ensures ReviewsOf(g, plan, base, ids + [id]) == ReviewsOf(g, plan, base, ids) + [ReviewOf(g, plan, base, id)]
  {
    hide ReviewOf;
  }

  ghost predicate SingleDependencies(g: Graph) {
    forall k :: k in g ==> |g[k]| <= 1
  }

  lemma OrderIsKnown(g: Graph)
    requires Closed(g) && Acyclic(g)
    ensures Known(g, Order(g))
  {
    OrderIsSorted(g);
    hide Order;
    assert forall i :: 0 <= i < |Order(g)| ==> Order(g)[i] in Elements(Order(g));
  }

  ghost function ReviewsSpec(g: Graph, plan: nat, base: string): Result<seq<ForgeReview>> {
    if Closed(g) && Acyclic(g) && SingleDependencies(g) then
      OrderIsKnown(g);
      Ok(ReviewsOf(g, plan, base, Order(g)))
    else Err(Conflict)
  }

  /** The search for the review of a dependency. */
  function FindReview(reviews: seq<ForgeReview>, unit: nat): Option<ForgeReview> {
    if reviews == [] then None
    else if reviews[0].unit == unit then Some(reviews[0])
    else FindReview(reviews[1..], unit)
  }

  lemma {:induction false} FindListed(g: Graph, plan: nat, base: string, ids: seq<nat>, unit: nat)
    requires Known(g, ids) && unit in Elements(ids)
    ensures FindReview(ReviewsOf(g, plan, base, ids), unit) == Some(ReviewOf(g, plan, base, unit))
    decreases |ids|
  {
    assert ids == [ids[0]] + ids[1..];
    assert ReviewsOf(g, plan, base, ids)[1..] == ReviewsOf(g, plan, base, ids[1..]);
    if ids[0] != unit {
      FindListed(g, plan, base, ids[1..], unit);
    }
  }

  method Projections(units: seq<ReviewUnit>, plan: nat, base: string) returns (result: Result<seq<ForgeReview>>)
    ensures result == ReviewsSpec(DependencyGraph(UnitsById(units)), plan, base)
  {
    hide Level, Layered, SortedSeq, Closed, Acyclic, Order, ReviewsOf, UnitsById, Elements, UnitBranch, Min;
    var byId := UnitsById(units);
    ghost var g := DependencyGraph(byId);
    var remaining := byId.Keys;
    var projected: set<nat> := {};
    var output: seq<ForgeReview> := [];
    ghost var n: nat, ordered: seq<nat> := 0, [];
    NothingYet(g);
    NoReviews(g, plan, base);
    Projection.ElementsOf([]);
    while remaining != {}
      invariant projected == Level(g, n) && remaining == g.Keys - projected
      invariant ordered == Layered(g, n) && Known(g, ordered) && Elements(ordered) == projected
      invariant output == ReviewsOf(g, plan, base, ordered)
      invariant forall k :: k in projected ==> |g[k]| <= 1
      decreases remaining
    {
      Round(g, n, remaining, projected);
      var layer := set k | k in remaining && byId[k].dependsOn <= projected;
      assert layer == set k | k in remaining && g[k] <= projected;
      SortedSeqSorts(layer);
      var ready := SortedSeq(layer);
      Projection.ElementsOf(ready);
      if ready == [] {
        return Err(Conflict);
      }
      var single, more := EmitUnitReviews(byId, plan, base, ready, output, ordered);
      if !single {
        return Err(Conflict);
      }
      output := more;
      ordered := ordered + ready;
      ElementsJoin(Layered(g, n), ready);
      remaining := remaining - layer;
      projected := projected + layer;
      n := n + 1;
    }
    FullLevelIsDag(g, n);
    FullOrder(g, n);
    return Ok(output);
  }

  lemma NoReviews(g: Graph, plan: nat, base: string)
    ensures Known(g, []) && ReviewsOf(g, plan, base, []) == []
  {
  }

  /** The branch of the dependency's review, or the base branch. */
  method ParentOf(unit: ReviewUnit, plan: nat, base: string, output: seq<ForgeReview>, ghost g: Graph,
                  ghost ids: seq<nat>)
    returns (parent: string)
    requires Known(g, ids) && output == ReviewsOf(g, plan, base, ids) && unit.dependsOn <= Elements(ids)
    ensures parent == if unit.dependsOn == {} then base else UnitBranch(plan, Min(unit.dependsOn))
  {
    parent := base;
    if unit.dependsOn != {} {
      hide Min, UnitBranch, Elements;
      FindListed(g, plan, base, ids, Min(unit.dependsOn));
      var found := FindReview(output, Min(unit.dependsOn));
      if found.Some? {
        parent := found.value.branch;
      }
    }
  }

  /** One round: the ready units become reviews, unless one has several dependencies. */
  method EmitUnitReviews(byId: map<nat, ReviewUnit>, plan: nat, base: string, ready: seq<nat>,
                         listed: seq<ForgeReview>, ghost ids: seq<nat>)
    returns (single: bool, output: seq<ForgeReview>)
    requires
      var g := DependencyGraph(byId);
      && Known(g, ids) && Known(g, ready) && listed == ReviewsOf(g, plan, base, ids)
      && forall i :: 0 <= i < |ready| ==> g[ready[i]] <= Elements(ids)
    ensures
      var g := DependencyGraph(byId);
      && (single <==> forall i :: 0 <= i < |ready| ==> |g[ready[i]]| <= 1)
      && (single ==> Known(g, ids + ready) && output == ReviewsOf(g, plan, base, ids + ready))
  {
    hide ReviewsOf, Elements, ReviewOf, UnitBranch;
    ghost var g := DependencyGraph(byId);
    output := listed;
    assert ids + ready[..0] == ids;
    for i := 0 to |ready|
      invariant Known(g, ids + ready[..i]) && output == ReviewsOf(g, plan, base, ids + ready[..i])
      invariant forall k :: 0 <= k < i ==> |g[ready[k]]| <= 1
    {
      var id := ready[i];
      var unit := byId[id];
      if |unit.dependsOn| > 1 {
        return false, output;
      }
      ElementsJoin(ids, ready[..i]);
      var parent := ParentOf(unit, plan, base, output, g, ids + ready[..i]);
      assert ids + ready[..i + 1] == ids + ready[..i] + [id];
      ReviewsSnoc(g, plan, base, ids + ready[..i], id);
      ReviewIs(g, plan, base, id, parent);
      output := output + [ForgeReview(id, UnitBranch(plan, id), parent)];
    }
    assert ready[..|ready|] == ready;
    single := true;
  }

  /** Each branch is that of the unit, and each base is the base branch, or the branch of
      the single dependency, which is listed earlier. */
  ghost predicate OnDependency(g: Graph, plan: nat, base: string, reviews: seq<ForgeReview>, i: nat)
    requires i < |reviews|
  {
    && reviews[i].unit in g && reviews[i].branch == UnitBranch(plan, reviews[i].unit)
    && if g[reviews[i].unit] == {} then reviews[i].base == base
       else exists j :: 0 <= j < i && g[reviews[i].unit] == {reviews[j].unit} && reviews[i].base == reviews[j].branch
  }

  lemma ReviewsOnDependencies(g: Graph, plan: nat, base: string, i: nat)
    requires ReviewsSpec(g, plan, base).Ok? && i < |ReviewsSpec(g, plan, base).value|
    ensures OnDependency(g, plan, base, ReviewsSpec(g, plan, base).value, i)
  {
    OrderIsKnown(g);
    var order := Order(g);
    var reviews := ReviewsSpec(g, plan, base).value;
    hide Order, Closed, Acyclic, UnitBranch;
    assert reviews[i] == ReviewOf(g, plan, base, order[i]);
    if g[order[i]] != {} {
      var d := Min(g[order[i]]);
      Projection.SingletonOf(g[order[i]], d);
      DependenciesFirst(g, i, d);
      var j :| 0 <= j < i && order[j] == d;
      assert reviews[j] == ReviewOf(g, plan, base, order[j]);
    }
  }

  /** A plan that validation accepts projects exactly when no unit has two dependencies. */
  lemma ValidPlanProjectsIff(plan: ReviewPlan, id: nat, base: string)
    requires ValidPlan(plan)
    ensures ReviewsSpec(DependencyGraph(UnitsById(plan.units)), id, base).Ok?
       <==> forall u :: u in plan.units ==> |u.dependsOn| <= 1
  {
    var units := plan.units;
    DependencyGraphIs(units);
    UnitsByIdHolds(units);
    hide Closed, Acyclic, ReviewsOf, Order;
    var g := DependencyGraph(UnitsById(units));
    forall u | u in units
      ensures u.id in g && g[u.id] == u.dependsOn
    {
    }
  }
}
