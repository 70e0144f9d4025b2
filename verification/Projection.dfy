/** The two planners that turn a stack into branches: the projection planner, which
    takes the finished order, and the forge planner, which repeats the rounds itself.
 */
module Projection {
  import opened Wrappers
  import opened Digits
  import opened Model
  import opened Dag
  import opened TopologicalOrder
  import opened StackPullRequests

  datatype ProjectionStep = ProjectionStep(pullRequest: nat, branch: string, parentBranch: string)

  /** `orkia/stack-pr/` and the 32 digits of the identifier. */
  function Branch(id: nat): string {
    "orkia/stack-pr/" + Hex(id, 32)
  }

  /** The name is the prefix and 32 digits that read back to the identifier. */
  lemma BranchReads(x: Uuid)
    ensures |Branch(x)| == 47 && Branch(x)[..15] == "orkia/stack-pr/"
    ensures AllHex(Branch(x)[15..]) && ReadHex(Branch(x)[15..]) == x
  {
    UuidDigits();
    HexReads(x, 32);
    hide Hex, ReadHex, Pow16;
    assert Branch(x)[15..] == Hex(x, 32);
  }

  lemma UuidDigits()
    ensures Pow16(32) == UUID_LIMIT
  {
    assert Pow16(8) == 0x1_0000_0000;
    assert Pow16(16) == 0x1_0000_0000_0000_0000;
    assert Pow16(24) == 0x1_0000_0000_0000_0000_0000_0000;
  }

  lemma BranchInjective(x: Uuid, y: Uuid)
    requires Branch(x) == Branch(y)
    ensures x == y
  {
    hide Branch;
    BranchReads(x);
    BranchReads(y);
  }

  type Index = map<nat, StackPullRequest>

  /** The step of one pull request: on the branch of its parent, or on the base. */
  function StepOf(byId: Index, base: string, id: nat): ProjectionStep
    requires id in byId
  {
    var parents := byId[id].parents;
    ProjectionStep(id, Branch(id), if parents == {} then base else Branch(Min(parents)))
  }

  ghost predicate Known(byId: Index, ids: seq<nat>) {
    forall i :: 0 <= i < |ids| ==> ids[i] in byId
  }

  ghost function Steps(byId: Index, base: string, ids: seq<nat>): (steps: seq<ProjectionStep>)
    requires Known(byId, ids)
    ensures |steps| == |ids|
  {
    seq(|ids|, i requires 0 <= i < |ids| => StepOf(byId, base, ids[i]))
  }

  lemma StepsSnoc(byId: Index, base: string, ids: seq<nat>, id: nat)
    requires Known(byId, ids) && id in byId
    ensures Known(byId, ids + [id])
    ensures Steps(byId, base, ids + [id]) == Steps(byId, base, ids) + [StepOf(byId, base, id)]
  {
  }

  /** Why a pull request cannot be projected by itself, if it cannot. */
  function Blocked(p: StackPullRequest, published: set<Dependency>): Option<Error> {
    if !(p.dependencies <= published) then Some(Policy)
    else if |p.parents| > 1 then Some(Conflict)
    else None
  }

  function FirstBlocked(byId: Index, ids: seq<nat>, published: set<Dependency>): Option<Error> {
    if ids == [] then None
    else if ids[0] in byId && Blocked(byId[ids[0]], published).Some? then Blocked(byId[ids[0]], published)
    else FirstBlocked(byId, ids[1..], published)
  }

  lemma {:induction false} NoneBlocked(byId: Index, ids: seq<nat>, published: set<Dependency>)
    requires Known(byId, ids)
    ensures FirstBlocked(byId, ids, published) == None <==> forall i :: 0 <= i < |ids| ==>
        Blocked(byId[ids[i]], published) == None
  {
    if ids != [] {
      var rest := ids[1..];
      NoneBlocked(byId, rest, published);
      assert forall i :: 0 <= i < |rest| ==> rest[i] == ids[i + 1];
      assert forall i :: 0 < i < |ids| ==> ids[i] == rest[i - 1];
    }
  }

  lemma {:induction false} FirstBlockedAt(byId: Index, ids: seq<nat>, published: set<Dependency>, k: nat)
    requires Known(byId, ids) && k < |ids| && Blocked(byId[ids[k]], published).Some?
    requires forall i :: 0 <= i < k ==> Blocked(byId[ids[i]], published) == None
    ensures FirstBlocked(byId, ids, published) == Blocked(byId[ids[k]], published)
    decreases k
  {
    if k > 0 {
      assert ids[1..][k - 1] == ids[k];
      assert forall i :: 0 <= i < |ids| - 1 ==> ids[1..][i] == ids[i + 1];
      FirstBlockedAt(byId, ids[1..], published, k - 1);
    }
  }

  lemma OrderKnown(byId: Index)
    requires Closed(ParentGraph(byId)) && Acyclic(ParentGraph(byId))
    ensures Known(byId, Order(ParentGraph(byId)))
    ensures forall k :: k in byId <==> k in Elements(Order(ParentGraph(byId)))
  {
    var order := Order(ParentGraph(byId));
    OrderIsSorted(ParentGraph(byId));
    assert forall i :: 0 <= i < |order| ==> order[i] in Elements(order);
  }

  /** What the projection planner returns. */
  ghost function PlanSpec(prs: seq<StackPullRequest>, base: string, published: set<Dependency>)
    : Result<seq<ProjectionStep>> {
    var byId := ById(prs);
    var g := ParentGraph(byId);
    if base == "" then Err(Invalid)
    else if !(Closed(g) && Acyclic(g)) then Err(Conflict)
    else
      OrderKnown(byId);
      var blocked := FirstBlocked(byId, Order(g), published);
      if blocked.Some? then Err(blocked.value) else Ok(Steps(byId, base, Order(g)))
  }

  ghost predicate BranchesOf(branches: map<nat, string>, ids: seq<nat>) {
    && branches.Keys == Elements(ids)
    && forall k :: k in branches ==> branches[k] == Branch(k)
  }

  lemma BranchesSnoc(branches: map<nat, string>, ids: seq<nat>, id: nat)
    requires BranchesOf(branches, ids)
    ensures BranchesOf(branches[id := Branch(id)], ids + [id])
  {
  }

  /** The branch a pull request is put on, looked up among the branches made so far. */
  method ParentBranch(byId: Index, id: nat, branches: map<nat, string>, base: string, ghost ids: seq<nat>)
    returns (branch: string)
    requires id in byId && BranchesOf(branches, ids) && byId[id].parents <= Elements(ids)
    ensures ProjectionStep(id, Branch(id), branch) == StepOf(byId, base, id)
  {
    var parents := byId[id].parents;
    if parents == {} {
      return base;
    }
    branch := if Min(parents) in branches then branches[Min(parents)] else base;
  }

  method PlanMonoRepository(prs: seq<StackPullRequest>, base: string, published: set<Dependency>)
    returns (result: Result<seq<ProjectionStep>>)
    ensures result == PlanSpec(prs, base, published)
  {
    hide Closed, Acyclic, Order, Steps, BranchesOf, FirstBlocked, Elements, Min;
    if base == "" {
      return Err(Invalid);
    }
    var byId := ById(prs);
    var ordered := StackPullRequestOrder(prs);
    if ordered.Err? {
      return Err(ordered.error);
    }
    var order := ordered.value;
    OrderKnown(byId);
    var branches: map<nat, string> := map[];
    var steps: seq<ProjectionStep> := [];
    NoSteps(byId, base);
    assert order[..0] == [];
    for i := 0 to |order|
      invariant steps == Steps(byId, base, order[..i])
      invariant BranchesOf(branches, order[..i])
      invariant forall k :: 0 <= k < i ==> Blocked(byId[order[k]], published) == None
    {
      var id := order[i];
      var p := byId[id];
      if Blocked(p, published).Some? {
        FirstBlockedAt(byId, order, published, i);
      }
      if !(p.dependencies <= published) {
        return Err(Policy);
      }
      if |p.parents| > 1 {
        return Err(Conflict);
      }
      ParentListed(byId, order, i);
      var parentBranch := ParentBranch(byId, id, branches, base, order[..i]);
      assert order[..i + 1] == order[..i] + [id];
      StepsSnoc(byId, base, order[..i], id);
      BranchesSnoc(branches, order[..i], id);
      branches := branches[id := Branch(id)];
      steps := steps + [ProjectionStep(id, Branch(id), parentBranch)];
    }
    assert order[..|order|] == order;
    NoneBlocked(byId, order, published);
    return Ok(steps);
  }

  lemma ParentListed(byId: Index, order: seq<nat>, i: nat)
    requires Closed(ParentGraph(byId)) && Acyclic(ParentGraph(byId)) && order == Order(ParentGraph(byId))
    requires i < |order| && order[i] in byId
    ensures forall d :: d in byId[order[i]].parents ==> d in Elements(order[..i])
  {
    forall d: nat | d in byId[order[i]].parents
      ensures d in Elements(order[..i])
    {
      DependenciesFirst(ParentGraph(byId), i, d);
      var j :| 0 <= j < i && order[j] == d;
      assert order[..i][j] == d;
    }
  }

  /** Planning succeeds when there are a base branch and an order, every dependency is
      published, and nothing has two parents. Without a base branch the input is invalid,
      without an order it conflicts. */
  lemma PlannedIff(prs: seq<StackPullRequest>, base: string, published: set<Dependency>)
    ensures
      var byId, result := ById(prs), PlanSpec(prs, base, published);
      var ordered := Closed(ParentGraph(byId)) && Acyclic(ParentGraph(byId));
      && (result.Ok? <==>
          && base != "" && ordered
          && forall k :: k in byId ==> byId[k].dependencies <= published && |byId[k].parents| <= 1)
      && (base == "" ==> result == Err(Invalid))
      && (base != "" && !ordered ==> result == Err(Conflict))
  {
    var byId := ById(prs);
    var order := Order(ParentGraph(byId));
    if base != "" && Closed(ParentGraph(byId)) && Acyclic(ParentGraph(byId)) {
      OrderKnown(byId);
      NoneBlocked(byId, order, published);
      hide ById, Order, Closed, Acyclic, FirstBlocked, Steps;
      forall k | k in byId
        ensures exists i :: 0 <= i < |order| && order[i] == k
      {
        assert k in Elements(order);
      }
    }
  }

  /** In an order that has pull requests which cannot be projected, the first of them
      decides: it lacks a published dependency, or else it has two parents. */
  lemma PlanStopsAt(prs: seq<StackPullRequest>, base: string, published: set<Dependency>, k: nat)
    requires base != "" && Closed(ParentGraph(ById(prs))) && Acyclic(ParentGraph(ById(prs)))
    requires k < |Order(ParentGraph(ById(prs)))| && Known(ById(prs), Order(ParentGraph(ById(prs))))
    requires
      var byId, order := ById(prs), Order(ParentGraph(ById(prs)));
      forall i :: 0 <= i < k ==> byId[order[i]].dependencies <= published && |byId[order[i]].parents| <= 1
    ensures
      var byId, order := ById(prs), Order(ParentGraph(ById(prs)));
      && (!(byId[order[k]].dependencies <= published) ==> PlanSpec(prs, base, published) == Err(Policy))
      && (byId[order[k]].dependencies <= published && |byId[order[k]].parents| > 1 ==>
            PlanSpec(prs, base, published) == Err(Conflict))
  {
    var byId, order := ById(prs), Order(ParentGraph(ById(prs)));
    if Blocked(byId[order[k]], published).Some? {
      FirstBlockedAt(byId, order, published, k);
    }
  }

  /** Every step has the branch of its pull request, and no two steps have one. */
  lemma PlannedBranches(prs: seq<StackPullRequest>, base: string, published: set<Dependency>, i: nat, j: nat)
    requires PlanSpec(prs, base, published).Ok? && i < j < |PlanSpec(prs, base, published).value|
    ensures var steps := PlanSpec(prs, base, published).value; steps[i].branch != steps[j].branch
  {
    var byId := ById(prs);
    var order := Order(ParentGraph(byId));
    ByIdKeys(prs);
    OrderKnown(byId);
    OrderIsSorted(ParentGraph(byId));
    assert byId[order[i]].id == order[i] && byId[order[j]].id == order[j];
    if Branch(order[i]) == Branch(order[j]) {
      BranchInjective(order[i], order[j]);
    }
  }

  lemma StepsOnOwnBranches(prs: seq<StackPullRequest>, base: string, published: set<Dependency>, i: nat)
    requires PlanSpec(prs, base, published).Ok? && i < |PlanSpec(prs, base, published).value|
    ensures
      var step := PlanSpec(prs, base, published).value[i];
      step.pullRequest in ById(prs) && step.branch == Branch(step.pullRequest)
  {
    OrderKnown(ById(prs));
  }

  // ----- the forge planner -----

  ghost predicate SingleParents(byId: Index) {
    forall k :: k in byId ==> |byId[k].parents| <= 1
  }

  ghost function ForgeSpec(prs: seq<StackPullRequest>, base: string): Result<seq<ProjectionStep>> {
    var byId := ById(prs);
    var g := ParentGraph(byId);
    if base == "" then Err(Invalid)
    else if Closed(g) && Acyclic(g) && SingleParents(byId) then
      OrderKnown(byId);
      Ok(Steps(byId, base, Order(g)))
    else Err(Conflict)
  }

  method StackPullRequestProjections(prs: seq<StackPullRequest>, base: string)
    returns (result: Result<seq<ProjectionStep>>)
    ensures result == ForgeSpec(prs, base)
  {
    hide Level, Layered, SortedSeq, Closed, Acyclic, Order, Steps, BranchesOf, ById, Min, Elements;
    if base == "" {
      return Err(Invalid);
    }
    var byId := ById(prs);
    var g := ParentGraph(byId);
    var remaining := byId.Keys;
    var projected: set<nat> := {};
    var branches: map<nat, string> := map[];
    var output: seq<ProjectionStep> := [];
    ghost var n: nat, ordered: seq<nat> := 0, [];
    NothingYet(g);
    NoSteps(byId, base);
    while remaining != {}
      invariant projected == Level(g, n) && remaining == g.Keys - projected
      invariant ordered == Layered(g, n) && Known(byId, ordered) && Elements(ordered) == projected
      invariant output == Steps(byId, base, ordered) && BranchesOf(branches, ordered)
      invariant forall k :: k in projected ==> |byId[k].parents| <= 1
      decreases remaining
    {
      Round(g, n, remaining, projected);
      var layer := set k | k in remaining && byId[k].parents <= projected;
      assert layer == set k | k in remaining && g[k] <= projected;
      SortedSeqSorts(layer);
      var ready := SortedSeq(layer);
      ElementsOf(ready);
      if ready == [] {
        return Err(Conflict);
      }
      var single, b, o := EmitReviews(byId, base, ready, branches, output, ordered);
      if !single {
        return Err(Conflict);
      }
      branches, output := b, o;
      ordered := ordered + ready;
      ElementsJoin(Layered(g, n), ready);
      remaining := remaining - layer;
      projected := projected + layer;
      n := n + 1;
    }
    FullLevelIsDag(g, n);
    FullOrder(g, n);
    return Ok(output);
  }

  lemma ElementsOf(s: seq<nat>)
    ensures s == [] <==> Elements(s) == {}
    ensures forall i :: 0 <= i < |s| ==> s[i] in Elements(s)
    ensures forall x :: x in Elements(s) ==> exists i :: 0 <= i < |s| && s[i] == x
  {
    assert s != [] ==> s[0] in Elements(s);
  }

  lemma NoSteps(byId: Index, base: string)
    ensures Steps(byId, base, []) == [] && BranchesOf(map[], [])
  {
  }

  /** One round: the ready pull requests become reviews, unless one has several parents. */
  method EmitReviews(byId: Index, base: string, ready: seq<nat>, before: map<nat, string>,
                     listed: seq<ProjectionStep>, ghost ids: seq<nat>)
    returns (single: bool, branches: map<nat, string>, output: seq<ProjectionStep>)
    requires Known(byId, ids) && Known(byId, ready) && listed == Steps(byId, base, ids) && BranchesOf(before, ids)
    requires forall i :: 0 <= i < |ready| ==> byId[ready[i]].parents <= Elements(ids)
    ensures single <==> forall i :: 0 <= i < |ready| ==> |byId[ready[i]].parents| <= 1
    ensures single ==>
        Known(byId, ids + ready) && output == Steps(byId, base, ids + ready) && BranchesOf(branches, ids + ready)
  {
    hide Steps, BranchesOf, Min;
    branches, output := before, listed;
    assert ids + ready[..0] == ids;
    for i := 0 to |ready|
      invariant Known(byId, ids + ready[..i]) && output == Steps(byId, base, ids + ready[..i])
      invariant BranchesOf(branches, ids + ready[..i])
      invariant forall k :: 0 <= k < i ==> |byId[ready[k]].parents| <= 1
    {
      var id := ready[i];
      var p := byId[id];
      if |p.parents| > 1 {
        return false, branches, output;
      }
      ElementsJoin(ids, ready[..i]);
      var parentBranch := ParentBranch(byId, id, branches, base, ids + ready[..i]);
      assert ids + ready[..i + 1] == ids + ready[..i] + [id];
      StepsSnoc(byId, base, ids + ready[..i], id);
      BranchesSnoc(branches, ids + ready[..i], id);
      branches := branches[id := Branch(id)];
      output := output + [ProjectionStep(id, Branch(id), parentBranch)];
    }
    assert ready[..|ready|] == ready;
    single := true;
  }

  // ----- agreement -----

  /** When no cross-repository dependency is open, the two planners give the same
      answer: the same error, or the same list of pull request, branch and base. */
  lemma PlannersAgree(prs: seq<StackPullRequest>, base: string, published: set<Dependency>)
    requires forall p :: p in prs ==> p.dependencies <= published
    ensures PlanSpec(prs, base, published) == ForgeSpec(prs, base)
  {
    var byId := ById(prs);
    var g := ParentGraph(byId);
    ByIdKeys(prs);
    if Closed(g) && Acyclic(g) {
      OrderKnown(byId);
      NoneBlocked(byId, Order(g), published);
      forall k | k in byId
        ensures exists i :: 0 <= i < |Order(g)| && Order(g)[i] == k
      {
        assert k in Elements(Order(g));
      }
      OnlyConflicts(byId, Order(g), published);
    }
  }

  lemma {:induction false} OnlyConflicts(byId: Index, ids: seq<nat>, published: set<Dependency>)
    requires forall k :: k in byId ==> byId[k].dependencies <= published
    ensures FirstBlocked(byId, ids, published) in {None, Some(Conflict)}
  {
    if ids != [] {
      OnlyConflicts(byId, ids[1..], published);
    }
  }

  /** A step is on the base branch, or on the branch of its single parent, which has
      an earlier step. */
  ghost predicate OnParent(byId: Index, base: string, steps: seq<ProjectionStep>, i: nat)
    requires i < |steps|
  {
    && steps[i].pullRequest in byId
    && steps[i].branch == Branch(steps[i].pullRequest)
    && var parents := byId[steps[i].pullRequest].parents;
       if parents == {} then steps[i].parentBranch == base
       else exists j :: 0 <= j < i && parents == {steps[j].pullRequest} && steps[i].parentBranch == steps[j].branch
  }

  lemma PlannedOnParents(prs: seq<StackPullRequest>, base: string, published: set<Dependency>, i: nat)
    requires PlanSpec(prs, base, published).Ok? && i < |PlanSpec(prs, base, published).value|
    ensures OnParent(ById(prs), base, PlanSpec(prs, base, published).value, i)
  {
    var byId := ById(prs);
    var order := Order(ParentGraph(byId));
    OrderKnown(byId);
    NoneBlocked(byId, order, published);
    assert Blocked(byId[order[i]], published) == None;
    StepOnParent(byId, base, order, i);
  }

  lemma StepOnParent(byId: Index, base: string, order: seq<nat>, i: nat)
    requires Closed(ParentGraph(byId)) && Acyclic(ParentGraph(byId)) && order == Order(ParentGraph(byId))
    requires Known(byId, order) && i < |order| && |byId[order[i]].parents| <= 1
    ensures OnParent(byId, base, Steps(byId, base, order), i)
  {
    ParentListed(byId, order, i);
    hide Order, Closed, Acyclic;
    var parents := byId[order[i]].parents;
    if parents != {} {
      var parent := Min(parents);
      SingletonOf(parents, parent);
      assert parent in Elements(order[..i]);
      var j :| 0 <= j < |order[..i]| && order[..i][j] == parent;
      var steps := Steps(byId, base, order);
      assert steps[j] == StepOf(byId, base, order[j]) && order[j] == parent;
      assert steps[i] == StepOf(byId, base, order[i]);
      assert 0 <= j < i && parents == {steps[j].pullRequest} && steps[i].parentBranch == steps[j].branch;
    }
  }

  lemma SingletonOf(s: set<nat>, x: nat)
    requires x in s && |s| <= 1
    ensures s == {x}
  {
    assert |s - {x}| == 0;
  }
}
