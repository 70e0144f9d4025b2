/** The dependency graphs of stack pull requests and change sets, and the orders the
    changeset crate computes over them.
 */
module StackPullRequests {
  import opened Wrappers
  import opened Model
  import opened PatchSearch
  import opened Dag
  import opened TopologicalOrder
  import opened KeyedLists
  import opened KeyedOrders

  datatype Dependency = Dependency(repository: Uuid, pullRequest: Uuid)

  datatype StackPullRequest = StackPullRequest(
    id: Uuid,
    repository: Uuid,
    parents: set<Uuid>,
    dependencies: set<Dependency>,
    patches: seq<PatchFragment>)

  datatype ChangeSet = ChangeSet(id: Uuid, dependsOn: set<Uuid>)

  function IdOf(p: StackPullRequest): nat {
    p.id
  }

  /** Of two pull requests with one identifier the later counts. */
  function ById(prs: seq<StackPullRequest>): map<nat, StackPullRequest> {
    Collect(IdOf, prs)
  }

  lemma ByIdKeys(prs: seq<StackPullRequest>)
    ensures forall k :: k in ById(prs) ==> ById(prs)[k] in prs && ById(prs)[k].id == k
    ensures forall p :: p in prs ==> p.id in ById(prs)
  {
    CollectKeys(IdOf, prs);
    forall p | p in prs
      ensures p.id in ById(prs)
    {
      var i :| 0 <= i < |prs| && prs[i] == p;
      assert IdOf(prs[i]) in Keys(IdOf, prs);
    }
  }

  ghost predicate DistinctIds(prs: seq<StackPullRequest>) {
    forall p, q :: p in prs && q in prs && p.id == q.id ==> p == q
  }

  /** With distinct identifiers the map, and with it every order and plan below, does
      not depend on the order of the input. */
  lemma ByIdIgnoresOrder(prs: seq<StackPullRequest>, others: seq<StackPullRequest>)
    requires DistinctIds(prs) && forall p :: p in prs <==> p in others
    ensures ById(prs) == ById(others)
  {
    ByIdKeys(prs);
    ByIdKeys(others);
    assert forall k :: k in ById(prs) <==> k in ById(others);
  }

  function ParentGraph(byId: map<nat, StackPullRequest>): Graph {
    map k | k in byId :: byId[k].parents
  }

  /** Every pull request of the stack once, behind its parents. */
  ghost predicate IsStackOrder(prs: seq<StackPullRequest>, order: seq<nat>) {
    IsOrder(seq(|prs|, i requires 0 <= i < |prs| => prs[i].id),
            seq(|prs|, i requires 0 <= i < |prs| => prs[i].parents), order)
  }

  /** In the graph of the order a pull request depends on its parents. */
  lemma ParentGraphIs(prs: seq<StackPullRequest>, ids: seq<nat>, parents: seq<set<nat>>)
    requires ids == seq(|prs|, i requires 0 <= i < |prs| => prs[i].id)
    requires parents == seq(|prs|, i requires 0 <= i < |prs| => prs[i].parents)
    ensures IsGraph(ParentGraph(ById(prs)), ids, parents)
  {
    hide Collect;
    var g := ParentGraph(ById(prs));
    assert ids == Each(IdOf, prs);
    forall i: nat | Last(ids, i)
      ensures ids[i] in g && g[ids[i]] == parents[i]
    {
      CollectLast(IdOf, prs, i);
    }
    forall k | k in g
      ensures HasLast(ids, k)
    {
      var i := CollectedFrom(IdOf, prs, k);
    }
  }

  method StackPullRequestOrder(prs: seq<StackPullRequest>) returns (result: Result<seq<nat>>)
    ensures
      var g := ParentGraph(ById(prs));
      && (result.Ok? <==> Closed(g) && Acyclic(g))
      && result == if result.Ok? then Ok(Order(g)) else Err(Conflict)
    ensures result.Ok? ==> IsStackOrder(prs, result.value)
    ensures result.Err? ==> forall order :: !IsStackOrder(prs, order)
  {
    ghost var ids: seq<nat> := seq(|prs|, i requires 0 <= i < |prs| => prs[i].id);
    ghost var parents: seq<set<nat>> := seq(|prs|, i requires 0 <= i < |prs| => prs[i].parents);
    ParentGraphIs(prs, ids, parents);
    OrderedIff(ParentGraph(ById(prs)), ids, parents);
    result := LayeredOrder(ParentGraph(ById(prs)));
  }

  // ----- several repositories -----

  /** A (repository, pull request) pair as one number, in the order of pairs. */
  function PairKey(repository: Uuid, id: Uuid): nat {
    repository * UUID_LIMIT + id
  }

  lemma PairKeyKeepsOrder(r: Uuid, i: Uuid, s: Uuid, j: Uuid)
    ensures PairKey(r, i) < PairKey(s, j) <==> r < s || (r == s && i < j)
    ensures PairKey(r, i) == PairKey(s, j) <==> r == s && i == j
    ensures PairKey(r, i) / UUID_LIMIT == r && PairKey(r, i) % UUID_LIMIT == i
  {
  }

  function KeyOf(p: StackPullRequest): nat {
    PairKey(p.repository, p.id)
  }

  function ByKey(prs: seq<StackPullRequest>): map<nat, StackPullRequest> {
    Collect(KeyOf, prs)
  }

  /** Local parents stay in the repository; explicit dependencies name their own. */
  function Requirements(p: StackPullRequest): set<nat> {
    (set q | q in p.parents :: PairKey(p.repository, q))
    + (set d | d in p.dependencies :: PairKey(d.repository, d.pullRequest))
  }

  function ExecutionGraph(prs: seq<StackPullRequest>): Graph {
    var byKey := ByKey(prs);
    map k | k in byKey :: Requirements(byKey[k])
  }

  /** No later entry is for the same pull request of the same repository. */
  ghost predicate InForce(prs: seq<StackPullRequest>, i: nat) {
    i < |prs| && forall l :: i < l < |prs| ==> prs[l].repository != prs[i].repository || prs[l].id != prs[i].id
  }

  /** The pull request is at position n, its parents, which are in the same repository,
      and its explicit dependencies, which name theirs, are in front of it. */
  ghost predicate Behind(p: StackPullRequest, order: seq<nat>, n: nat) {
    && n < |order| && order[n] == PairKey(p.repository, p.id)
    && (forall q :: q in p.parents ==> Earlier(order, n, PairKey(p.repository, q)))
    && (forall d :: d in p.dependencies ==> Earlier(order, n, PairKey(d.repository, d.pullRequest)))
  }

  ghost predicate Given(prs: seq<StackPullRequest>, k: nat) {
    exists i: nat :: InForce(prs, i) && PairKey(prs[i].repository, prs[i].id) == k
  }

  /** The pull requests in force, each once and behind what it requires. */
  ghost predicate IsExecutionOrder(prs: seq<StackPullRequest>, order: seq<nat>) {
    && (forall m, n :: 0 <= m < n < |order| ==> order[m] != order[n])
    && (forall i: nat :: InForce(prs, i) ==> exists n: nat :: Behind(prs[i], order, n))
    && (forall n: nat :: n < |order| ==> Given(prs, order[n]))
  }

  lemma InForceIff(prs: seq<StackPullRequest>, i: nat)
    ensures InForce(prs, i) <==> Last(Each(KeyOf, prs), i)
  {
    forall l | i < l < |prs|
      ensures prs[l].repository != prs[i].repository || prs[l].id != prs[i].id
         <==> KeyOf(prs[l]) != KeyOf(prs[i])
    {
      PairKeyKeepsOrder(prs[l].repository, prs[l].id, prs[i].repository, prs[i].id);
    }
  }

  lemma GivenIff(prs: seq<StackPullRequest>, k: nat)
    ensures Given(prs, k) <==> HasLast(Each(KeyOf, prs), k)
  {
    hide PairKey;
    var keys := Each(KeyOf, prs);
    if Given(prs, k) {
      var i: nat :| InForce(prs, i) && PairKey(prs[i].repository, prs[i].id) == k;
      InForceIff(prs, i);
      assert keys[i] == k;
    }
    if HasLast(keys, k) {
      var i: nat :| Last(keys, i) && keys[i] == k;
      InForceIff(prs, i);
      assert KeyOf(prs[i]) == k;
    }
  }

  lemma BehindIff(p: StackPullRequest, order: seq<nat>, n: nat)
    ensures Behind(p, order, n) <==> Placed(order, n, KeyOf(p), Requirements(p))
  {
    hide Earlier, PairKey;
    if Behind(p, order, n) {
      forall k | k in Requirements(p)
        ensures Earlier(order, n, k)
      {
        if q :| q in p.parents && PairKey(p.repository, q) == k {
        } else {
          var d :| d in p.dependencies && PairKey(d.repository, d.pullRequest) == k;
        }
      }
    }
    if Placed(order, n, KeyOf(p), Requirements(p)) {
      assert forall q :: q in p.parents ==> PairKey(p.repository, q) in Requirements(p);
      assert forall d :: d in p.dependencies ==> PairKey(d.repository, d.pullRequest) in Requirements(p);
    }
  }

  lemma IsExecutionOrderIff(prs: seq<StackPullRequest>, order: seq<nat>)
    ensures IsExecutionOrder(prs, order) <==> IsOrder(Each(KeyOf, prs), Each(Requirements, prs), order)
  {
    hide Behind, Placed, PairKey, Requirements, Given, HasLast;
    var keys, needs := Each(KeyOf, prs), Each(Requirements, prs);
    forall i: nat
      ensures InForce(prs, i) <==> Last(keys, i)
    {
      InForceIff(prs, i);
    }
    forall i: nat, n: nat | i < |prs|
      ensures Behind(prs[i], order, n) <==> Placed(order, n, keys[i], needs[i])
    {
      BehindIff(prs[i], order, n);
    }
    forall k
      ensures Given(prs, k) <==> HasLast(keys, k)
    {
      GivenIff(prs, k);
    }
  }

  /** In the graph of the order a pull request depends on what it requires. */
  lemma ExecutionGraphIs(prs: seq<StackPullRequest>)
    ensures IsGraph(ExecutionGraph(prs), Each(KeyOf, prs), Each(Requirements, prs))
  {
    hide KeyOf, Requirements;
    var g, keys := ExecutionGraph(prs), Each(KeyOf, prs);
    forall i: nat | Last(keys, i)
      ensures keys[i] in g && g[keys[i]] == Requirements(prs[i])
    {
      CollectLast(KeyOf, prs, i);
    }
    forall k | k in g
      ensures HasLast(keys, k)
    {
      var i := CollectedFrom(KeyOf, prs, k);
    }
  }

  lemma ExecutionOrderedIff(prs: seq<StackPullRequest>)
    ensures
      var g := ExecutionGraph(prs);
      && (Closed(g) && Acyclic(g) ==> IsExecutionOrder(prs, Order(g)))
      && (forall order :: IsExecutionOrder(prs, order) ==> Closed(g) && Acyclic(g))
  {
    hide IsOrder, IsExecutionOrder, IsGraph, Closed, Acyclic, Order, ExecutionGraph;
    ExecutionGraphIs(prs);
    OrderedIff(ExecutionGraph(prs), Each(KeyOf, prs), Each(Requirements, prs));
    forall order
      ensures IsExecutionOrder(prs, order) <==> IsOrder(Each(KeyOf, prs), Each(Requirements, prs), order)
    {
      IsExecutionOrderIff(prs, order);
    }
  }

  method StackPullRequestExecutionOrder(prs: seq<StackPullRequest>) returns (result: Result<seq<nat>>)
    ensures
      var g := ExecutionGraph(prs);
      && (result.Ok? <==> Closed(g) && Acyclic(g))
      && result == if result.Ok? then Ok(Order(g)) else Err(Conflict)
    ensures result.Ok? ==> IsExecutionOrder(prs, result.value)
    ensures result.Err? ==> forall order :: !IsExecutionOrder(prs, order)
  {
    hide IsExecutionOrder, ExecutionGraph, Closed, Acyclic, Order;
    ExecutionOrderedIff(prs);
    result := LayeredOrder(ExecutionGraph(prs));
  }

  function SetIdOf(set_: ChangeSet): nat {
    set_.id
  }

  function ChangeSetsById(sets: seq<ChangeSet>): map<nat, ChangeSet> {
    Collect(SetIdOf, sets)
  }

  function ChangeSetGraph(sets: seq<ChangeSet>): Graph {
    var byId := ChangeSetsById(sets);
    map k | k in byId :: byId[k].dependsOn
  }

  /** Every changeset once, behind the changesets it depends on. */
  ghost predicate IsChangeSetOrder(sets: seq<ChangeSet>, order: seq<nat>) {
    IsOrder(seq(|sets|, i requires 0 <= i < |sets| => sets[i].id),
            seq(|sets|, i requires 0 <= i < |sets| => sets[i].dependsOn), order)
  }

  lemma ChangeSetGraphIs(sets: seq<ChangeSet>, ids: seq<nat>, needs: seq<set<nat>>)
    requires ids == seq(|sets|, i requires 0 <= i < |sets| => sets[i].id)
    requires needs == seq(|sets|, i requires 0 <= i < |sets| => sets[i].dependsOn)
    ensures IsGraph(ChangeSetGraph(sets), ids, needs)
  {
    hide Collect;
    var g := ChangeSetGraph(sets);
    assert ids == Each(SetIdOf, sets);
    forall i: nat | Last(ids, i)
      ensures ids[i] in g && g[ids[i]] == needs[i]
    {
      CollectLast(SetIdOf, sets, i);
    }
    forall k | k in g
      ensures HasLast(ids, k)
    {
      var i := CollectedFrom(SetIdOf, sets, k);
    }
  }

  method ChangesetExecutionOrder(sets: seq<ChangeSet>) returns (result: Result<seq<nat>>)
    ensures
      var g := ChangeSetGraph(sets);
      && (result.Ok? <==> Closed(g) && Acyclic(g))
      && result == if result.Ok? then Ok(Order(g)) else Err(Conflict)
    ensures result.Ok? ==> IsChangeSetOrder(sets, result.value)
    ensures result.Err? ==> forall order :: !IsChangeSetOrder(sets, order)
  {
    ghost var ids: seq<nat> := seq(|sets|, i requires 0 <= i < |sets| => sets[i].id);
    ghost var needs: seq<set<nat>> := seq(|sets|, i requires 0 <= i < |sets| => sets[i].dependsOn);
    ChangeSetGraphIs(sets, ids, needs);
    OrderedIff(ChangeSetGraph(sets), ids, needs);
    result := LayeredOrder(ChangeSetGraph(sets));
  }

  // ----- consequences -----

  /** In an execution order the parents of a pull request are listed before it under its
      own repository and its dependencies under theirs, and all of them are given. */
  lemma ExecutionOrderIsSafe(prs: seq<StackPullRequest>, order: seq<nat>, i: nat, n: nat)
    requires IsExecutionOrder(prs, order) && InForce(prs, i)
    requires n < |order| && order[n] == PairKey(prs[i].repository, prs[i].id)
    ensures forall q :: q in prs[i].parents ==>
      Earlier(order, n, PairKey(prs[i].repository, q)) && Given(prs, PairKey(prs[i].repository, q))
    ensures forall d :: d in prs[i].dependencies ==>
      Earlier(order, n, PairKey(d.repository, d.pullRequest)) && Given(prs, PairKey(d.repository, d.pullRequest))
  {
    hide PairKey, Given;
    var m: nat :| Behind(prs[i], order, m);
    assert m == n;
    forall k | Earlier(order, n, k)
      ensures Given(prs, k)
    {
    }
  }

  /** If a parent or an explicit dependency is not in the input, there is no such list,
      so that the order is refused. */
  lemma MissingHasNoOrder(prs: seq<StackPullRequest>, i: nat)
    requires InForce(prs, i)
    requires (exists q :: q in prs[i].parents && !Given(prs, PairKey(prs[i].repository, q)))
          || exists d :: d in prs[i].dependencies && !Given(prs, PairKey(d.repository, d.pullRequest))
    ensures forall order :: !IsExecutionOrder(prs, order)
  {
    hide PairKey, Given;
    forall order
      ensures !IsExecutionOrder(prs, order)
    {
      if IsExecutionOrder(prs, order) {
        var n: nat :| Behind(prs[i], order, n);
        ExecutionOrderIsSafe(prs, order, i, n);
      }
    }
  }

  /** Every parent is there and belongs to the same repository. */
  ghost predicate ParentsPresent(prs: seq<StackPullRequest>, byId: map<nat, StackPullRequest>) {
    forall p, q :: p in prs && q in p.parents ==> q in byId && byId[q].repository == p.repository
  }

  /** `validate_stack_pull_requests`, without the checks of the single documents. */
  method ValidateStackPullRequests(prs: seq<StackPullRequest>) returns (result: Result<()>)
    ensures
      var g := ParentGraph(ById(prs));
      result == if !ParentsPresent(prs, ById(prs)) then Err(Integrity)
                else if Closed(g) && Acyclic(g) then Ok(())
                else Err(Conflict)
    ensures result == Err(Integrity) <==> exists p, q ::
      p in prs && q in p.parents && (q in ById(prs) ==> ById(prs)[q].repository != p.repository)
    ensures result == Err(Conflict) ==> forall order :: !IsStackOrder(prs, order)
  {
    hide ParentGraph, Closed, Acyclic, ById, Order;
    var byId := ById(prs);
    for i := 0 to |prs|
      invariant forall k, q :: 0 <= k < i && q in prs[k].parents ==>
          q in byId && byId[q].repository == prs[k].repository
    {
      var p := prs[i];
      if !(forall q :: q in p.parents ==> q in byId) {
        return Err(Integrity);
      }
      if !(forall q :: q in p.parents ==> byId[q].repository == p.repository) {
        return Err(Integrity);
      }
    }
    var order := StackPullRequestOrder(prs);
    result := if order.Ok? then Ok(()) else Err(order.error);
  }
}
