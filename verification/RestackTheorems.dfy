/** What a restacked stack holds, and what amending one pull request leaves alone. */
module RestackTheorems {
  import opened Wrappers
  import opened Lists
  import opened PatchSearch
  import opened Dag
  import opened TopologicalOrder
  import KeyedLists
  import opened StackPullRequests
  import opened Projection
  import opened Restack

  /** The steps whose commits lie under step k, from the root to k itself. */
  function Chain(steps: seq<ProjectionStep>, k: nat): seq<nat>
    requires k < |steps|
    decreases k
  {
    var p := ParentIndex(steps, steps[k].parentBranch, k);
    (if p.None? then [] else Chain(steps, p.value)) + [k]
  }

  function ChainPatches(steps: seq<ProjectionStep>, byId: Index, k: nat): seq<PatchFragment>
    requires k < |steps|
    decreases k
  {
    var p := ParentIndex(steps, steps[k].parentBranch, k);
    (if p.None? then [] else ChainPatches(steps, byId, p.value))
    + (if steps[k].pullRequest in byId then byId[steps[k].pullRequest].patches else [])
  }

  /** Every file of the commit of a step holds the base file with the patches of the
      whole chain applied to it, from the root to the step. */
  lemma {:induction false} CommitHoldsChain(steps: seq<ProjectionStep>, byId: Index, base: Files, k: nat, path: string)
    requires k < |steps| && FilesAfter(steps, byId, base, k).Ok?
    ensures ApplyAll(Get(base, path), OnPath(ChainPatches(steps, byId, k), path))
        == Ok(Get(FilesAfter(steps, byId, base, k).value, path))
    decreases k
  {
    hide ApplyAll, OnPath, ProjectFiles;
    var p := ParentIndex(steps, steps[k].parentBranch, k);
    var own := byId[steps[k].pullRequest].patches;
    if p.None? {
      ProjectByPath(base, own, path);
      assert [] + own == own;
    } else {
      CommitHoldsChain(steps, byId, base, p.value, path);
      var below := ChainPatches(steps, byId, p.value);
      ProjectByPath(FilesAfter(steps, byId, base, p.value).value, own, path);
      OnPathJoin(below, own, path);
      ApplyAllJoin(Get(base, path), OnPath(below, path), OnPath(own, path));
    }
  }

  /** Two versions of a stack that differ at most in the patches of pull request x. */
  ghost predicate AmendedAt(byId: Index, amended: Index, x: nat) {
    && byId.Keys == amended.Keys
    && forall k :: k in byId ==>
         && byId[k].id == amended[k].id
         && byId[k].parents == amended[k].parents
         && byId[k].dependencies == amended[k].dependencies
         && (k != x ==> byId[k].patches == amended[k].patches)
  }

  /** The plan does not change ... */
  lemma AmendKeepsPlan(prs: seq<StackPullRequest>, amended: seq<StackPullRequest>, x: nat, base: string,
                       published: set<Dependency>)
    requires AmendedAt(ById(prs), ById(amended), x)
    ensures PlanSpec(prs, base, published) == PlanSpec(amended, base, published)
  {
    var a, b := ById(prs), ById(amended);
    assert ParentGraph(a) == ParentGraph(b);
    var g := ParentGraph(a);
    if Closed(g) && Acyclic(g) {
      OrderKnown(a);
      OrderKnown(b);
      SameBlocked(a, b, x, Order(g), published);
      SameSteps(a, b, x, base, Order(g));
      hide Blocked, Order, Branch, Steps, Closed, Acyclic, FirstBlocked, ParentGraph, AmendedAt;
    }
  }

  lemma SameSteps(a: Index, b: Index, x: nat, base: string, ids: seq<nat>)
    requires AmendedAt(a, b, x) && Known(a, ids) && Known(b, ids)
    ensures Steps(a, base, ids) == Steps(b, base, ids)
  {
    forall i | 0 <= i < |ids|
      ensures StepOf(a, base, ids[i]) == StepOf(b, base, ids[i])
    {
      hide Branch;
    }
    hide StepOf;
  }

  lemma {:induction false} SameBlocked(a: Index, b: Index, x: nat, ids: seq<nat>, published: set<Dependency>)
    requires AmendedAt(a, b, x)
    ensures FirstBlocked(a, ids, published) == FirstBlocked(b, ids, published)
  {
    if ids != [] {
      SameBlocked(a, b, x, ids[1..], published);
    }
  }

  /** ... and the files of a step change only when the amended pull request is in its chain. */
  lemma {:induction false} AmendKeepsOthers(steps: seq<ProjectionStep>, byId: Index, amended: Index, x: nat,
                                            base: Files, k: nat)
    requires AmendedAt(byId, amended, x) && k < |steps|
    requires forall i :: 0 <= i < |Chain(steps, k)| ==>
        Chain(steps, k)[i] < |steps| && steps[Chain(steps, k)[i]].pullRequest != x
    ensures FilesAfter(steps, byId, base, k) == FilesAfter(steps, amended, base, k)
    decreases k
  {
    hide ProjectFiles;
    var p := ParentIndex(steps, steps[k].parentBranch, k);
    var chain := Chain(steps, k);
    assert chain[|chain| - 1] == k;
    if p.Some? {
      var below := Chain(steps, p.value);
      assert chain == below + [k];
      assert forall i :: 0 <= i < |below| ==> below[i] == chain[i];
      AmendKeepsOthers(steps, byId, amended, x, base, p.value);
    }
  }

  /** The commit under a step is the commit of its parent, or the base commit for a
      pull request without parents. */
  ghost predicate OnParentCommit(steps: seq<ProjectionStep>, byId: Index, k: nat)
    requires k < |steps|
  {
    && steps[k].pullRequest in byId
    && var parents := byId[steps[k].pullRequest].parents;
       match ParentIndex(steps, steps[k].parentBranch, k)
       case None => parents == {}
       case Some(j) => parents == {steps[j].pullRequest}
  }

  lemma IndexOfBranch(steps: seq<ProjectionStep>, j: nat, k: nat)
    requires j < k <= |steps|
    requires forall i :: 0 <= i < k && i != j ==> steps[i].branch != steps[j].branch
    ensures ParentIndex(steps, steps[j].branch, k) == Some(j)
  {
  }

  ghost predicate IsRoot(steps: seq<ProjectionStep>, byId: Index, k: nat)
    requires k < |steps|
  {
    steps[k].pullRequest in byId && byId[steps[k].pullRequest].parents == {}
  }

  /** No step in front of k has a branch with the name of the base branch. */
  ghost predicate BaseFree(steps: seq<ProjectionStep>, base: string, k: nat)
    requires k <= |steps|
  {
    forall j :: 0 <= j < k ==> steps[j].branch != base
  }

  /** A commit is made on the right parent, except for a root that comes behind a
      branch with the name of the base branch. */
  lemma OnParentCommitIff(prs: seq<StackPullRequest>, base: string, published: set<Dependency>, k: nat)
    requires PlanSpec(prs, base, published).Ok? && k < |PlanSpec(prs, base, published).value|
    ensures
      var steps := PlanSpec(prs, base, published).value;
      OnParentCommit(steps, ById(prs), k) <==> (IsRoot(steps, ById(prs), k) ==> BaseFree(steps, base, k))
  {
    var steps := PlanSpec(prs, base, published).value;
    PlannedOnParents(prs, base, published, k);
    hide PlanSpec, ById, Branch, ParentIndex;
    var parents := ById(prs)[steps[k].pullRequest].parents;
    if parents != {} {
      var j :| 0 <= j < k && parents == {steps[j].pullRequest} && steps[k].parentBranch == steps[j].branch;
      forall i | 0 <= i < k && i != j
        ensures steps[i].branch != steps[j].branch
      {
        PlannedBranches(prs, base, published, if i < j then i else j, if i < j then j else i);
      }
      IndexOfBranch(steps, j, k);
    }
  }

  /** Step j is the last before step k that has the branch. */
  ghost predicate IsLastWith(steps: seq<ProjectionStep>, branch: string, k: nat, j: nat)
    requires k <= |steps|
  {
    j < k && steps[j].branch == branch && forall l :: j < l < k ==> steps[l].branch != branch
  }

  /** What the report of a step says, and what its commit holds: the commit it names as
      its parent is that of the last step before it with its parent branch, or else the
      base commit, and each file is that of the parent with the step's own patches. */
  lemma ReportIs(commits: seq<Files>, before: seq<Files>, steps: seq<ProjectionStep>, byId: Index, baseCommit: nat,
                 materialized: seq<Materialized>, i: nat)
    requires Restacked(commits, before, steps, byId, baseCommit, materialized, |steps|) && i < |steps|
    ensures
      var m := materialized[i];
      && m.step == steps[i] && m.commit == |before| + i && m.parentCommit < m.commit < |commits|
      && (forall j: nat :: IsLastWith(steps, steps[i].parentBranch, i, j) ==> m.parentCommit == materialized[j].commit)
      && ((forall j :: 0 <= j < i ==> steps[j].branch != steps[i].parentBranch) ==> m.parentCommit == baseCommit)
      && steps[i].pullRequest in byId
      && forall path :: HoldsPatched(commits[m.parentCommit], byId[steps[i].pullRequest].patches, commits[m.commit],
          path)
  {
    hide ProjectFiles, ApplyAll;
    var p := ParentIndex(steps, steps[i].parentBranch, i);
    var m := materialized[i];
    assert m == Report(steps, |before|, baseCommit, i);
    forall j: nat | IsLastWith(steps, steps[i].parentBranch, i, j)
      ensures p == Some(j)
    {
      LastWithBranch(steps, steps[i].parentBranch, i, j);
    }
    assert FilesAfter(steps, byId, before[baseCommit], i) == Ok(commits[m.commit]);
    if p.Some? {
      assert materialized[p.value] == Report(steps, |before|, baseCommit, p.value);
      assert FilesAfter(steps, byId, before[baseCommit], p.value) == Ok(commits[|before| + p.value]);
    } else {
      assert commits[baseCommit] == commits[..|before|][baseCommit];
    }
    hide ParentIndex, FilesAfter;
    ProjectedHolds(steps, byId, before[baseCommit], i, commits[m.parentCommit], commits[m.commit]);
  }

  ghost predicate HoldsPatched(parent: Files, patches: seq<PatchFragment>, files: Files, path: string) {
    ApplyAll(Get(parent, path), OnPath(patches, path)) == Ok(Get(files, path))
  }

  lemma {:induction false} LastWithBranch(steps: seq<ProjectionStep>, branch: string, k: nat, j: nat)
    requires k <= |steps| && IsLastWith(steps, branch, k, j)
    ensures ParentIndex(steps, branch, k) == Some(j)
    decreases k
  {
    if j < k - 1 {
      LastWithBranch(steps, branch, k - 1, j);
    }
  }

  lemma ProjectedHolds(steps: seq<ProjectionStep>, byId: Index, base: Files, i: nat, parent: Files, files: Files)
    requires i < |steps| && FilesAfter(steps, byId, base, i) == Ok(files)
    requires
      var p := ParentIndex(steps, steps[i].parentBranch, i);
      Ok(parent) == if p.None? then Ok(base) else FilesAfter(steps, byId, base, p.value)
    ensures steps[i].pullRequest in byId
    ensures forall path :: HoldsPatched(parent, byId[steps[i].pullRequest].patches, files, path)
  {
    var patches := byId[steps[i].pullRequest].patches;
    assert ProjectFiles(parent, patches) == Ok(files);
    hide FilesAfter, ProjectFiles, ApplyAll;
    forall path
      ensures HoldsPatched(parent, patches, files, path)
    {
      ProjectByPath(parent, patches, path);
    }
  }

  /** No root comes behind a step whose branch has the name of the base branch. */
  ghost predicate RootsBaseFree(steps: seq<ProjectionStep>, byId: Index, base: string) {
    forall k :: 0 <= k < |steps| && IsRoot(steps, byId, k) ==> BaseFree(steps, base, k)
  }

  /** Every commit is made on the commit of its pull request's parent, and every root
      on the base commit, if and only if no root comes behind a branch with the name
      of the base branch. */
  lemma PlanOnParentCommits(prs: seq<StackPullRequest>, base: string, published: set<Dependency>)
    requires PlanSpec(prs, base, published).Ok?
    ensures
      var steps := PlanSpec(prs, base, published).value;
      (forall k :: 0 <= k < |steps| ==> OnParentCommit(steps, ById(prs), k)) <==> RootsBaseFree(steps, ById(prs), base)
  {
    var steps := PlanSpec(prs, base, published).value;
    forall k | 0 <= k < |steps|
      ensures OnParentCommit(steps, ById(prs), k) <==> (IsRoot(steps, ById(prs), k) ==> BaseFree(steps, base, k))
    {
      OnParentCommitIff(prs, base, published, k);
    }
  }

  /** Puts a line at the beginning of a file that does not exist yet. */
  function Creation(path: string, line: string): PatchFragment {
    PatchFragment({}, path, "", line, "", "")
  }

  lemma CreationProjects(parent: Files, path: string, line: string)
    requires path !in parent
    ensures ProjectFiles(parent, [Creation(path, line)]) == Ok(parent[path := line])
  {
    var patch := Creation(path, line);
    var read := map p | p in Paths([patch]) :: Get(parent, p);
    assert Paths([patch]) == {path} by {
      assert patch in [patch];
    }
    assert Patched("", patch) == Ok(line) by {
      assert Candidates("", patch) == [0];
      assert "" + line + "" == line;
    }
    assert Get(read, path) == "";
    assert [patch][1..] == [];
    assert Progress(read[path := line], []) == (read[path := line], None);
    assert Progress(read, [patch]) == (read[path := line], None);
    assert parent + read[path := line] == parent[path := line];
  }

  const FIRST := StackPullRequest(1, 0, {}, {}, [Creation("a", "A\n")])
  const SECOND := StackPullRequest(2, 0, {}, {}, [Creation("b", "B\n")])

  /** Two independent pull requests that each create a file, and a base branch called
      like the branch of the first: the commit of the second holds the file of the
      first as well. With another base branch it does not. */
  lemma CollisionExample()
    ensures
      var plan := PlanSpec([FIRST, SECOND], Branch(1), {});
      && plan.Ok? && |plan.value| == 2 && plan.value[1].pullRequest == 2
      && FilesAfter(plan.value, ById([FIRST, SECOND]), map[], 1) == Ok(map["a" := "A\n", "b" := "B\n"])
    ensures
      var plan := PlanSpec([FIRST, SECOND], "main", {});
      && plan.Ok? && |plan.value| == 2 && plan.value[1].pullRequest == 2
      && FilesAfter(plan.value, ById([FIRST, SECOND]), map[], 1) == Ok(map["b" := "B\n"])
  {
    var byId := map[1 := FIRST, 2 := SECOND];
    ByIdOfTwo(FIRST, SECOND);
    var g := ParentGraph(byId);
    assert g == map[1 := {}, 2 := {}];
    OrderOfTwo(g);
    OrderKnown(byId);
    NoneBlockedOfTwo(byId);
    StepsOfTwo(byId, Branch(1));
    assert Branch(1) != "";
    FilesOfTwo(byId, Branch(1));
    StepsOfTwo(byId, "main");
    assert Branch(1)[0] != "main"[0];
    FilesOfTwo(byId, "main");
    hide Branch, Order, Closed, Acyclic, ById, FirstBlocked, ParentGraph, Steps, StepOf, ParentIndex, FilesAfter;
  }

  lemma FilesOfTwo(byId: Index, base: string)
    requires byId == map[1 := FIRST, 2 := SECOND] && Known(byId, [1, 2])
    ensures
      FilesAfter(Steps(byId, base, [1, 2]), byId, map[], 1)
      == Ok(if base == Branch(1) then map["a" := "A\n", "b" := "B\n"] else map["b" := "B\n"])
  {
    var steps := Steps(byId, base, [1, 2]);
    StepsOfTwo(byId, base);
    CreationProjects(map[], "a", "A\n");
    CreationProjects(map[], "b", "B\n");
    CreationProjects(map["a" := "A\n"], "b", "B\n");
    hide Branch, ProjectFiles, Steps;
    assert ParentIndex(steps, base, 0) == None;
    assert FilesAfter(steps, byId, map[], 0) == Ok(map["a" := "A\n"]);
  }

  lemma StepsOfTwo(byId: Index, base: string)
    requires 1 in byId && 2 in byId && byId[1].parents == {} && byId[2].parents == {}
    ensures Known(byId, [1, 2])
    ensures Steps(byId, base, [1, 2]) == [ProjectionStep(1, Branch(1), base), ProjectionStep(2, Branch(2), base)]
  {
    hide Branch;
  }

  lemma ByIdOfTwo(one: StackPullRequest, two: StackPullRequest)
    requires one.id == 1 && two.id == 2
    ensures ById([one, two]) == map[1 := one, 2 := two]
  {
    assert [one, two][..1] == [one] && [one][..0] == [];
    assert KeyedLists.Collect(IdOf, [one]) == map[1 := one];
  }

  lemma NoneBlockedOfTwo(byId: Index)
    requires forall k :: k in byId ==> byId[k].dependencies == {} && byId[k].parents == {}
    ensures FirstBlocked(byId, [1, 2], {}).None?
  {
    assert FirstBlocked(byId, [], {}).None?;
    assert [2][1..] == [] && FirstBlocked(byId, [2], {}).None?;
    assert [1, 2][1..] == [2];
  }

  lemma LevelsOfTwo(g: Graph)
    requires g == map[1 := {}, 2 := {}]
    ensures Level(g, 0) == {} && Level(g, 1) == {1, 2} && Level(g, 2) == {1, 2}
  {
  }

  lemma SortedTwo(s: seq<nat>)
    requires Ascending(s) && Elements(s) == {1, 2}
    ensures s == [1, 2]
  {
    assert forall x :: x in s <==> x in Elements(s);
    AscendingIsUnique(s, [1, 2]);
  }

  lemma OrderOfTwo(g: Graph)
    requires g == map[1 := {}, 2 := {}]
    ensures Closed(g) && Acyclic(g) && Order(g) == [1, 2]
  {
    LevelsOfTwo(g);
    FullLevelIsDag(g, 1);
    LayersOfTwo(g);
    assert |g| == 2;
  }

  lemma LayersOfTwo(g: Graph)
    requires Level(g, 0) == {} && Level(g, 1) == {1, 2} && Level(g, 2) == {1, 2}
    ensures Layered(g, 2) == [1, 2]
  {
    SortedSeqSorts({1, 2});
    SortedTwo(SortedSeq({1, 2}));
    assert SortedSeq({}) == [];
    hide Level, SortedSeq;
    assert Level(g, 1) - Level(g, 0) == {1, 2} && Level(g, 2) - Level(g, 1) == {};
    assert Layered(g, 1) == [] + [1, 2];
  }

  lemma {:induction false} ChainMemberIsAncestor(steps: seq<ProjectionStep>, byId: Index, k: nat, i: nat)
    requires k < |steps| && i < |Chain(steps, k)|
    requires forall j :: 0 <= j < |steps| ==> OnParentCommit(steps, byId, j)
    ensures Chain(steps, k)[i] <= k
    ensures Leads(ParentGraph(byId), steps[k].pullRequest, steps[Chain(steps, k)[i]].pullRequest)
    decreases k
  {
    var g := ParentGraph(byId);
    var y := steps[k].pullRequest;
    var p := ParentIndex(steps, steps[k].parentBranch, k);
    var chain := Chain(steps, k);
    if i == |chain| - 1 {
      assert IsChain(g, [y]) && [y][0] == y;
    } else {
      assert chain == Chain(steps, p.value) + [k];
      assert OnParentCommit(steps, byId, k);
      ChainMemberIsAncestor(steps, byId, p.value, i);
      LeadsStep(g, y, steps[p.value].pullRequest, steps[chain[i]].pullRequest);
    }
  }

  /** Pull request x is one of those whose commits lie under step k. */
  ghost predicate InChain(steps: seq<ProjectionStep>, k: nat, x: nat)
    requires k < |steps|
  {
    exists i :: 0 <= i < |Chain(steps, k)| && Chain(steps, k)[i] < |steps| && steps[Chain(steps, k)[i]].pullRequest == x
  }

  lemma {:induction false} AncestorIsInChain(steps: seq<ProjectionStep>, byId: Index, k: nat, p: seq<nat>)
    requires k < |steps| && forall j :: 0 <= j < |steps| ==> OnParentCommit(steps, byId, j)
    requires IsChain(ParentGraph(byId), p) && p[0] == steps[k].pullRequest
    ensures InChain(steps, k, p[|p| - 1])
    decreases |p|
  {
    var chain := Chain(steps, k);
    if |p| == 1 {
      assert chain[|chain| - 1] == k;
    } else {
      assert OnParentCommit(steps, byId, k);
      assert p[0 + 1] in ParentGraph(byId)[p[0]];
      var j := ParentIndex(steps, steps[k].parentBranch, k).value;
      SubChain(ParentGraph(byId), p, 1, |p|);
      AncestorIsInChain(steps, byId, j, p[1..|p|]);
      var below := Chain(steps, j);
      assert chain == below + [k];
      var i :| 0 <= i < |below| && below[i] < |steps| && steps[below[i]].pullRequest == p[|p| - 1];
      assert chain[i] == below[i];
    }
  }

  /** Under a commit lie the pull request itself and its ancestors, and no other. */
  lemma ChainIsAncestry(steps: seq<ProjectionStep>, byId: Index, k: nat, x: nat)
    requires k < |steps| && forall j :: 0 <= j < |steps| ==> OnParentCommit(steps, byId, j)
    ensures InChain(steps, k, x) <==> Leads(ParentGraph(byId), steps[k].pullRequest, x)
  {
    if InChain(steps, k, x) {
      var i :| 0 <= i < |Chain(steps, k)| && Chain(steps, k)[i] < |steps| && steps[Chain(steps, k)[i]].pullRequest == x;
      ChainMemberIsAncestor(steps, byId, k, i);
    }
    if Leads(ParentGraph(byId), steps[k].pullRequest, x) {
      var p :| IsChain(ParentGraph(byId), p) && p[0] == steps[k].pullRequest && p[|p| - 1] == x;
      AncestorIsInChain(steps, byId, k, p);
    }
  }

  /** Amending a pull request leaves the projected files of everything that does not
      descend from it unchanged. */
  lemma AmendKeepsNonDescendants(prs: seq<StackPullRequest>, amended: seq<StackPullRequest>, x: nat,
                                 branch: string, base: Files, k: nat)
    requires AmendedAt(ById(prs), ById(amended), x)
    requires PlanSpec(prs, branch, {}).Ok? && k < |PlanSpec(prs, branch, {}).value|
    requires RootsBaseFree(PlanSpec(prs, branch, {}).value, ById(prs), branch)
    requires !Leads(ParentGraph(ById(prs)), PlanSpec(prs, branch, {}).value[k].pullRequest, x)
    ensures PlanSpec(amended, branch, {}) == PlanSpec(prs, branch, {})
    ensures
      var steps := PlanSpec(prs, branch, {}).value;
      FilesAfter(steps, ById(amended), base, k) == FilesAfter(steps, ById(prs), base, k)
  {
    AmendKeepsPlan(prs, amended, x, branch, {});
    var steps := PlanSpec(prs, branch, {}).value;
    var byId := ById(prs);
    PlanOnParentCommits(prs, branch, {});
    forall i | 0 <= i < |Chain(steps, k)|
      ensures Chain(steps, k)[i] < |steps| && steps[Chain(steps, k)[i]].pullRequest != x
    {
      ChainMemberIsAncestor(steps, byId, k, i);
    }
    AmendKeepsOthers(steps, byId, ById(amended), x, base, k);
  }
}
