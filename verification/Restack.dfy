/** Restacking: every pull request of a stack is projected into a commit of its own,
    on top of the commit of its parent.
 */
module Restack {
  import opened Wrappers
  import opened PatchSearch
  import opened StackPullRequests
  import opened Projection

  type Files = map<string, string>

  /** A missing file reads as the empty text. */
  function Get(files: Files, path: string): string {
    if path in files then files[path] else ""
  }

  // ----- apply_patches -----

  /** The file map after the patches that could be applied, and the first refusal. */
  function Progress(files: Files, patches: seq<PatchFragment>): (Files, Option<Error>)
    decreases |patches|
  {
    if patches == [] then (files, None)
    else
      var path := patches[0].path;
      var next := Patched(Get(files, path), patches[0]);
      if next.Err? then (files[path := Get(files, path)], Some(next.error))
      else Progress(files[path := next.value], patches[1..])
  }

  lemma ProgressStep(files: Files, patches: seq<PatchFragment>, i: nat)
    requires i < |patches|
    ensures
      var path := patches[i].path;
      var next := Patched(Get(files, path), patches[i]);
      Progress(files, patches[i..]) ==
        if next.Err? then (files[path := Get(files, path)], Some(next.error))
        else Progress(files[path := next.value], patches[i + 1..])
  {
    assert patches[i..][0] == patches[i] && patches[i..][1..] == patches[i + 1..];
  }

  class FileMap {
    var files: Files

    constructor (files: Files)
      ensures this.files == files
    {
      this.files := files;
    }

    method ApplyPatches(patches: seq<PatchFragment>) returns (error: Option<Error>)
      modifies this
      ensures (files, error) == Progress(old(files), patches)
    {
      hide Progress, Patched;
      var i := 0;
      assert patches[0..] == patches;
      while i < |patches|
        invariant 0 <= i <= |patches|
        invariant Progress(files, patches[i..]) == Progress(old(files), patches)
      {
        var patch := patches[i];
        ProgressStep(files, patches, i);
        ghost var before := files;
        if patch.path !in files {
          files := files[patch.path := ""];
        }
        var content := ApplyPatch(files[patch.path], patch);
        assert files == before[patch.path := Get(before, patch.path)];
        if content.Err? {
          return Some(content.error);
        }
        files := files[patch.path := content.value];
        assert files == before[patch.path := content.value];
        i := i + 1;
      }
      assert patches[i..] == [];
      NoProgress(files);
      return None;
    }
  }

  lemma NoProgress(files: Files)
    ensures Progress(files, []) == (files, None)
  {
  }

  function OnPath(patches: seq<PatchFragment>, path: string): seq<PatchFragment> {
    if patches == [] then []
    else if patches[0].path == path then [patches[0]] + OnPath(patches[1..], path)
    else OnPath(patches[1..], path)
  }

  /** Files do not influence each other: each holds what its own patches make of it. */
  lemma {:induction false} ProgressByPath(files: Files, patches: seq<PatchFragment>, path: string)
    requires Progress(files, patches).1 == None
    ensures ApplyAll(Get(files, path), OnPath(patches, path)) == Ok(Get(Progress(files, patches).0, path))
    decreases |patches|
  {
    if patches != [] {
      var next := Patched(Get(files, patches[0].path), patches[0]);
      ProgressByPath(files[patches[0].path := next.value], patches[1..], path);
    }
  }

  /** Applying the patches goes through exactly when it does so on every path. */
  lemma {:induction false} ProgressFailsIff(files: Files, patches: seq<PatchFragment>)
    ensures Progress(files, patches).1 == None
       <==> forall path :: ApplyAll(Get(files, path), OnPath(patches, path)).Ok?
    ensures Progress(files, patches).1 in {None, Some(Conflict)}
    decreases |patches|
  {
    hide Patched;
    if patches != [] {
      var first := patches[0].path;
      var next := Patched(Get(files, first), patches[0]);
      OneMoreOnPath(Get(files, first), patches);
      if next.Ok? {
        var after := files[first := next.value];
        ProgressFailsIff(after, patches[1..]);
        forall path
          ensures ApplyAll(Get(files, path), OnPath(patches, path))
              == ApplyAll(Get(after, path), OnPath(patches[1..], path))
        {
        }
      } else {
        PatchConflicts(Get(files, first), patches[0]);
      }
    }
  }

  /** Where applying the patches stops: those in front have gone through, the next does
      not, and its file is there even if it was not before. */
  lemma {:induction false} ProgressStops(files: Files, patches: seq<PatchFragment>) returns (k: nat)
    requires Progress(files, patches).1.Some?
    ensures k < |patches| && Progress(files, patches[..k]).1 == None
    ensures
      var (after, path) := (Progress(files, patches[..k]).0, patches[k].path);
      Patched(Get(after, path), patches[k]).Err? && Progress(files, patches).0 == after[path := Get(after, path)]
    decreases |patches|
  {
    hide Patched;
    var first := patches[0].path;
    var next := Patched(Get(files, first), patches[0]);
    if next.Err? {
      k := 0;
      assert patches[..0] == [];
    } else {
      k := ProgressStops(files[first := next.value], patches[1..]);
      k := k + 1;
      assert patches[..k] == [patches[0]] + patches[1..][..k - 1];
      assert patches[..k][1..] == patches[1..][..k - 1];
    }
  }

  lemma OneMoreOnPath(content: string, patches: seq<PatchFragment>)
    requires patches != []
    ensures
      var next, path := Patched(content, patches[0]), patches[0].path;
      ApplyAll(content, OnPath(patches, path))
      == if next.Err? then next else ApplyAll(next.value, OnPath(patches[1..], path))
  {
    hide Patched;
    var rest := OnPath(patches[1..], patches[0].path);
    assert ([patches[0]] + rest)[1..] == rest;
  }

  lemma PatchConflicts(content: string, patch: PatchFragment)
    ensures Patched(content, patch).Err? ==> Patched(content, patch) == Err(Conflict)
  {
  }

  lemma {:induction false} OnPathJoin(a: seq<PatchFragment>, b: seq<PatchFragment>, path: string)
    ensures OnPath(a + b, path) == OnPath(a, path) + OnPath(b, path)
  {
    if a == [] {
      assert a + b == b;
    } else {
      assert (a + b)[1..] == a[1..] + b;
      OnPathJoin(a[1..], b, path);
    }
  }

  lemma {:induction false} ApplyAllJoin(content: string, a: seq<PatchFragment>, b: seq<PatchFragment>)
    ensures ApplyAll(content, a).Ok? ==> ApplyAll(content, a + b) == ApplyAll(ApplyAll(content, a).value, b)
    decreases |a|
  {
    if a == [] {
      assert a + b == b;
    } else {
      assert (a + b)[1..] == a[1..] + b;
      var next := Patched(content, a[0]);
      if next.Ok? {
        ApplyAllJoin(next.value, a[1..], b);
      }
    }
  }

  // ----- projecting one pull request -----

  function Paths(patches: seq<PatchFragment>): set<string> {
    set p | p in patches :: p.path
  }

  /** The files of a commit that projects the patches on a parent with these files. */
  function ProjectFiles(parent: Files, patches: seq<PatchFragment>): Result<Files> {
    if patches == [] then Err(Invalid)
    else
      var (files, error) := Progress(map path | path in Paths(patches) :: Get(parent, path), patches);
      if error.Some? then Err(error.value) else Ok(parent + files)
  }

  lemma ProjectByPath(parent: Files, patches: seq<PatchFragment>, path: string)
    requires ProjectFiles(parent, patches).Ok?
    ensures ApplyAll(Get(parent, path), OnPath(patches, path)) == Ok(Get(ProjectFiles(parent, patches).value, path))
  {
    var read := map path | path in Paths(patches) :: Get(parent, path);
    ProgressByPath(read, patches, path);
    ProgressKeys(read, patches);
    if path !in Paths(patches) {
      NotOnPath(patches, path);
    }
  }

  /** The projection is refused as invalid without patches, and as a conflict when the
      patches of some path do not go through. */
  lemma ProjectFailsIff(parent: Files, patches: seq<PatchFragment>)
    ensures ProjectFiles(parent, patches) == Err(Invalid) <==> patches == []
    ensures ProjectFiles(parent, patches).Ok?
       <==> patches != [] && forall path :: ApplyAll(Get(parent, path), OnPath(patches, path)).Ok?
    ensures ProjectFiles(parent, patches).Ok? || ProjectFiles(parent, patches).error in {Invalid, Conflict}
  {
    var read := map path | path in Paths(patches) :: Get(parent, path);
    ProgressFailsIff(read, patches);
    hide Progress;
    forall path
      ensures ApplyAll(Get(parent, path), OnPath(patches, path)).Ok?
          <==> ApplyAll(Get(read, path), OnPath(patches, path)).Ok?
    {
      if path !in Paths(patches) {
        NotOnPath(patches, path);
      }
    }
  }

  lemma {:induction false} ProgressKeys(files: Files, patches: seq<PatchFragment>)
    ensures Progress(files, patches).1 == None ==> Progress(files, patches).0.Keys == files.Keys + Paths(patches)
    decreases |patches|
  {
    if patches != [] {
      var next := Patched(Get(files, patches[0].path), patches[0]);
      if next.Ok? {
        ProgressKeys(files[patches[0].path := next.value], patches[1..]);
        assert patches == [patches[0]] + patches[1..];
      }
    }
  }

  lemma {:induction false} NotOnPath(patches: seq<PatchFragment>, path: string)
    requires path !in Paths(patches)
    ensures OnPath(patches, path) == []
  {
    if patches != [] {
      assert patches[0] in patches;
      forall p | p in patches[1..]
        ensures p in patches
      {
      }
      NotOnPath(patches[1..], path);
    }
  }

  // ----- the commit store -----

  /** The part of the Git adapter that projection uses. A commit is named by its
      position; it is never changed, only branch refs move. */
  class CommitStore {
    var commits: seq<Files>
    var branches: map<string, nat>

    method ReadFilesAt(commit: nat, paths: set<string>) returns (result: Result<Files>)
      ensures result == if commit < |commits| then Ok(map path | path in paths :: Get(commits[commit], path))
          else Err(NotFound)
    {
      if commit >= |commits| {
        return Err(NotFound);
      }
      return Ok(map path | path in paths :: Get(commits[commit], path));
    }

    method CommitFileContents(branch: string, parent: nat, files: Files) returns (result: Result<nat>)
      modifies this
      ensures parent >= |old(commits)| ==>
          result == Err(NotFound) && commits == old(commits) && branches == old(branches)
      ensures parent < |old(commits)| ==>
          && result == Ok(|old(commits)|)
          && commits == old(commits) + [old(commits)[parent] + files]
          && branches == old(branches)[branch := |old(commits)|]
    {
      if parent >= |commits| {
        return Err(NotFound);
      }
      branches := branches[branch := parent];
      commits := commits + [commits[parent] + files];
      branches := branches[branch := |commits| - 1];
      return Ok(|commits| - 1);
    }
  }

  method ProjectStackPullRequest(store: CommitStore, patches: seq<PatchFragment>, branch: string, parent: nat)
    returns (result: Result<nat>)
    modifies store
    ensures
      var projected :=
        if patches != [] && parent >= |old(store.commits)| then Err(NotFound)
        else ProjectFiles(if parent < |old(store.commits)| then old(store.commits)[parent] else map[], patches);
      && result == (if projected.Ok? then Ok(|old(store.commits)|) else Err(projected.error))
      && store.commits == (if projected.Ok? then old(store.commits) + [projected.value] else old(store.commits))
      && store.branches == (if projected.Ok? then old(store.branches)[branch := |old(store.commits)|]
          else old(store.branches))
    ensures patches == [] ==> result == Err(Invalid)
    ensures patches != [] && parent >= |old(store.commits)| ==> result == Err(NotFound)
  {
    if patches == [] {
      return Err(Invalid);
    }
    var read := store.ReadFilesAt(parent, Paths(patches));
    if read.Err? {
      return Err(read.error);
    }
    var files := new FileMap(read.value);
    var error := files.ApplyPatches(patches);
    if error.Some? {
      return Err(error.value);
    }
    result := store.CommitFileContents(branch, parent, files.files);
  }

  // ----- restacking -----

  datatype Materialized = Materialized(step: ProjectionStep, parentCommit: nat, commit: nat)

  /** The earlier step whose branch a step is put on, if there is one; otherwise the
      step is put on the base commit. */
  function ParentIndex(steps: seq<ProjectionStep>, branch: string, k: nat): (r: Option<nat>)
    requires k <= |steps|
    ensures r.Some? ==> r.value < k && steps[r.value].branch == branch
    ensures r.None? ==> forall j :: 0 <= j < k ==> steps[j].branch != branch
  {
    if k == 0 then None
    else if steps[k - 1].branch == branch then Some(k - 1)
    else ParentIndex(steps, branch, k - 1)
  }

  /** The files of the commit of step k. */
  function FilesAfter(steps: seq<ProjectionStep>, byId: Index, base: Files, k: nat): Result<Files>
    requires k < |steps|
    decreases k
  {
    var p := ParentIndex(steps, steps[k].parentBranch, k);
    var parent := if p.None? then Ok(base) else FilesAfter(steps, byId, base, p.value);
    if parent.Err? then parent
    else if steps[k].pullRequest !in byId then Err(NotFound)
    else ProjectFiles(parent.value, byId[steps[k].pullRequest].patches)
  }

  function ParentCommit(steps: seq<ProjectionStep>, k: nat, first: nat, baseCommit: nat): nat
    requires k < |steps|
  {
    var p := ParentIndex(steps, steps[k].parentBranch, k);
    if p.None? then baseCommit else first + p.value
  }

  /** The commits of the first k steps, and how they are reported. */
  ghost predicate Restacked(commits: seq<Files>, before: seq<Files>, steps: seq<ProjectionStep>, byId: Index,
                            baseCommit: nat, materialized: seq<Materialized>, k: nat)
  {
    && k <= |steps| && |materialized| == k && |commits| == |before| + k && commits[..|before|] == before
    && (k > 0 ==> baseCommit < |before|)
    && (forall i :: 0 <= i < k ==> materialized[i] == Report(steps, |before|, baseCommit, i))
    && (forall i :: 0 <= i < k ==> FilesAfter(steps, byId, before[baseCommit], i) == Ok(commits[|before| + i]))
  }

  ghost function Report(steps: seq<ProjectionStep>, first: nat, baseCommit: nat, i: nat): Materialized
    requires i < |steps|
  {
    Materialized(steps[i], ParentCommit(steps, i, first, baseCommit), first + i)
  }

  ghost predicate CommitsOf(made: map<string, nat>, steps: seq<ProjectionStep>, first: nat, k: nat)
    requires k <= |steps|
  {
    forall b :: (b in made <==> ParentIndex(steps, b, k).Some?)
        && (b in made ==> made[b] == first + ParentIndex(steps, b, k).value)
  }

  /** Step k is the first that fails; the commits of the steps before it stay. */
  ghost predicate StopsAt(commits: seq<Files>, before: seq<Files>, steps: seq<ProjectionStep>, byId: Index,
                          baseCommit: nat, error: Error, k: nat)
  {
    && k < |steps| && baseCommit < |before|
    && |commits| == |before| + k && commits[..|before|] == before
    && (forall i :: 0 <= i < k ==> FilesAfter(steps, byId, before[baseCommit], i) == Ok(commits[|before| + i]))
    && FilesAfter(steps, byId, before[baseCommit], k) == Err(error)
  }

  /** The branch ref is as it was. */
  ghost predicate SameRef(branches: map<string, nat>, was: map<string, nat>, branch: string) {
    (branch in branches <==> branch in was) && (branch in was ==> branches[branch] == was[branch])
  }

  /** Each of the first k steps has moved its own branch to its own commit, and no other
      branch has moved. */
  ghost predicate RefsMoved(branches: map<string, nat>, was: map<string, nat>, steps: seq<ProjectionStep>, first: nat,
                            k: nat)
    requires k <= |steps|
  {
    && (forall i :: 0 <= i < k ==> steps[i].branch in branches && branches[steps[i].branch] == first + i)
    && (forall b :: NoStepBranch(steps, k, b) ==> SameRef(branches, was, b))
  }

  /** None of the first k steps has the branch b. */
  ghost predicate NoStepBranch(steps: seq<ProjectionStep>, k: nat, b: string)
    requires k <= |steps|
  {
    forall i :: 0 <= i < k ==> steps[i].branch != b
  }

  ghost predicate GeneratedName(branch: string) {
    exists id :: branch == Branch(id)
  }

  method RestackMonoRepository(store: CommitStore, prs: seq<StackPullRequest>, baseBranch: string, baseCommit: nat)
    returns (result: Result<seq<Materialized>>)
    modifies store
    ensures old(store.commits) <= store.commits
    ensures
      var plan := PlanSpec(prs, baseBranch, {});
      && (plan.Err? ==>
            result == Err(plan.error) && store.commits == old(store.commits) && store.branches == old(store.branches))
      && (result.Ok? ==>
            && plan.Ok?
            && Restacked(store.commits, old(store.commits), plan.value, ById(prs), baseCommit, result.value,
                |plan.value|))
      && (plan.Ok? && result.Err? && baseCommit < |old(store.commits)| ==>
            exists k :: StopsAt(store.commits, old(store.commits), plan.value, ById(prs), baseCommit, result.error, k)
                        && RefsMoved(store.branches, old(store.branches), plan.value, |old(store.commits)|, k))
      && (result.Err? && baseCommit >= |old(store.commits)| ==>
            store.commits == old(store.commits) && store.branches == old(store.branches))
    ensures result.Ok? ==>
      var steps := PlanSpec(prs, baseBranch, {}).value;
      && |result.value| == |steps|
      && (forall i :: 0 <= i < |steps| ==>
            steps[i].branch in store.branches && store.branches[steps[i].branch] == result.value[i].commit)
      && (forall b :: NoStepBranch(steps, |steps|, b) ==> SameRef(store.branches, old(store.branches), b))
    ensures !GeneratedName(baseBranch) ==> SameRef(store.branches, old(store.branches), baseBranch)
  {
    hide FilesAfter, ProjectFiles, ParentIndex, PlanSpec, ParentCommit, Restacked, StopsAt, CommitsOf, RefsMoved,
      Branch;
    var plan := PlanMonoRepository(prs, baseBranch, {});
    if plan.Err? {
      return Err(plan.error);
    }
    var steps := plan.value;
    var byId := ById(prs);
    PlanKnown(prs, baseBranch, {});
    var made: map<string, nat> := map[];
    var materialized: seq<Materialized> := [];
    ghost var before := store.commits;
    ghost var refs := store.branches;
    NothingMade(before, refs, steps, byId, baseCommit);
    for k := 0 to |steps|
      invariant Restacked(store.commits, before, steps, byId, baseCommit, materialized, k)
      invariant CommitsOf(made, steps, |before|, k)
      invariant RefsMoved(store.branches, refs, steps, |before|, k)
    {
      BaseStays(prs, baseBranch, store.branches, refs, |before|, k);
      var step := steps[k];
      var parent := if step.parentBranch in made then made[step.parentBranch] else baseCommit;
      RestackedKeeps(store.commits, before, steps, byId, baseCommit, materialized, k);
      ParentMade(store.commits, before, steps, byId, baseCommit, materialized, k, made);
      ghost var commits, refsBefore := store.commits, store.branches;
      var commit := ProjectStackPullRequest(store, byId[step.pullRequest].patches, step.branch, parent);
      NothingToProject();
      if commit.Err? {
        if k == 0 {
          NothingMoved(store.branches, refs, steps, |before|);
        }
        if baseCommit < |before| {
          Stops(store.commits, before, steps, byId, baseCommit, materialized, k, commit.error);
        }
        return Err(commit.error);
      }
      assert store.commits[..|store.commits| - 1] == commits;
      RestackedSnoc(store.commits, before, steps, byId, baseCommit, materialized, k);
      MadeSnoc(made, steps, |before|, k);
      RefsSnoc(prs, baseBranch, refsBefore, refs, |before|, k);
      made := made[step.branch := commit.value];
      materialized := materialized + [Materialized(step, parent, commit.value)];
    }
    RestackedKeeps(store.commits, before, steps, byId, baseCommit, materialized, |steps|);
    BaseStays(prs, baseBranch, store.branches, refs, |before|, |steps|);
    ReportsCommits(store.commits, before, store.branches, refs, steps, byId, baseCommit, materialized);
    return Ok(materialized);
  }

  lemma RefsSnoc(prs: seq<StackPullRequest>, baseBranch: string, branches: map<string, nat>, was: map<string, nat>,
                 first: nat, k: nat)
    requires PlanSpec(prs, baseBranch, {}).Ok? && k < |PlanSpec(prs, baseBranch, {}).value|
    requires RefsMoved(branches, was, PlanSpec(prs, baseBranch, {}).value, first, k)
    ensures
      var steps := PlanSpec(prs, baseBranch, {}).value;
      RefsMoved(branches[steps[k].branch := first + k], was, steps, first, k + 1)
  {
    var steps := PlanSpec(prs, baseBranch, {}).value;
    forall i | 0 <= i < k
      ensures steps[i].branch != steps[k].branch
    {
      PlannedBranches(prs, baseBranch, {}, i, k);
    }
    hide PlanSpec;
    OneMoreRef(steps, branches, was, first, k);
  }

  lemma OneMoreRef(steps: seq<ProjectionStep>, branches: map<string, nat>, was: map<string, nat>, first: nat, k: nat)
    requires k < |steps| && RefsMoved(branches, was, steps, first, k)
    requires forall i :: 0 <= i < k ==> steps[i].branch != steps[k].branch
    ensures RefsMoved(branches[steps[k].branch := first + k], was, steps, first, k + 1)
  {
    var next := branches[steps[k].branch := first + k];
    forall b | NoStepBranch(steps, k + 1, b)
      ensures SameRef(next, was, b)
    {
      assert steps[k].branch != b && NoStepBranch(steps, k, b);
    }
  }

  lemma NothingMoved(branches: map<string, nat>, was: map<string, nat>, steps: seq<ProjectionStep>, first: nat)
    requires RefsMoved(branches, was, steps, first, 0)
    ensures branches == was
  {
    forall b
      ensures SameRef(branches, was, b)
    {
      assert NoStepBranch(steps, 0, b);
    }
    assert forall b :: b in was || b in branches ==> SameRef(branches, was, b);
    assert branches.Keys == was.Keys;
  }

  lemma BaseStays(prs: seq<StackPullRequest>, baseBranch: string, branches: map<string, nat>, was: map<string, nat>,
                  first: nat, k: nat)
    requires PlanSpec(prs, baseBranch, {}).Ok? && k <= |PlanSpec(prs, baseBranch, {}).value|
    requires RefsMoved(branches, was, PlanSpec(prs, baseBranch, {}).value, first, k)
    ensures !GeneratedName(baseBranch) ==> SameRef(branches, was, baseBranch)
  {
    var steps := PlanSpec(prs, baseBranch, {}).value;
    if !GeneratedName(baseBranch) {
      forall i | 0 <= i < k
        ensures steps[i].branch != baseBranch
      {
        StepsOnOwnBranches(prs, baseBranch, {}, i);
      }
    }
    hide PlanSpec, Branch;
  }

  lemma ReportsCommits(commits: seq<Files>, before: seq<Files>, branches: map<string, nat>, was: map<string, nat>,
                       steps: seq<ProjectionStep>, byId: Index, baseCommit: nat, materialized: seq<Materialized>)
    requires Restacked(commits, before, steps, byId, baseCommit, materialized, |steps|)
    requires RefsMoved(branches, was, steps, |before|, |steps|)
    ensures |materialized| == |steps|
    ensures forall i :: 0 <= i < |steps| ==>
        steps[i].branch in branches && branches[steps[i].branch] == materialized[i].commit
    ensures forall b :: NoStepBranch(steps, |steps|, b) ==> SameRef(branches, was, b)
  {
    hide FilesAfter, SameRef, ParentCommit;
  }

  lemma RestackedKeeps(commits: seq<Files>, before: seq<Files>, steps: seq<ProjectionStep>, byId: Index,
                       baseCommit: nat, materialized: seq<Materialized>, k: nat)
    requires Restacked(commits, before, steps, byId, baseCommit, materialized, k)
    ensures before <= commits && |commits| == |before| + k && (k > 0 ==> baseCommit < |before|)
  {
    hide FilesAfter;
  }

  lemma Stops(commits: seq<Files>, before: seq<Files>, steps: seq<ProjectionStep>, byId: Index,
              baseCommit: nat, materialized: seq<Materialized>, k: nat, error: Error)
    requires Restacked(commits, before, steps, byId, baseCommit, materialized, k)
    requires k < |steps| && baseCommit < |before| && FilesAfter(steps, byId, before[baseCommit], k) == Err(error)
    ensures StopsAt(commits, before, steps, byId, baseCommit, error, k)
  {
    hide FilesAfter;
  }

  lemma NothingToProject()
    ensures forall parent: Files :: ProjectFiles(parent, []) == Err(Invalid)
  {
  }

  lemma RestackedSnoc(commits: seq<Files>, before: seq<Files>, steps: seq<ProjectionStep>, byId: Index,
                      baseCommit: nat, materialized: seq<Materialized>, k: nat)
    requires k < |steps| && |commits| == |before| + k + 1 && baseCommit < |before|
    requires Restacked(commits[..|commits| - 1], before, steps, byId, baseCommit, materialized, k)
    requires FilesAfter(steps, byId, before[baseCommit], k) == Ok(commits[|before| + k])
    ensures
      var made := Materialized(steps[k], ParentCommit(steps, k, |before|, baseCommit), |before| + k);
      Restacked(commits, before, steps, byId, baseCommit, materialized + [made], k + 1)
  {
    hide FilesAfter, ParentCommit;
    var init := commits[..|commits| - 1];
    assert commits[..|before|] == init[..|before|];
    forall i | 0 <= i < k + 1
      ensures FilesAfter(steps, byId, before[baseCommit], i) == Ok(commits[|before| + i])
    {
      assert i < k ==> init[|before| + i] == commits[|before| + i];
    }
    var all := materialized + [Report(steps, |before|, baseCommit, k)];
    assert forall i :: 0 <= i < k ==> all[i] == materialized[i];
  }

  lemma PlanKnown(prs: seq<StackPullRequest>, base: string, published: set<Dependency>)
    requires PlanSpec(prs, base, published).Ok?
    ensures forall k :: 0 <= k < |PlanSpec(prs, base, published).value| ==>
        PlanSpec(prs, base, published).value[k].pullRequest in ById(prs)
  {
    forall k | 0 <= k < |PlanSpec(prs, base, published).value|
      ensures PlanSpec(prs, base, published).value[k].pullRequest in ById(prs)
    {
      PlannedOnParents(prs, base, published, k);
    }
  }

  lemma NothingMade(before: seq<Files>, refs: map<string, nat>, steps: seq<ProjectionStep>, byId: Index,
                    baseCommit: nat)
    ensures RefsMoved(refs, refs, steps, |before|, 0)
    ensures Restacked(before, before, steps, byId, baseCommit, [], 0)
    ensures CommitsOf(map[], steps, |before|, 0)
  {
    hide FilesAfter;
  }

  lemma MadeSnoc(made: map<string, nat>, steps: seq<ProjectionStep>, first: nat, k: nat)
    requires k < |steps| && CommitsOf(made, steps, first, k)
    ensures CommitsOf(made[steps[k].branch := first + k], steps, first, k + 1)
  {
  }

  /** The parent commit of a step and its files, in terms of the steps before it. */
  lemma ParentMade(commits: seq<Files>, before: seq<Files>, steps: seq<ProjectionStep>, byId: Index,
                   baseCommit: nat, materialized: seq<Materialized>, k: nat, made: map<string, nat>)
    requires Restacked(commits, before, steps, byId, baseCommit, materialized, k) && k < |steps|
    requires CommitsOf(made, steps, |before|, k) && steps[k].pullRequest in byId
    ensures
      var branch := steps[k].parentBranch;
      var parent := if branch in made then made[branch] else baseCommit;
      && parent == ParentCommit(steps, k, |before|, baseCommit)
      && (baseCommit < |before| ==>
            && parent < |commits|
            && FilesAfter(steps, byId, before[baseCommit], k)
                == ProjectFiles(commits[parent], byId[steps[k].pullRequest].patches))
      && (baseCommit >= |before| ==> k == 0 && parent == baseCommit && |commits| == |before|)
  {
    hide ProjectFiles;
    var p := ParentIndex(steps, steps[k].parentBranch, k);
    hide ParentIndex;
    if p.None? {
      assert baseCommit < |before| ==> commits[baseCommit] == commits[..|before|][baseCommit];
    }
  }
}
