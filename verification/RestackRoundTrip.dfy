/** The way of a change through a stack: captured lines are divided among pull requests,
    each bound to fragments, and restacking gives the changed files back.
 */
module RestackRoundTrip {
  import Lcs
  import Text
  import opened Wrappers
  import opened Model
  import opened PatchSearch
  import opened PatchBinding
  import opened Projection
  import opened Restack
  import opened RestackTheorems
  import opened StackRoundTrip
  import opened SharedLines

  // ----- the fragments of one path -----

  lemma {:induction false} AllOnPath(patches: seq<PatchFragment>, path: string)
    requires forall k :: 0 <= k < |patches| ==> patches[k].path == path
    ensures OnPath(patches, path) == patches
    ensures forall other :: other != path ==> OnPath(patches, other) == []
  {
    if patches != [] {
      AllOnPath(patches[1..], path);
    }
  }

  lemma {:induction false} BindGroupsOnPath(path: string, was: seq<Line>, now: seq<Line>, aligned: Pairs,
                                            groups: seq<Group>)
    requires Lcs.IsMatching(was, now, aligned) && BindGroups(path, was, now, aligned, groups).Ok?
    ensures forall p :: p in BindGroups(path, was, now, aligned, groups).value ==> p.path == path
  {
    if groups != [] {
      BindGroupsOnPath(path, was, now, aligned, groups[1..]);
    }
  }

  lemma ChangeOnPath(atoms: Atoms, change: FileChange, path: string)
    requires BindChange(atoms, change).Ok?
    ensures OnPath(BindChange(atoms, change).value, path)
         == if change.path == path then BindChange(atoms, change).value else []
  {
    var was, now := Text.SplitLines(change.oldContent), Text.SplitLines(change.newContent);
    Lcs.AlignmentIsLongest(was, now);
    BindGroupsOnPath(change.path, was, now, Lcs.Alignment(was, now, 0, 0), GroupsFor(atoms, change.path));
    AllOnPath(BindChange(atoms, change).value, change.path);
  }

  ghost predicate DistinctPaths(changes: seq<FileChange>) {
    forall i, j :: 0 <= i < j < |changes| ==> changes[i].path != changes[j].path
  }

  /** Of the fragments bound to all changed files, those on one path are the ones
      bound to its change. */
  lemma {:induction false} BoundOnPath(atoms: Atoms, changes: seq<FileChange>, path: string)
    requires BindChanges(atoms, changes).Ok? && DistinctPaths(changes)
    ensures forall c :: c in changes && c.path == path ==>
        BindChange(atoms, c).Ok? && OnPath(BindChanges(atoms, changes).value, path) == BindChange(atoms, c).value
    ensures (forall c :: c in changes ==> c.path != path) ==> OnPath(BindChanges(atoms, changes).value, path) == []
  {
    if changes != [] {
      hide BindChange;
      var first, rest := changes[0], changes[1..];
      assert changes == [first] + rest;
      assert forall c :: c in rest ==> c.path != first.path;
      BoundOnPath(atoms, rest, path);
      ChangeOnPath(atoms, first, path);
      OnPathJoin(BindChange(atoms, first).value, BindChanges(atoms, rest).value, path);
    }
  }

  // ----- the chain of a commit -----

  /** The atoms of the pull requests whose commits lie under step k, root first. */
  ghost function ChainAtoms(steps: seq<ProjectionStep>, atomsOf: map<nat, Atoms>, k: nat): seq<Atoms>
    requires k < |steps| && forall i :: 0 <= i < |steps| ==> steps[i].pullRequest in atomsOf
    decreases k
  {
    var p := ParentIndex(steps, steps[k].parentBranch, k);
    (if p.None? then [] else ChainAtoms(steps, atomsOf, p.value)) + [atomsOf[steps[k].pullRequest]]
  }

  lemma {:induction false} StackPatchesSnoc(stack: seq<Atoms>, atoms: Atoms, change: FileChange)
    requires StackPatches(stack, change).Ok? && BindChange(atoms, change).Ok?
    ensures StackPatches(stack + [atoms], change)
         == Ok(StackPatches(stack, change).value + BindChange(atoms, change).value)
  {
    hide BindChange;
    if stack == [] {
      assert [atoms][1..] == [] && stack + [atoms] == [atoms];
      assert StackPatches([], change) == Ok([]);
      assert BindChange(atoms, change).value + [] == [] + BindChange(atoms, change).value
          == BindChange(atoms, change).value;
    } else {
      StackPatchesSnoc(stack[1..], atoms, change);
      assert (stack + [atoms])[1..] == stack[1..] + [atoms] && (stack + [atoms])[0] == stack[0];
      var first, rest, last := BindChange(stack[0], change).value, StackPatches(stack[1..], change).value,
          BindChange(atoms, change).value;
      assert first + (rest + last) == first + rest + last;
    }
  }

  /** Every pull request carries the fragments that its atoms bind to the changes. */
  ghost predicate BoundTo(byId: Index, atomsOf: map<nat, Atoms>, changes: seq<FileChange>) {
    byId.Keys <= atomsOf.Keys && forall x :: x in byId ==> BindSpec(atomsOf[x], changes) == Ok(byId[x].patches)
  }

  lemma {:induction false} ChainPatchesAreBound(steps: seq<ProjectionStep>, byId: Index, atomsOf: map<nat, Atoms>,
                                                changes: seq<FileChange>, change: FileChange, k: nat)
    requires k < |steps| && forall i :: 0 <= i < |steps| ==> steps[i].pullRequest in byId
    requires BoundTo(byId, atomsOf, changes) && DistinctPaths(changes) && change in changes
    ensures StackPatches(ChainAtoms(steps, atomsOf, k), change) == Ok(OnPath(ChainPatches(steps, byId, k), change.path))
    decreases k
  {
    hide BindChange, BindSpec;
    var p := ParentIndex(steps, steps[k].parentBranch, k);
    var x := steps[k].pullRequest;
    var below, under := if p.None? then [] else ChainPatches(steps, byId, p.value),
                        if p.None? then [] else ChainAtoms(steps, atomsOf, p.value);
    if p.Some? {
      ChainPatchesAreBound(steps, byId, atomsOf, changes, change, p.value);
    }
    assert StackPatches(under, change) == Ok(OnPath(below, change.path));
    OwnPatches(atomsOf[x], changes, change, byId[x].patches);
    StackPatchesSnoc(under, atomsOf[x], change);
    OnPathJoin(below, byId[x].patches, change.path);
  }

  lemma OwnPatches(atoms: Atoms, changes: seq<FileChange>, change: FileChange, patches: seq<PatchFragment>)
    requires BindSpec(atoms, changes) == Ok(patches) && DistinctPaths(changes) && change in changes
    ensures BindChange(atoms, change) == Ok(OnPath(patches, change.path))
  {
    BoundOnPath(atoms, changes, change.path);
  }

  /** When the pull requests under a commit together cover the change of a file without
      taking an old line twice, every fragment fits in its own place at its turn, and
      restacking does not fail, the commit holds the new text of the file. */
  lemma RestackedFileIsNew(steps: seq<ProjectionStep>, byId: Index, base: Files, atomsOf: map<nat, Atoms>,
                           changes: seq<FileChange>, change: FileChange, k: nat)
    requires k < |steps| && forall i :: 0 <= i < |steps| ==> steps[i].pullRequest in byId
    requires BoundTo(byId, atomsOf, changes) && DistinctPaths(changes) && change in changes
    requires Get(base, change.path) == change.oldContent
    requires StackCovers(ChainAtoms(steps, atomsOf, k), change)
    requires NoSharedLine(change, StackGroups(ChainAtoms(steps, atomsOf, k), change.path))
    requires StackInPlace(ChainAtoms(steps, atomsOf, k), change)
    ensures FilesAfter(steps, byId, base, k).Ok? ==>
        Get(FilesAfter(steps, byId, base, k).value, change.path) == change.newContent
  {
    if FilesAfter(steps, byId, base, k).Ok? {
      FileIsFold(steps, byId, base, atomsOf, changes, change, k);
      StackThenApply(ChainAtoms(steps, atomsOf, k), change);
    }
  }

  lemma FileIsFold(steps: seq<ProjectionStep>, byId: Index, base: Files, atomsOf: map<nat, Atoms>,
                   changes: seq<FileChange>, change: FileChange, k: nat)
    requires k < |steps| && forall i :: 0 <= i < |steps| ==> steps[i].pullRequest in byId
    requires BoundTo(byId, atomsOf, changes) && DistinctPaths(changes) && change in changes
    requires Get(base, change.path) == change.oldContent && FilesAfter(steps, byId, base, k).Ok?
    ensures StackPatches(ChainAtoms(steps, atomsOf, k), change).Ok?
    ensures
      ApplyAll(change.oldContent, StackPatches(ChainAtoms(steps, atomsOf, k), change).value)
      == Ok(Get(FilesAfter(steps, byId, base, k).value, change.path))
  {
    CommitHoldsChain(steps, byId, base, k, change.path);
    ChainPatchesAreBound(steps, byId, atomsOf, changes, change, k);
  }

  /** With an aligned line between any two groups, and regions that cannot overlap
      themselves, the last condition always holds. */
  lemma SeparatedFileIsNew(steps: seq<ProjectionStep>, byId: Index, base: Files, atomsOf: map<nat, Atoms>,
                           changes: seq<FileChange>, change: FileChange, k: nat)
    requires k < |steps| && forall i :: 0 <= i < |steps| ==> steps[i].pullRequest in byId
    requires BoundTo(byId, atomsOf, changes) && DistinctPaths(changes) && change in changes
    requires Get(base, change.path) == change.oldContent
    requires StackSeparated(ChainAtoms(steps, atomsOf, k), change)
    requires forall p :: p in StackPatches(ChainAtoms(steps, atomsOf, k), change).value ==> Unbordered(p.before)
    ensures FilesAfter(steps, byId, base, k).Ok? ==>
        Get(FilesAfter(steps, byId, base, k).value, change.path) == change.newContent
  {
    if FilesAfter(steps, byId, base, k).Ok? {
      FileIsFold(steps, byId, base, atomsOf, changes, change, k);
      UnborderedStackThenApply(ChainAtoms(steps, atomsOf, k), change);
    }
  }

  /** When two groups take the same old line and restacking does not fail, the commit
      holds a shorter text than the new one: what is taken twice is missing. */
  lemma RestackedFileIsShorter(steps: seq<ProjectionStep>, byId: Index, base: Files, atomsOf: map<nat, Atoms>,
                               changes: seq<FileChange>, change: FileChange, k: nat)
    requires k < |steps| && forall i :: 0 <= i < |steps| ==> steps[i].pullRequest in byId
    requires BoundTo(byId, atomsOf, changes) && DistinctPaths(changes) && change in changes
    requires Get(base, change.path) == change.oldContent
    requires StackCovers(ChainAtoms(steps, atomsOf, k), change)
    ensures FilesAfter(steps, byId, base, k).Ok? ==>
        |Get(FilesAfter(steps, byId, base, k).value, change.path)|
        + StackShared(ChainAtoms(steps, atomsOf, k), change) == |change.newContent|
    ensures StackShared(ChainAtoms(steps, atomsOf, k), change) > 0
       <==> !NoSharedLine(change, StackGroups(ChainAtoms(steps, atomsOf, k), change.path))
  {
    StackLength(ChainAtoms(steps, atomsOf, k), change);
    if FilesAfter(steps, byId, base, k).Ok? {
      FileIsFold(steps, byId, base, atomsOf, changes, change, k);
    }
  }
}
