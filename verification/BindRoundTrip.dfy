/** What each fragment that a pull request binds does to the old text it was bound
    from, and how the fragments of a covered file turn the old text into the new one.
 */
module BindRoundTrip {
  import Lcs
  import opened Wrappers
  import opened Model
  import opened Text
  import opened PatchSearch
  import opened PatchBinding
  import opened PatchRoundTrip
  import opened Weave

  lemma {:induction false} ApartPairwise(groups: seq<Group>, k: nat, l: nat)
    requires Apart(groups) && k < l < |groups|
    requires forall i :: 0 <= i < |groups| ==> groups[i].start < groups[i].end
    ensures groups[k].end < groups[l].start
    decreases l - k
  {
    if k + 1 < l {
      ApartPairwise(groups, k, l - 1);
      assert groups[l - 1].end < groups[l].start;
    }
  }

  /** Binding succeeds exactly on groups that lie in the new file, and then yields the
      fragments of the groups. */
  lemma {:induction false} BindGroupsGivesBound(path: string, was: seq<Line>, now: seq<Line>, aligned: Pairs,
                                                groups: seq<Group>)
    requires Lcs.IsMatching(was, now, aligned)
    ensures BindGroups(path, was, now, aligned, groups).Ok? <==> InFile(groups, |now|)
    ensures InFile(groups, |now|) ==>
        BindGroups(path, was, now, aligned, groups) == Ok(BoundAll(path, was, now, aligned, groups))
    decreases |groups|
  {
    if groups != [] {
      BindGroupsGivesBound(path, was, now, aligned, groups[1..]);
      assert InFile(groups, |now|) <==> groups[0].start < groups[0].end <= |now| && InFile(groups[1..], |now|) by {
        assert groups == [groups[0]] + groups[1..];
      }
    }
  }

  /** The old and new lines of a file, their alignment, and the groups of a pull request. */
  ghost function OldLines(change: FileChange): seq<Line> {
    SplitLines(change.oldContent)
  }

  ghost function NewLines(change: FileChange): seq<Line> {
    SplitLines(change.newContent)
  }

  ghost function AlignedLines(change: FileChange): (aligned: Pairs)
    ensures Lcs.IsMatching(OldLines(change), NewLines(change), aligned)
  {
    Lcs.AlignmentIsLongest(OldLines(change), NewLines(change));
    Lcs.Alignment(OldLines(change), NewLines(change), 0, 0)
  }

  lemma BoundByChange(atoms: seq<ChangeAtom>, change: FileChange)
    requires BindChange(atoms, change).Ok?
    ensures
      var groups := GroupsFor(atoms, change.path);
      && InFile(groups, |NewLines(change)|) && Apart(groups)
      && BindChange(atoms, change).value
         == BoundAll(change.path, OldLines(change), NewLines(change), AlignedLines(change), groups)
  {
    BindGroupsGivesBound(change.path, OldLines(change), NewLines(change), AlignedLines(change),
        GroupsFor(atoms, change.path));
    GroupsHoldAtomLines(atoms, change.path);
  }

  // ----- one fragment on the old text -----

  ghost function OldFront(change: FileChange, group: Group): string {
    var was, aligned := OldLines(change), AlignedLines(change);
    if OldStart(aligned, group.start) <= |was| then Concat(was[..OldStart(aligned, group.start)]) else ""
  }

  ghost function OldBack(change: FileChange, group: Group): string {
    var was, aligned := OldLines(change), AlignedLines(change);
    if OldEnd(aligned, group.end, |was|) <= |was| then Concat(was[OldEnd(aligned, group.end, |was|)..]) else ""
  }

  /** Every fragment, whatever else the file's changes hold, matches the old text where
      it was bound; applied to it, the fragment conflicts or changes exactly the old
      range of its group, unless the search steps over that place. */
  lemma BoundAppliesToOld(atoms: seq<ChangeAtom>, change: FileChange, k: nat)
    requires BindChange(atoms, change).Ok? && k < |GroupsFor(atoms, change.path)|
    ensures |BindChange(atoms, change).value| == |GroupsFor(atoms, change.path)|
    ensures
      var group, patch := GroupsFor(atoms, change.path)[k], BindChange(atoms, change).value[k];
      var front, back := OldFront(change, group), OldBack(change, group);
      var replaced := Patched(change.oldContent, patch);
      && change.oldContent == front + patch.before + back
      && group.start < group.end <= |NewLines(change)|
      && patch.after == Concat(NewLines(change)[group.start..group.end])
      && Matches(change.oldContent, patch, |front|)
      && (replaced == Err(Conflict) || replaced == Ok(front + patch.after + back)
          || exists q :: q != |front| && AppliedAt(change.oldContent, patch, q))
      && ((exists q :: q != |front| && AppliedAt(change.oldContent, patch, q))
          <==> Overlooked(change.oldContent, patch, |front|) && exists q :: OnlyConsidered(change.oldContent, patch, q))
      && (Unbordered(patch.before) ==> replaced == Err(Conflict) || replaced == Ok(front + patch.after + back))
  {
    var was, now, aligned := OldLines(change), NewLines(change), AlignedLines(change);
    var groups := GroupsFor(atoms, change.path);
    var group := groups[k];
    BoundByChange(atoms, change);
    BoundAllAt(change.path, was, now, aligned, groups, k);
    BoundFitsOldText(change.path, was, now, aligned, group);
    JoinSplit(change.oldContent);
    var patch, front := Bound(change.path, was, now, aligned, group), OldFront(change, group);
    hide Bound, Matches, Splice, OldStart, OldEnd, BoundAll, BindChange, GroupsFor, Concat, SplitLines, Patched;
    MisplacedIff(change.oldContent, patch, |front|);
    FragmentAlone(change.oldContent, patch, |front|);
  }

  lemma FragmentAlone(content: string, patch: PatchFragment, p: nat)
    requires Matches(content, patch, p) && (patch.beforeContext == "" ==> p == 0)
    ensures Patched(content, patch) == Err(Conflict) || Patched(content, patch) == Ok(Splice(content, patch, p))
         || exists q :: q != p && AppliedAt(content, patch, q)
    ensures Unbordered(patch.before) ==>
        Patched(content, patch) == Err(Conflict) || Patched(content, patch) == Ok(Splice(content, patch, p))
  {
    AppliesWhereBound(content, patch, p);
    if Unbordered(patch.before) && patch.before != "" {
      UnborderedIsConsidered(content, patch, p);
    }
    var c := Candidates(content, patch);
    if Patched(content, patch).Ok? {
      AppliesAtIff(content, patch, c[0]);
    }
  }

  // ----- all fragments of a covered file -----

  /** Every line outside the atoms is aligned, and every old line that is not lies
      in the old range of a group. */
  ghost predicate FullyCovered(atoms: seq<ChangeAtom>, change: FileChange) {
    Covered(OldLines(change), NewLines(change), AlignedLines(change), GroupsFor(atoms, change.path), 0, 0)
  }

  /** The texts of the file between the old ranges of some groups. */
  ghost function FileGaps(change: FileChange, groups: seq<Group>): (gaps: seq<string>)
    requires Ordered(AlignedLines(change), groups, |OldLines(change)|, 0)
    ensures |gaps| == |groups| + 1
  {
    GapsOf(OldLines(change), AlignedLines(change), groups, 0)
  }

  ghost function FragmentsOf(change: FileChange, groups: seq<Group>): (patches: seq<PatchFragment>)
    requires InFile(groups, |NewLines(change)|)
    ensures |patches| == |groups|
  {
    BoundAll(change.path, OldLines(change), NewLines(change), AlignedLines(change), groups)
  }

  lemma CoveredIsReady(change: FileChange, groups: seq<Group>)
    requires Rows(groups, |NewLines(change)|)
    requires Covered(OldLines(change), NewLines(change), AlignedLines(change), groups, 0, 0)
    ensures Ready(OldLines(change), NewLines(change), AlignedLines(change), groups, 0, 0, 0)
  {
  }

  /** Between the fragments of groups that cover a file and take no old line twice
      stands the text that both revisions share: with every `before` it is the old
      file, with every `after` the new one. */
  lemma FragmentsWeaveFile(change: FileChange, groups: seq<Group>)
    requires Rows(groups, |NewLines(change)|)
    requires Covered(OldLines(change), NewLines(change), AlignedLines(change), groups, 0, 0)
    requires Ordered(AlignedLines(change), groups, |OldLines(change)|, 0)
    ensures
      var gaps, patches := FileGaps(change, groups), FragmentsOf(change, groups);
      && Woven(gaps, Befores(patches)) == change.oldContent
      && Woven(gaps, Afters(patches)) == change.newContent
  {
    var was, now, aligned := OldLines(change), NewLines(change), AlignedLines(change);
    CoveredIsReady(change, groups);
    WeavesOldAndNew(change.path, was, now, aligned, groups, 0, 0, 0);
    JoinSplit(change.oldContent);
    JoinSplit(change.newContent);
    assert was[0..] == was && now[0..] == now;
  }

  /** With an old line between neighbouring groups the contexts of the fragments stand
      in the gaps. */
  lemma FragmentsHosted(change: FileChange, groups: seq<Group>)
    requires InFile(groups, |NewLines(change)|) && Spaced(AlignedLines(change), groups, |OldLines(change)|)
    ensures Ordered(AlignedLines(change), groups, |OldLines(change)|, 0)
    ensures Hosted(FileGaps(change, groups), FragmentsOf(change, groups))
  {
    var was, now, aligned := OldLines(change), NewLines(change), AlignedLines(change);
    JoinSplit(change.oldContent);
    OrderedIff(was, now, aligned, groups, 0);
    GapsHostBound(change.path, was, now, aligned, groups);
  }

  lemma GroupsAreGrouped(atoms: seq<ChangeAtom>, change: FileChange)
    requires BindChange(atoms, change).Ok?
    ensures Grouped(GroupsFor(atoms, change.path), |NewLines(change)|)
  {
    var groups := GroupsFor(atoms, change.path);
    BoundByChange(atoms, change);
    forall k, l | 0 <= k < l < |groups|
      ensures groups[k].end < groups[l].start
    {
      ApartPairwise(groups, k, l);
    }
  }

  /** Bound fragments of a covered file have ordered, disjoint old ranges, and putting
      each `after` in the place of its `before` turns the old file into the new one. */
  lemma BindThenReplace(atoms: seq<ChangeAtom>, change: FileChange)
    requires BindChange(atoms, change).Ok? && FullyCovered(atoms, change)
    ensures
      var groups, patches := GroupsFor(atoms, change.path), BindChange(atoms, change).value;
      && Grouped(groups, |NewLines(change)|) && |patches| == |groups|
      && Ordered(AlignedLines(change), groups, |OldLines(change)|, 0)
      && Concat(Rebuilt(OldLines(change), NewLines(change), AlignedLines(change), groups, 0)) == change.newContent
      && Woven(FileGaps(change, groups), Befores(patches)) == change.oldContent
      && Woven(FileGaps(change, groups), Afters(patches)) == change.newContent
  {
    var was, now, aligned := OldLines(change), NewLines(change), AlignedLines(change);
    var groups := GroupsFor(atoms, change.path);
    GroupsAreGrouped(atoms, change);
    BoundByChange(atoms, change);
    GroupedIsSpaced(was, now, aligned, groups);
    FragmentsHosted(change, groups);
    CoveredIsReady(change, groups);
    RebuildsNew(was, now, aligned, groups, 0, 0, 0);
    FragmentsWeaveFile(change, groups);
    JoinSplit(change.newContent);
    assert now[0..] == now;
  }
}
