/** What a stack loses when its groups take the same old lines: a law of lengths that
    every fold of fragments keeps, whether or not the fragments end in their own places.
 */
module SharedLines {
  import Lcs
  import opened Wrappers
  import opened Model
  import opened Text
  import opened PatchSearch
  import opened PatchBinding
  import opened PatchRoundTrip
  import opened BindRoundTrip
  import opened StackRoundTrip

  function SizeBefore(patches: seq<PatchFragment>): nat {
    if patches == [] then 0 else |patches[0].before| + SizeBefore(patches[1..])
  }

  function SizeAfter(patches: seq<PatchFragment>): nat {
    if patches == [] then 0 else |patches[0].after| + SizeAfter(patches[1..])
  }

  lemma SizesCons(patch: PatchFragment, patches: seq<PatchFragment>)
    ensures SizeBefore([patch] + patches) == |patch.before| + SizeBefore(patches)
    ensures SizeAfter([patch] + patches) == |patch.after| + SizeAfter(patches)
  {
    assert ([patch] + patches)[1..] == patches;
  }

  /** Wherever the fragments are applied, a fold that succeeds gains what they put there
      and loses what they replace. */
  lemma {:induction false} FoldKeepsLength(content: string, patches: seq<PatchFragment>)
    ensures
      var result := ApplyAll(content, patches);
      result.Ok? ==> |result.value| + SizeBefore(patches) == |content| + SizeAfter(patches)
    decreases |patches|
  {
    if patches != [] {
      var next := Patched(content, patches[0]);
      if next.Ok? {
        CandidatesMatch(content, patches[0]);
        hide Candidates;
        assert |next.value| + |patches[0].before| == |content| + |patches[0].after|;
        FoldKeepsLength(next.value, patches[1..]);
      }
    }
  }

  // ----- the order of the groups does not matter -----

  lemma {:induction false} InsertKeepsSizes(change: FileChange, g: Group, sorted: seq<Group>)
    requires InFile([g] + sorted, |NewLines(change)|)
    ensures InFile(sorted, |NewLines(change)|) && InFile(Insert(g, sorted), |NewLines(change)|)
    ensures SizeBefore(FragmentsOf(change, Insert(g, sorted))) == SizeBefore(FragmentsOf(change, [g] + sorted))
    ensures SizeAfter(FragmentsOf(change, Insert(g, sorted))) == SizeAfter(FragmentsOf(change, [g] + sorted))
    decreases |sorted|
  {
    assert ([g] + sorted)[1..] == sorted;
    InFileParts(g, sorted, |NewLines(change)|);
    if sorted != [] && !KeyAtMost(g, sorted[0]) {
      var first, rest := sorted[0], sorted[1..];
      assert sorted == [first] + rest;
      InFileParts(first, rest, |NewLines(change)|);
      InFileParts(g, rest, |NewLines(change)|);
      InsertKeepsSizes(change, g, rest);
      InFileParts(first, Insert(g, rest), |NewLines(change)|);
      SizesOfFirst(change, g, rest);
      SizesOfFirst(change, first, Insert(g, rest));
      SizesOfFirst(change, first, rest);
      SizesOfFirst(change, g, sorted);
      hide FragmentsOf, InFile, SizeBefore, SizeAfter;
    }
  }

  lemma InFileParts(g: Group, groups: seq<Group>, newLines: nat)
    ensures InFile([g] + groups, newLines) <==> g.start < g.end <= newLines && InFile(groups, newLines)
  {
    var all := [g] + groups;
    assert all[0] == g && forall k :: 0 <= k < |groups| ==> all[k + 1] == groups[k];
    assert forall k :: 0 < k < |all| ==> all[k] == groups[k - 1];
  }

  lemma SizesOfFirst(change: FileChange, g: Group, groups: seq<Group>)
    requires InFile([g] + groups, |NewLines(change)|)
    ensures g.start < g.end <= |NewLines(change)| && InFile(groups, |NewLines(change)|)
    ensures
      var patch := Bound(change.path, OldLines(change), NewLines(change), AlignedLines(change), g);
      && SizeBefore(FragmentsOf(change, [g] + groups)) == |patch.before| + SizeBefore(FragmentsOf(change, groups))
      && SizeAfter(FragmentsOf(change, [g] + groups)) == |patch.after| + SizeAfter(FragmentsOf(change, groups))
  {
    InFileParts(g, groups, |NewLines(change)|);
    BoundAllFirst(change.path, OldLines(change), NewLines(change), AlignedLines(change), [g] + groups);
    assert ([g] + groups)[1..] == groups;
    hide InFile, BoundAll, Bound, SizeBefore, SizeAfter;
    SizesCons(Bound(change.path, OldLines(change), NewLines(change), AlignedLines(change), g),
        FragmentsOf(change, groups));
  }

  lemma {:induction false} SortedKeepsSizes(change: FileChange, groups: seq<Group>)
    requires InFile(groups, |NewLines(change)|)
    ensures InFile(Sorted(groups), |NewLines(change)|)
    ensures SizeBefore(FragmentsOf(change, Sorted(groups))) == SizeBefore(FragmentsOf(change, groups))
    ensures SizeAfter(FragmentsOf(change, Sorted(groups))) == SizeAfter(FragmentsOf(change, groups))
  {
    if groups != [] {
      var g, rest := groups[0], groups[1..];
      assert groups == [g] + rest;
      InFileParts(g, rest, |NewLines(change)|);
      SortedKeepsSizes(change, rest);
      InFileParts(g, Sorted(rest), |NewLines(change)|);
      InsertKeepsSizes(change, g, Sorted(rest));
      SizesOfFirst(change, g, rest);
      SizesOfFirst(change, g, Sorted(rest));
    }
  }

  // ----- lines that are taken twice -----

  /** The length of the old lines, from old line o on, that a group takes although they
      lie in the old range of the group in front of it. */
  ghost function SharedSize(was: seq<Line>, aligned: Pairs, groups: seq<Group>, o: nat): nat {
    if groups == [] then 0
    else
      var oldStart := OldStart(aligned, groups[0].start);
      (if oldStart < o <= |was| then |Concat(was[oldStart..o])| else 0)
      + SharedSize(was, aligned, groups[1..], OldEnd(aligned, groups[0].end, |was|))
  }

  lemma LinesHaveLength(lines: seq<Line>)
    requires lines != [] && NoEmptyLine(lines)
    ensures |Concat(lines)| > 0
  {
    assert lines[0] != "";
  }

  lemma {:induction false} NothingSharedIff(was: seq<Line>, now: seq<Line>, aligned: Pairs, groups: seq<Group>, o: nat)
    requires Lcs.IsMatching(was, now, aligned) && InFile(groups, |now|) && NoEmptyLine(was) && o <= |was|
    ensures SharedSize(was, aligned, groups, o) == 0 <==> Ordered(aligned, groups, |was|, o)
    decreases |groups|
  {
    if groups != [] {
      var oldStart, oldEnd := OldStart(aligned, groups[0].start), OldEnd(aligned, groups[0].end, |was|);
      OldRange(was, now, aligned, groups[0].start, groups[0].end);
      NothingSharedIff(was, now, aligned, groups[1..], oldEnd);
      hide OldStart, OldEnd, Concat;
      if oldStart < o {
        LinesHaveLength(was[oldStart..o]);
      }
    }
  }

  /** The new text is the old one with the fragments' replacements for their regions,
      except that what two groups take counts once. */
  lemma {:induction false} Balance(path: string, was: seq<Line>, now: seq<Line>, aligned: Pairs, groups: seq<Group>,
                                   k: nat, o: nat, n: nat)
    requires Ready(was, now, aligned, groups, k, o, n)
    ensures
      var patches := BoundAll(path, was, now, aligned, groups);
      |Concat(now[n..])| + SizeBefore(patches)
      == |Concat(was[o..])| + SizeAfter(patches) + SharedSize(was, aligned, groups, o)
    decreases |groups|
  {
    if groups == [] {
      NoGroups(was, now, aligned, k, o, n);
    } else {
      var e, oldEnd := groups[0].end, OldEnd(aligned, groups[0].end, |was|);
      GapBefore(was, now, aligned, groups, k, o, n);
      AfterGroup(was, now, aligned, groups, k, o, n);
      Balance(path, was, now, aligned, groups[1..], Below(aligned, e), oldEnd, e);
      BalanceStep(path, was, now, aligned, groups, o, n);
    }
  }

  lemma BalanceStep(path: string, was: seq<Line>, now: seq<Line>, aligned: Pairs, groups: seq<Group>, o: nat, n: nat)
    requires Lcs.IsMatching(was, now, aligned) && InFile(groups, |now|) && groups != [] && InFile(groups[1..], |now|)
    requires n <= groups[0].start
    requires OldStart(aligned, groups[0].start) <= OldEnd(aligned, groups[0].end, |was|) <= |was|
    requires o <= OldEnd(aligned, groups[0].end, |was|)
    requires
      var s, oldStart := groups[0].start, OldStart(aligned, groups[0].start);
      if o <= oldStart then was[o..oldStart] == now[n..s] else n == s
    requires
      var e, oldEnd := groups[0].end, OldEnd(aligned, groups[0].end, |was|);
      var patches := BoundAll(path, was, now, aligned, groups[1..]);
      |Concat(now[e..])| + SizeBefore(patches)
      == |Concat(was[oldEnd..])| + SizeAfter(patches) + SharedSize(was, aligned, groups[1..], oldEnd)
    ensures
      var patches := BoundAll(path, was, now, aligned, groups);
      |Concat(now[n..])| + SizeBefore(patches)
      == |Concat(was[o..])| + SizeAfter(patches) + SharedSize(was, aligned, groups, o)
  {
    var s, e := groups[0].start, groups[0].end;
    var oldStart, oldEnd := OldStart(aligned, s), OldEnd(aligned, e, |was|);
    BoundWith(path, was, now, aligned, groups[0]);
    BoundAllFirst(path, was, now, aligned, groups);
    hide OldStart, OldEnd, Bound, BoundAll, InFile, Lcs.IsMatching, Concat, SizeBefore, SizeAfter;
    SizesCons(Bound(path, was, now, aligned, groups[0]), BoundAll(path, was, now, aligned, groups[1..]));
    CutTwice(now, n, s, e);
    if o <= oldStart {
      CutTwice(was, o, oldStart, oldEnd);
    } else {
      CutTwice(was, oldStart, o, oldEnd);
      CutTwice(was, oldStart, oldStart, oldEnd);
      CutTwice(was, o, o, oldEnd);
      NoLines(was, o, oldStart, now, n);
    }
  }

  lemma NoLines(was: seq<Line>, o: nat, oldStart: nat, now: seq<Line>, n: nat)
    requires o <= |was| && oldStart <= |was| && n <= |now|
    ensures Concat(was[o..o]) == "" && Concat(was[oldStart..oldStart]) == "" && Concat(now[n..n]) == ""
  {
  }

  // ----- what a stack loses -----

  /** The length of the old lines that two groups of the stack take. */
  ghost function StackShared(stack: seq<Atoms>, change: FileChange): nat {
    SharedSize(OldLines(change), AlignedLines(change), Sorted(StackGroups(stack, change.path)), 0)
  }

  /** A fold that succeeds, in whatever order and places, is shorter than the new text
      by exactly the old lines that two groups take. */
  lemma StackLength(stack: seq<Atoms>, change: FileChange)
    requires StackCovers(stack, change)
    ensures
      var result := ApplyAll(change.oldContent, StackPatches(stack, change).value);
      result.Ok? ==> |result.value| + StackShared(stack, change) == |change.newContent|
    ensures StackShared(stack, change) == 0 <==> NoSharedLine(change, StackGroups(stack, change.path))
  {
    var was, now, aligned := OldLines(change), NewLines(change), AlignedLines(change);
    var groups := StackGroups(stack, change.path);
    var sorted := Sorted(groups);
    StackIsWoven(stack, change);
    CoveredIsReady(change, sorted);
    JoinSplit(change.oldContent);
    JoinSplit(change.newContent);
    Balance(change.path, was, now, aligned, sorted, 0, 0, 0);
    assert was[0..] == was && now[0..] == now;
    SortedKeepsSizes(change, groups);
    FoldKeepsLength(change.oldContent, StackPatches(stack, change).value);
    StackSharesNothingIff(stack, change);
    hide StackCovers, Ready, Covered, NoSharedLine, Concat, SharedSize, ApplyAll, SizeBefore, SizeAfter, Positions,
        Sorted;
  }

  lemma StackSharesNothingIff(stack: seq<Atoms>, change: FileChange)
    requires StackCovers(stack, change)
    ensures StackShared(stack, change) == 0 <==> NoSharedLine(change, StackGroups(stack, change.path))
  {
    var sorted := Sorted(StackGroups(stack, change.path));
    StackIsWoven(stack, change);
    JoinSplit(change.oldContent);
    NothingSharedIff(OldLines(change), NewLines(change), AlignedLines(change), sorted, 0);
    OrderedIff(OldLines(change), NewLines(change), AlignedLines(change), sorted, 0);
    NoSharedLineIff(change, sorted);
    hide StackCovers, Covered, NoneTwice, SharedSize, SharesLine, Ordered, Positions;
  }

  /** So a stack in which two groups take the same old line never folds to the new text. */
  lemma SharedLineIsLost(stack: seq<Atoms>, change: FileChange)
    requires StackCovers(stack, change) && !NoSharedLine(change, StackGroups(stack, change.path))
    ensures ApplyAll(change.oldContent, StackPatches(stack, change).value) != Ok(change.newContent)
  {
    StackLength(stack, change);
  }
}
