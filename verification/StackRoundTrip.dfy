/** The round trip over a stack: several pull requests that share the changes of one
    file, with their fragments searched for in the order of the stack; and the special
    case of a single pull request.
 */
module StackRoundTrip {
  import opened Wrappers
  import opened Model
  import opened PatchSearch
  import opened PatchBinding
  import opened PatchRoundTrip
  import opened BindRoundTrip
  import opened Weave

  type Atoms = seq<ChangeAtom>

  /** The groups of all pull requests on a path, in the order of the stack. */
  function StackGroups(stack: seq<Atoms>, path: string): seq<Group> {
    if stack == [] then [] else GroupsFor(stack[0], path) + StackGroups(stack[1..], path)
  }

  /** The fragments that all pull requests bind to one file, in the order of the stack. */
  function StackPatches(stack: seq<Atoms>, change: FileChange): Result<seq<PatchFragment>> {
    if stack == [] then Ok([])
    else
      var first := BindChange(stack[0], change);
      if first.Err? then first
      else
        var rest := StackPatches(stack[1..], change);
        if rest.Err? then rest else Ok(first.value + rest.value)
  }

  /** Two groups of new lines without a common line. */
  ghost predicate Disjoint(a: Group, b: Group) {
    a.end <= b.start || b.end <= a.start
  }

  ghost predicate PairwiseDisjoint(groups: seq<Group>) {
    forall k, l :: 0 <= k < l < |groups| ==> Disjoint(groups[k], groups[l])
  }

  // ----- the groups in the order of the file -----

  lemma {:induction false} InsertRows(g: Group, sorted: seq<Group>, newLines: nat)
    requires Rows(sorted, newLines) && g.start < g.end <= newLines
    requires forall x :: x in sorted ==> Disjoint(g, x)
    ensures Rows(Insert(g, sorted), newLines)
    ensures forall x :: x in Insert(g, sorted) <==> x == g || x in sorted
  {
    if sorted != [] {
      var rest := sorted[1..];
      assert sorted == [sorted[0]] + rest;
      if KeyAtMost(g, sorted[0]) {
        assert sorted[0] in sorted;
        RowsCons(g, sorted, newLines);
      } else {
        InsertRows(g, rest, newLines);
        assert sorted[0] in sorted;
        forall x | x in Insert(g, rest)
          ensures sorted[0].end <= x.start
        {
        }
        RowsCons(sorted[0], Insert(g, rest), newLines);
      }
    }
  }

  lemma RowsCons(g: Group, sorted: seq<Group>, newLines: nat)
    requires Rows(sorted, newLines) && g.start < g.end <= newLines
    requires (sorted != [] && g.end <= sorted[0].start) || (forall x :: x in sorted ==> g.end <= x.start)
    ensures Rows([g] + sorted, newLines)
  {
  }

  lemma {:induction false} SortedRows(groups: seq<Group>, newLines: nat)
    requires InFile(groups, newLines) && PairwiseDisjoint(groups)
    ensures Rows(Sorted(groups), newLines)
    ensures forall x :: x in Sorted(groups) <==> x in groups
  {
    if groups != [] {
      var rest := groups[1..];
      assert groups == [groups[0]] + rest;
      SortedRows(rest, newLines);
      InsertRows(groups[0], Sorted(rest), newLines);
    }
  }

  /** Coverage does not depend on the order of the groups. */
  lemma SameMembersCover(was: seq<Line>, now: seq<Line>, aligned: Pairs, groups: seq<Group>, others: seq<Group>)
    requires Covered(was, now, aligned, groups, 0, 0) && forall g :: g in groups ==> g in others
    ensures Covered(was, now, aligned, others, 0, 0)
  {
    forall m: nat | InRange(groups, m)
      ensures InRange(others, m)
    {
      var k :| 0 <= k < |groups| && groups[k].start <= m < groups[k].end;
      assert groups[k] in others;
    }
    forall q: nat | InOldRange(aligned, groups, |was|, q)
      ensures InOldRange(aligned, others, |was|, q)
    {
      var k :| 0 <= k < |groups| && OldStart(aligned, groups[k].start) <= q < OldEnd(aligned, groups[k].end, |was|);
      assert groups[k] in others;
    }
  }

  /** Where the members of one list stand in another. */
  ghost function Positions(sorted: seq<Group>, groups: seq<Group>): (order: seq<nat>)
    requires forall g :: g in groups ==> g in sorted
    ensures |order| == |groups|
    ensures forall k :: 0 <= k < |groups| ==> order[k] < |sorted| && sorted[order[k]] == groups[k]
  {
    if groups == [] then []
    else
      assert groups[0] in sorted;
      var i :| 0 <= i < |sorted| && sorted[i] == groups[0];
      [i] + Positions(sorted, groups[1..])
  }

  lemma PositionsDiffer(sorted: seq<Group>, groups: seq<Group>, newLines: nat)
    requires InFile(groups, newLines) && PairwiseDisjoint(groups)
    requires forall g :: g in groups ==> g in sorted
    ensures Fresh(Positions(sorted, groups), |sorted|, {})
  {
    var order := Positions(sorted, groups);
    forall k, l | 0 <= k < l < |order|
      ensures order[k] != order[l]
    {
      assert Disjoint(groups[k], groups[l]);
      assert groups[k] == sorted[order[k]] && groups[l] == sorted[order[l]];
    }
  }

  lemma PositionsReachAll(sorted: seq<Group>, groups: seq<Group>, newLines: nat, i: nat)
    requires Rows(sorted, newLines) && i < |sorted|
    requires forall g :: g in groups <==> g in sorted
    ensures i in Members(Positions(sorted, groups))
  {
    var order := Positions(sorted, groups);
    assert sorted[i] in groups;
    var k :| 0 <= k < |groups| && groups[k] == sorted[i];
    assert order[k] in order;
    RowsDistinct(sorted, newLines, order[k], i);
  }

  lemma RowsDistinct(sorted: seq<Group>, newLines: nat, i: nat, j: nat)
    requires Rows(sorted, newLines) && i < |sorted| && j < |sorted|
    ensures sorted[i] == sorted[j] ==> i == j
  {
  }

  // ----- the fragments of the stack -----

  lemma {:induction false} BoundAppend(change: FileChange, a: seq<Group>, b: seq<Group>)
    requires InFile(a, |NewLines(change)|) && InFile(b, |NewLines(change)|)
    ensures InFile(a + b, |NewLines(change)|)
    ensures FragmentsOf(change, a + b) == FragmentsOf(change, a) + FragmentsOf(change, b)
  {
    var all := FragmentsOf(change, a + b);
    forall k | 0 <= k < |a + b|
      ensures all[k] == (FragmentsOf(change, a) + FragmentsOf(change, b))[k]
    {
      BoundAllAt(change.path, OldLines(change), NewLines(change), AlignedLines(change), a + b, k);
      if k < |a| {
        BoundAllAt(change.path, OldLines(change), NewLines(change), AlignedLines(change), a, k);
      } else {
        BoundAllAt(change.path, OldLines(change), NewLines(change), AlignedLines(change), b, k - |a|);
      }
    }
  }

  lemma {:induction false} StackPatchesAreBound(stack: seq<Atoms>, change: FileChange)
    requires StackPatches(stack, change).Ok?
    ensures InFile(StackGroups(stack, change.path), |NewLines(change)|)
    ensures StackPatches(stack, change).value == FragmentsOf(change, StackGroups(stack, change.path))
  {
    if stack != [] {
      BoundByChange(stack[0], change);
      StackPatchesAreBound(stack[1..], change);
      BoundAppend(change, GroupsFor(stack[0], change.path), StackGroups(stack[1..], change.path));
    }
  }

  lemma {:induction false} InOrderAt(patches: seq<PatchFragment>, order: seq<nat>, k: nat)
    requires forall k :: 0 <= k < |order| ==> order[k] < |patches|
    requires k < |order|
    ensures |InOrder(patches, order)| == |order| && InOrder(patches, order)[k] == patches[order[k]]
  {
    if |order| > 1 {
      InOrderAt(patches, order[1..], if 0 < k then k - 1 else 0);
    }
  }

  lemma InOrderOfPositions(change: FileChange, sorted: seq<Group>, groups: seq<Group>)
    requires InFile(sorted, |NewLines(change)|) && InFile(groups, |NewLines(change)|)
    requires forall g :: g in groups ==> g in sorted
    ensures InOrder(FragmentsOf(change, sorted), Positions(sorted, groups)) == FragmentsOf(change, groups)
  {
    var order := Positions(sorted, groups);
    var patches := FragmentsOf(change, sorted);
    if groups != [] {
      InOrderAt(patches, order, 0);
    }
    forall k | 0 <= k < |groups|
      ensures InOrder(patches, order)[k] == FragmentsOf(change, groups)[k]
    {
      InOrderAt(patches, order, k);
      BoundAllAt(change.path, OldLines(change), NewLines(change), AlignedLines(change), sorted, order[k]);
      BoundAllAt(change.path, OldLines(change), NewLines(change), AlignedLines(change), groups, k);
    }
  }

  // ----- which groups take an old line twice -----

  /** Old line q lies in the old range of the group. */
  ghost predicate TakesLine(change: FileChange, a: Group, q: nat) {
    OldStart(AlignedLines(change), a.start) <= q < OldEnd(AlignedLines(change), a.end, |OldLines(change)|)
  }

  ghost predicate SharesLine(change: FileChange, a: Group, b: Group) {
    exists q :: TakesLine(change, a, q) && TakesLine(change, b, q)
  }

  /** No old line lies in the old ranges of two groups. */
  ghost predicate NoSharedLine(change: FileChange, groups: seq<Group>) {
    forall a, b :: a in groups && b in groups && a != b ==> !SharesLine(change, a, b)
  }

  lemma RangesRise(change: FileChange, x: nat, y: nat)
    requires x <= y
    ensures OldStart(AlignedLines(change), x) <= OldStart(AlignedLines(change), y)
    ensures OldEnd(AlignedLines(change), x, |OldLines(change)|) <= OldEnd(AlignedLines(change), y, |OldLines(change)|)
  {
    var aligned := AlignedLines(change);
    LastBeforeIs(aligned, x);
    LastBeforeIs(aligned, y);
    FirstFromIs(aligned, x);
    FirstFromIs(aligned, y);
    BelowRises(aligned, x, y);
    hide LastBefore, FirstFrom, Below;
  }

  /** For groups in the order of the file. */
  lemma SharesLineIff(change: FileChange, a: Group, b: Group)
    requires a.start < a.end <= b.start < b.end
    ensures SharesLine(change, a, b)
       <==> OldStart(AlignedLines(change), b.start) < OldEnd(AlignedLines(change), a.end, |OldLines(change)|)
  {
    RangesRise(change, a.start, b.start);
    RangesRise(change, a.end, b.end);
    var q := OldStart(AlignedLines(change), b.start);
    if q < OldEnd(AlignedLines(change), a.end, |OldLines(change)|) {
      assert TakesLine(change, a, q) && TakesLine(change, b, q);
    }
  }

  lemma SharesLineSymmetric(change: FileChange, a: Group, b: Group)
    ensures SharesLine(change, a, b) <==> SharesLine(change, b, a)
  {
  }

  lemma NoSharedLineIff(change: FileChange, sorted: seq<Group>)
    requires Rows(sorted, |NewLines(change)|)
    ensures NoSharedLine(change, sorted) <==> NoneTwice(AlignedLines(change), sorted, |OldLines(change)|)
  {
    hide SharesLine, OldStart, OldEnd;
    if NoSharedLine(change, sorted) {
      forall k | 0 < k < |sorted|
        ensures OldEnd(AlignedLines(change), sorted[k - 1].end, |OldLines(change)|)
             <= OldStart(AlignedLines(change), sorted[k].start)
      {
        SharesLineIff(change, sorted[k - 1], sorted[k]);
      }
    }
    if NoneTwice(AlignedLines(change), sorted, |OldLines(change)|) {
      forall i, j | 0 <= i < j < |sorted|
        ensures !SharesLine(change, sorted[i], sorted[j]) && !SharesLine(change, sorted[j], sorted[i])
      {
        SharesLineIff(change, sorted[i], sorted[j]);
        SharesLineSymmetric(change, sorted[i], sorted[j]);
        assert sorted[i + 1].start <= sorted[j].start;
        RangesRise(change, sorted[i + 1].start, sorted[j].start);
      }
    }
  }

  /** An aligned line lies between the two groups. */
  ghost predicate Separated(change: FileChange, a: Group, b: Group) {
    AlignedBetween(AlignedLines(change), a.end, b.start) || AlignedBetween(AlignedLines(change), b.end, a.start)
  }

  ghost predicate PairwiseSeparated(change: FileChange, groups: seq<Group>) {
    forall a, b :: a in groups && b in groups && a != b ==> Separated(change, a, b)
  }

  lemma SeparatedIsSpaced(change: FileChange, sorted: seq<Group>)
    requires Rows(sorted, |NewLines(change)|) && PairwiseSeparated(change, sorted)
    ensures Spaced(AlignedLines(change), sorted, |OldLines(change)|)
  {
    hide OldStart, OldEnd, NewAligned;
    forall k | 0 < k < |sorted|
      ensures OldEnd(AlignedLines(change), sorted[k - 1].end, |OldLines(change)|)
            < OldStart(AlignedLines(change), sorted[k].start)
    {
      assert sorted[k - 1] in sorted && sorted[k] in sorted;
      assert Separated(change, sorted[k - 1], sorted[k]);
      OldLineBetweenIff(OldLines(change), NewLines(change), AlignedLines(change), sorted[k - 1].end, sorted[k].start);
    }
  }

  /** The groups of one pull request that covers a file are separated. */
  lemma CoveringIsSeparated(change: FileChange, groups: seq<Group>)
    requires Grouped(groups, |NewLines(change)|)
    requires Covered(OldLines(change), NewLines(change), AlignedLines(change), groups, 0, 0)
    ensures PairwiseSeparated(change, groups)
  {
    hide NewAligned, OldAligned, OldStart, OldEnd;
    forall i, j | 0 <= i < j < |groups|
      ensures AlignedBetween(AlignedLines(change), groups[i].end, groups[j].start)
    {
      FreeBetween(groups, |NewLines(change)|, i + 1);
      assert NewAligned(AlignedLines(change), groups[i].end);
    }
  }

  // ----- what a stack promises -----

  /** The pull requests bind to the file, no two of their groups have a line in common,
      and together they leave alone only lines that are aligned. */
  ghost predicate StackCovers(stack: seq<Atoms>, change: FileChange) {
    var groups := StackGroups(stack, change.path);
    && StackPatches(stack, change).Ok? && PairwiseDisjoint(groups)
    && Covered(OldLines(change), NewLines(change), AlignedLines(change), groups, 0, 0)
  }

  lemma StackIsWoven(stack: seq<Atoms>, change: FileChange)
    requires StackCovers(stack, change)
    ensures
      var groups := StackGroups(stack, change.path);
      var sorted := Sorted(groups);
      && InFile(groups, |NewLines(change)|) && Rows(sorted, |NewLines(change)|)
      && Covered(OldLines(change), NewLines(change), AlignedLines(change), sorted, 0, 0)
      && (forall g :: g in groups <==> g in sorted)
      && Fresh(Positions(sorted, groups), |sorted|, {})
      && (forall i :: 0 <= i < |sorted| ==> i in Members(Positions(sorted, groups)))
      && StackPatches(stack, change).value == FragmentsOf(change, groups)
      && StackPatches(stack, change).value == InOrder(FragmentsOf(change, sorted), Positions(sorted, groups))
  {
    var groups := StackGroups(stack, change.path);
    StackPatchesAreBound(stack, change);
    SortedRows(groups, |NewLines(change)|);
    SameMembersCover(OldLines(change), NewLines(change), AlignedLines(change), groups, Sorted(groups));
    PositionsDiffer(Sorted(groups), groups, |NewLines(change)|);
    forall i | 0 <= i < |Sorted(groups)|
      ensures i in Members(Positions(Sorted(groups), groups))
    {
      PositionsReachAll(Sorted(groups), groups, |NewLines(change)|, i);
    }
    InOrderOfPositions(change, Sorted(groups), groups);
  }

  lemma StackIsOrdered(stack: seq<Atoms>, change: FileChange)
    requires StackCovers(stack, change) && NoSharedLine(change, StackGroups(stack, change.path))
    ensures Ordered(AlignedLines(change), Sorted(StackGroups(stack, change.path)), |OldLines(change)|, 0)
  {
    var sorted := Sorted(StackGroups(stack, change.path));
    StackIsWoven(stack, change);
    NoSharedLineIff(change, sorted);
    OrderedIff(OldLines(change), NewLines(change), AlignedLines(change), sorted, 0);
    hide StackCovers, Rows, Covered, Ordered, NoneTwice, InOrder, Positions, Fresh, Members, SharesLine;
  }

  /** At its turn every fragment matches in its own place, and the scan reaches it. */
  ghost predicate StackInPlace(stack: seq<Atoms>, change: FileChange)
    requires StackCovers(stack, change) && NoSharedLine(change, StackGroups(stack, change.path))
  {
    StackIsWoven(stack, change);
    StackIsOrdered(stack, change);
    var groups := StackGroups(stack, change.path);
    var sorted := Sorted(groups);
    InPlace(FileGaps(change, sorted), FragmentsOf(change, sorted), Positions(sorted, groups), {})
  }

  /** Searching for the fragments of all pull requests in the order of the stack, which
      need not be the order of the file, is refused or ends with exactly the new text,
      when no old line is taken twice and every fragment fits in its own place at its
      turn. */
  lemma StackThenApply(stack: seq<Atoms>, change: FileChange)
    requires StackCovers(stack, change) && NoSharedLine(change, StackGroups(stack, change.path))
    requires StackInPlace(stack, change)
    ensures
      var result := ApplyAll(change.oldContent, StackPatches(stack, change).value);
      result == Err(Conflict) || result == Ok(change.newContent)
  {
    hide NoSharedLine, StackCovers, Ordered, Rows, Covered, InFile, Woven, Befores, Afters, InPlace, Fresh, Members;
    StackIsWoven(stack, change);
    StackIsOrdered(stack, change);
    StackInPlaceIs(stack, change);
    hide StackInPlace, Positions, Sorted;
    var groups := StackGroups(stack, change.path);
    FragmentsWeaveFile(change, Sorted(groups));
    AppliesAll(FileGaps(change, Sorted(groups)), FragmentsOf(change, Sorted(groups)),
        Positions(Sorted(groups), groups));
  }

  lemma StackInPlaceIs(stack: seq<Atoms>, change: FileChange)
    requires StackCovers(stack, change) && NoSharedLine(change, StackGroups(stack, change.path))
    requires StackInPlace(stack, change)
    ensures
      var groups := StackGroups(stack, change.path);
      var sorted := Sorted(groups);
      && InFile(sorted, |NewLines(change)|) && Ordered(AlignedLines(change), sorted, |OldLines(change)|, 0)
      && (forall g :: g in groups ==> g in sorted) && Fresh(Positions(sorted, groups), |sorted|, {})
      && InPlace(FileGaps(change, sorted), FragmentsOf(change, sorted), Positions(sorted, groups), {})
  {
    StackIsWoven(stack, change);
    StackIsOrdered(stack, change);
    hide NoSharedLine, StackCovers, Ordered, Covered, InPlace, Fresh, Members;
  }

  /** The pull requests cover the file, and an aligned line lies between any two groups. */
  ghost predicate StackSeparated(stack: seq<Atoms>, change: FileChange) {
    StackCovers(stack, change) && PairwiseSeparated(change, StackGroups(stack, change.path))
  }

  lemma SeparatedIsHosted(stack: seq<Atoms>, change: FileChange)
    requires StackSeparated(stack, change)
    ensures NoSharedLine(change, StackGroups(stack, change.path))
    ensures
      var sorted := Sorted(StackGroups(stack, change.path));
      && InFile(sorted, |NewLines(change)|) && Ordered(AlignedLines(change), sorted, |OldLines(change)|, 0)
      && Hosted(FileGaps(change, sorted), FragmentsOf(change, sorted))
  {
    var groups := StackGroups(stack, change.path);
    var sorted := Sorted(groups);
    StackIsWoven(stack, change);
    SeparatedIsSpaced(change, sorted);
    FragmentsHosted(change, sorted);
    OrderedIff(OldLines(change), NewLines(change), AlignedLines(change), sorted, 0);
    NoSharedLineIff(change, sorted);
    hide Separated, SharesLine, Spaced, NoneTwice, Ordered, Hosted, Covered;
  }

  /** The scan reaches the place of every fragment at its turn. */
  ghost predicate StackReached(stack: seq<Atoms>, change: FileChange)
    requires StackSeparated(stack, change)
  {
    StackIsWoven(stack, change);
    SeparatedIsHosted(stack, change);
    var groups := StackGroups(stack, change.path);
    var sorted := Sorted(groups);
    Reached(FileGaps(change, sorted), FragmentsOf(change, sorted), Positions(sorted, groups), {})
  }

  /** With an aligned line between any two groups it is enough that every place is
      reached. */
  lemma SeparatedStackThenApply(stack: seq<Atoms>, change: FileChange)
    requires StackSeparated(stack, change) && StackReached(stack, change)
    ensures
      var result := ApplyAll(change.oldContent, StackPatches(stack, change).value);
      result == Err(Conflict) || result == Ok(change.newContent)
  {
    SeparatedInPlace(stack, change);
    hide StackReached, StackInPlace, NoSharedLine, PairwiseSeparated;
    StackThenApply(stack, change);
  }

  lemma SeparatedInPlace(stack: seq<Atoms>, change: FileChange)
    requires StackSeparated(stack, change) && StackReached(stack, change)
    ensures NoSharedLine(change, StackGroups(stack, change.path)) && StackInPlace(stack, change)
  {
    var groups := StackGroups(stack, change.path);
    var sorted := Sorted(groups);
    StackIsWoven(stack, change);
    SeparatedIsHosted(stack, change);
    hide NoSharedLine, PairwiseSeparated, Ordered, Rows, Covered, InFile, Hosted, Fresh;
    HostedInPlace(FileGaps(change, sorted), FragmentsOf(change, sorted), Positions(sorted, groups), {});
  }

  lemma UnborderedStackReached(stack: seq<Atoms>, change: FileChange)
    requires StackSeparated(stack, change)
    requires forall p :: p in StackPatches(stack, change).value ==> Unbordered(p.before)
    ensures StackReached(stack, change)
  {
    hide Unbordered, InOrder, StackPatches, Hosted, Sorted, Fresh, Members, InFile, Rows, PairwiseDisjoint, Covered;
    var groups := StackGroups(stack, change.path);
    var sorted := Sorted(groups);
    StackIsWoven(stack, change);
    SeparatedIsHosted(stack, change);
    var order := Positions(sorted, groups);
    var gaps, patches := FileGaps(change, sorted), FragmentsOf(change, sorted);
    EveryFragmentListed(patches, order);
    hide StackCovers, NoSharedLine, PairwiseSeparated;
    UnborderedReached(gaps, patches, order, {});
  }

  lemma EveryFragmentListed(patches: seq<PatchFragment>, order: seq<nat>)
    requires Fresh(order, |patches|, {}) && forall i :: 0 <= i < |patches| ==> i in Members(order)
    ensures forall i :: 0 <= i < |patches| ==> patches[i] in InOrder(patches, order)
  {
    forall i | 0 <= i < |patches|
      ensures patches[i] in InOrder(patches, order)
    {
      assert i in Members(order) && i in order;
      var k :| 0 <= k < |order| && order[k] == i;
      InOrderAt(patches, order, k);
      assert InOrder(patches, order)[k] in InOrder(patches, order);
    }
  }

  /** So a condition on the fragments and on the alignment is enough. */
  lemma UnborderedStackThenApply(stack: seq<Atoms>, change: FileChange)
    requires StackSeparated(stack, change)
    requires forall p :: p in StackPatches(stack, change).value ==> Unbordered(p.before)
    ensures
      var result := ApplyAll(change.oldContent, StackPatches(stack, change).value);
      result == Err(Conflict) || result == Ok(change.newContent)
  {
    UnborderedStackReached(stack, change);
    SeparatedStackThenApply(stack, change);
  }

  // ----- a single pull request -----

  lemma StackOfOne(atoms: Atoms, change: FileChange)
    requires BindChange(atoms, change).Ok? && FullyCovered(atoms, change)
    ensures StackSeparated([atoms], change) && StackPatches([atoms], change) == BindChange(atoms, change)
  {
    GroupsAreGrouped(atoms, change);
    SingleStack(atoms, change);
    CoveringIsSeparated(change, GroupsFor(atoms, change.path));
    hide BindChange, GroupsFor, Covered, StackGroups, StackPatches, PairwiseSeparated;
  }

  lemma SingleStack(atoms: Atoms, change: FileChange)
    requires BindChange(atoms, change).Ok?
    ensures StackGroups([atoms], change.path) == GroupsFor(atoms, change.path)
    ensures StackPatches([atoms], change) == BindChange(atoms, change)
  {
    hide BindChange, GroupsFor;
    assert [atoms][1..] == [];
    assert GroupsFor(atoms, change.path) + [] == GroupsFor(atoms, change.path);
    assert BindChange(atoms, change).value + [] == BindChange(atoms, change).value;
    assert StackGroups([], change.path) == [] && StackPatches([], change) == Ok([]);
  }

  ghost predicate FileReached(atoms: Atoms, change: FileChange)
    requires BindChange(atoms, change).Ok? && FullyCovered(atoms, change)
  {
    StackOfOne(atoms, change);
    StackReached([atoms], change)
  }

  /** Searching for the fragments of one pull request one after the other, starting
      from the old text, is refused or ends with exactly the new text, provided the
      scan reaches the places where they were bound. */
  lemma BindThenApply(atoms: Atoms, change: FileChange)
    requires BindChange(atoms, change).Ok? && FullyCovered(atoms, change) && FileReached(atoms, change)
    ensures
      var result := ApplyAll(change.oldContent, BindChange(atoms, change).value);
      result == Err(Conflict) || result == Ok(change.newContent)
  {
    StackOfOne(atoms, change);
    SeparatedStackThenApply([atoms], change);
  }

  lemma UnborderedBindThenApply(atoms: Atoms, change: FileChange)
    requires BindChange(atoms, change).Ok? && FullyCovered(atoms, change)
    requires forall p :: p in BindChange(atoms, change).value ==> Unbordered(p.before)
    ensures
      var result := ApplyAll(change.oldContent, BindChange(atoms, change).value);
      result == Err(Conflict) || result == Ok(change.newContent)
  {
    StackOfOne(atoms, change);
    UnborderedStackThenApply([atoms], change);
  }
}
