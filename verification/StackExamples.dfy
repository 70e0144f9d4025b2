/** Two stacks of pull requests with neighbouring groups whose fragments apply without
    a conflict and yet do not give the new text.
 */
module StackExamples {
  import Lcs
  import opened Wrappers
  import opened Model
  import opened Text
  import opened PatchSearch
  import opened PatchBinding
  import opened PatchRoundTrip
  import opened BindRoundTrip
  import opened StackRoundTrip
  import opened Weave
  import opened AdjacentPatches

  /** The groups of a pull request with one atom on one line. */
  lemma OneLine(id: AtomId, line: nat)
    requires 0 < line
    ensures GroupsFor([ChangeAtom(id, "f", line, line)], "f") == [Group(line - 1, line, {id})]
  {
    var atoms, group := [ChangeAtom(id, "f", line, line)], Group(line - 1, line, {id});
    assert RangesOf([], "f") == [] && atoms[1..] == [];
    assert RangesOf(atoms, "f") == [group] && [group][1..] == [];
    assert Sorted([]) == [];
    assert Sorted([group]) == [group];
    assert AddRanges([], [group]) == AddRanges([group], []);
  }

  lemma TwoLineGroups(stack: seq<Atoms>)
    requires stack == [[ChangeAtom(1, "f", 2, 2)], [ChangeAtom(2, "f", 3, 3)]]
    ensures StackGroups(stack, "f") == [Group(1, 2, {1}), Group(2, 3, {2})]
  {
    OneLine(1, 2);
    OneLine(2, 3);
    hide GroupsFor;
    assert stack[1..] == [stack[1]] && stack[1..][1..] == [];
    assert StackGroups([], "f") == [];
    assert [Group(2, 3, {2})] + [] == [Group(2, 3, {2})];
    assert StackGroups(stack[1..], "f") == [Group(2, 3, {2})];
    assert [Group(1, 2, {1})] + [Group(2, 3, {2})] == [Group(1, 2, {1}), Group(2, 3, {2})];
  }

  /** Binding a stack of two pull requests with one group each. */
  lemma BindsTwo(stack: seq<Atoms>, change: FileChange)
    requires stack == [[ChangeAtom(1, "f", 2, 2)], [ChangeAtom(2, "f", 3, 3)]] && change.path == "f"
    requires 3 <= |NewLines(change)|
    ensures
      StackPatches(stack, change)
      == Ok([FragmentOf(change, Group(1, 2, {1})), FragmentOf(change, Group(2, 3, {2}))])
  {
    OneLine(1, 2);
    OneLine(2, 3);
    BindsOne(stack[0], change, Group(1, 2, {1}));
    BindsOne(stack[1], change, Group(2, 3, {2}));
    hide GroupsFor, BindChange, FragmentOf;
    var a, b := FragmentOf(change, Group(1, 2, {1})), FragmentOf(change, Group(2, 3, {2}));
    assert stack[1..] == [stack[1]] && stack[1..][1..] == [];
    assert StackPatches([], change) == Ok([]);
    assert [b] + [] == [b] && [a] + [b] == [a, b];
    assert StackPatches(stack[1..], change) == Ok([b]);
  }

  lemma BindsOne(atoms: Atoms, change: FileChange, group: Group)
    requires GroupsFor(atoms, change.path) == [group] && group.start < group.end <= |NewLines(change)|
    ensures BindChange(atoms, change) == Ok([FragmentOf(change, group)])
  {
    assert InFile([group], |NewLines(change)|);
    BindGroupsGivesBound(change.path, OldLines(change), NewLines(change), AlignedLines(change), [group]);
    BoundAllAt(change.path, OldLines(change), NewLines(change), AlignedLines(change), [group], 0);
    hide GroupsFor, BindGroups, BoundAll, Bound;
    var all := FragmentsOf(change, [group]);
    assert |all| == 1 && all[0] == FragmentOf(change, group);
    assert all == [FragmentOf(change, group)];
    assert BindChange(atoms, change) == Ok(all);
  }

  /** The fragment of a group, from the alignment of its file. */
  lemma FragmentIs(change: FileChange, group: Group, was: seq<Line>, now: seq<Line>, aligned: Pairs)
    requires OldLines(change) == was && NewLines(change) == now && AlignedLines(change) == aligned
    requires group.start < group.end <= |now|
    ensures OldStart(aligned, group.start) <= OldEnd(aligned, group.end, |was|) <= |was|
    ensures
      var patch := FragmentOf(change, group);
      var oldStart, oldEnd := OldStart(aligned, group.start), OldEnd(aligned, group.end, |was|);
      && patch.before == Concat(was[oldStart..oldEnd]) && patch.after == Concat(now[group.start..group.end])
      && patch.beforeContext == LineBefore(was, oldStart) && patch.afterContext == LineFrom(was, oldEnd)
  {
    BoundWith(change.path, was, now, aligned, group);
  }

  /** The first line of a text is one character and a line feed. */
  lemma ShortLine(line: Line, rest: string, content: string)
    requires |line| == 2 && line[0] != '\n' && line[1] == '\n' && content == line + rest
    ensures SplitLines(content) == [line] + SplitLines(rest)
  {
    SplitFirst(line, rest);
  }

  // ----- two appended lines change places -----

  const STACK: seq<Atoms> := [[ChangeAtom(1, "f", 2, 2)], [ChangeAtom(2, "f", 3, 3)]]
  const APPENDS := FileChange("f", "x\n", "x\np\nq\n")

  /** A file of one line, to which two lines are appended. */
  ghost predicate AppendsTwo(change: FileChange) {
    && change.path == "f"
    && OldLines(change) == ["x\n"] && NewLines(change) == ["x\n", "p\n", "q\n"]
    && AlignedLines(change) == [(0, 0)]
  }

  lemma AppendsOne()
    ensures SplitLines("x\n") == ["x\n"] && SplitLines("q\n") == ["q\n"]
  {
    assert SplitLines("") == [];
    hide SplitLines;
    ShortLine("q\n", "", "q\n");
    ShortLine("x\n", "", "x\n");
  }

  lemma AppendsLines()
    ensures SplitLines("x\n") == ["x\n"] && SplitLines("x\np\nq\n") == ["x\n", "p\n", "q\n"]
  {
    AppendsOne();
    hide SplitLines;
    ShortLine("p\n", "q\n", "p\nq\n");
    ShortLine("x\n", "p\nq\n", "x\np\nq\n");
  }

  lemma AppendsAlign()
    ensures AppendsTwo(APPENDS)
  {
    AppendsLines();
    hide SplitLines;
    var was, now := ["x\n"], ["x\n", "p\n", "q\n"];
    assert Lcs.Alignment(was, now, 1, 1) == [];
    assert Lcs.Alignment(was, now, 0, 0) == [(0, 0)];
  }

  lemma AppendsRanges()
    ensures OldStart([(0, 0)], 1) == OldStart([(0, 0)], 2) == 1
    ensures OldEnd([(0, 0)], 2, 1) == OldEnd([(0, 0)], 3, 1) == 1
  {
    var aligned: Pairs := [(0, 0)];
    assert aligned[1..] == [];
    assert FirstFrom(aligned, 2) == None && FirstFrom(aligned, 3) == None;
    assert LastBefore(aligned, 1) == Some(0) && LastBefore(aligned, 2) == Some(0);
  }

  lemma AppendsFragments(change: FileChange)
    requires AppendsTwo(change)
    ensures
      var a, b := FragmentOf(change, Group(1, 2, {1})), FragmentOf(change, Group(2, 3, {2}));
      && a.before == b.before == "" && a.after == "p\n" && b.after == "q\n"
      && a.beforeContext == b.beforeContext == "x\n" && a.afterContext == b.afterContext == ""
  {
    AppendsRanges();
    var was, now, aligned: Pairs := ["x\n"], ["x\n", "p\n", "q\n"], [(0, 0)];
    FragmentIs(change, Group(1, 2, {1}), was, now, aligned);
    FragmentIs(change, Group(2, 3, {2}), was, now, aligned);
    hide FragmentOf, OldLines, NewLines, AlignedLines, OldStart, OldEnd;
    assert was[1..1] == [] && now[1..2] == ["p\n"] && now[2..3] == ["q\n"];
    ConcatSingle("p\n");
    ConcatSingle("q\n");
    assert Concat([]) == "";
  }

  lemma AppendsCovers(change: FileChange)
    requires AppendsTwo(change)
    ensures StackCovers(STACK, change)
  {
    TwoLineGroups(STACK);
    BindsTwo(STACK, change);
    AppendsCovered();
    TwoAreDisjoint();
    hide StackPatches, StackGroups, FragmentOf, OldLines, NewLines, AlignedLines, Covered, PairwiseDisjoint;
  }

  lemma TwoAreDisjoint()
    ensures PairwiseDisjoint([Group(1, 2, {1}), Group(2, 3, {2})])
  {
    assert Disjoint(Group(1, 2, {1}), Group(2, 3, {2}));
  }

  lemma AppendsCovered()
    ensures Covered(["x\n"], ["x\n", "p\n", "q\n"], [(0, 0)], [Group(1, 2, {1}), Group(2, 3, {2})], 0, 0)
  {
    var groups := [Group(1, 2, {1}), Group(2, 3, {2})];
    var aligned: Pairs := [(0, 0)];
    assert aligned[0].0 == 0 && aligned[0].1 == 0;
    assert NewAligned(aligned, 0) && OldAligned(aligned, 0);
    assert groups[0] == Group(1, 2, {1}) && groups[1] == Group(2, 3, {2});
    assert InRange(groups, 1) && InRange(groups, 2);
  }

  lemma AppendsShareNothing(change: FileChange)
    requires AppendsTwo(change)
    ensures NoSharedLine(change, StackGroups(STACK, "f"))
  {
    TwoLineGroups(STACK);
    AppendsRanges();
    hide OldStart, OldEnd, StackGroups, OldLines, AlignedLines;
    var groups := [Group(1, 2, {1}), Group(2, 3, {2})];
    forall a, q: nat | a in groups
      ensures !TakesLine(change, a, q)
    {
      assert a == groups[0] || a == groups[1];
    }
  }

  /** A line that comes behind the only "x". */
  lemma InsertsBehindX(rest: string, patch: PatchFragment)
    requires patch.before == "" && patch.beforeContext == "x\n" && patch.afterContext == "" && 'x' !in rest
    ensures Patched("x\n" + rest, patch) == Ok("x\n" + patch.after + rest)
  {
    var content := "x\n" + rest;
    assert content[..2] == "x\n" && content[2..] == rest;
    forall q: nat | Matches(content, patch, q)
      ensures q == 2
    {
      assert content[..q][|content[..q]| - 2..] == "x\n";
      assert content[q - 2] == 'x';
    }
    assert Matches(content, patch, 2);
    AppliesAtIff(content, patch, 2);
  }

  lemma AppendsFold(a: PatchFragment, b: PatchFragment)
    requires a.before == b.before == "" && a.after == "p\n" && b.after == "q\n"
    requires a.beforeContext == b.beforeContext == "x\n" && a.afterContext == b.afterContext == ""
    ensures ApplyAll("x\n", [a, b]) == Ok("x\nq\np\n")
    ensures Unbordered(a.before) && Unbordered(b.before)
  {
    InsertsBehindX("", a);
    InsertsBehindX("p\n", b);
    hide Patched;
    assert "x\n" + "" == "x\n" && "x\n" + "p\n" + "" == "x\np\n" == "x\n" + "p\n";
    assert "x\n" + "q\n" + "p\n" == "x\nq\np\n";
    ApplyBoth("x\n", a, b);
  }

  /** Two pull requests that each append one line: no old line is taken twice, both
      regions are empty, and the fold succeeds with the lines in the other order. */
  lemma SwappedExample()
    ensures
      && StackCovers(STACK, APPENDS) && NoSharedLine(APPENDS, StackGroups(STACK, "f"))
      && (forall p :: p in StackPatches(STACK, APPENDS).value ==> Unbordered(p.before))
      && ApplyAll(APPENDS.oldContent, StackPatches(STACK, APPENDS).value) == Ok("x\nq\np\n")
      && "x\nq\np\n" != APPENDS.newContent
  {
    AppendsAlign();
    SwappedStack(APPENDS);
    assert "x\nq\np\n"[2] != APPENDS.newContent[2];
    hide StackCovers, NoSharedLine, StackPatches, ApplyAll, Unbordered;
  }

  lemma SwappedStack(change: FileChange)
    requires AppendsTwo(change)
    ensures StackCovers(STACK, change) && NoSharedLine(change, StackGroups(STACK, "f"))
    ensures forall p :: p in StackPatches(STACK, change).value ==> Unbordered(p.before)
    ensures ApplyAll("x\n", StackPatches(STACK, change).value) == Ok("x\nq\np\n")
  {
    hide OldLines, NewLines, AlignedLines, ApplyAll;
    AppendsCovers(change);
    AppendsFragments(change);
    BindsTwo(STACK, change);
    AppendsShareNothing(change);
    hide StackCovers, StackPatches, FragmentOf, NoSharedLine, Unbordered;
    AppendsFold(FragmentOf(change, Group(1, 2, {1})), FragmentOf(change, Group(2, 3, {2})));
  }

  // ----- two replaced lines lose another one -----

  const REPLACES := FileChange("f", "b\nh\nh\nh\n", "b\nb\nq\nh\nh\n")
  const B_H_H_H: seq<Line> := ["b\n", "h\n", "h\n", "h\n"]
  const B_B_Q_H_H: seq<Line> := ["b\n", "b\n", "q\n", "h\n", "h\n"]
  const MIDDLE_GONE: Pairs := [(0, 0), (2, 3), (3, 4)]

  /** A file in which two new lines take the place of the first of three equal lines. */
  ghost predicate ReplacesTwo(change: FileChange) {
    && change.path == "f"
    && OldLines(change) == B_H_H_H && NewLines(change) == B_B_Q_H_H && AlignedLines(change) == MIDDLE_GONE
  }

  lemma TailLines()
    ensures SplitLines("h\nh\n") == ["h\n", "h\n"]
  {
    assert SplitLines("") == [];
    hide SplitLines;
    ShortLine("h\n", "", "h\n");
    ShortLine("h\n", "h\n", "h\nh\n");
  }

  lemma ReplacedLines()
    ensures SplitLines("b\nh\nh\nh\n") == B_H_H_H
  {
    TailLines();
    hide SplitLines;
    ShortLine("h\n", "h\nh\n", "h\nh\nh\n");
    ShortLine("b\n", "h\nh\nh\n", "b\nh\nh\nh\n");
  }

  lemma ReplacingLines()
    ensures SplitLines("b\nb\nq\nh\nh\n") == B_B_Q_H_H
  {
    TailLines();
    hide SplitLines;
    ShortLine("q\n", "h\nh\n", "q\nh\nh\n");
    ShortLine("b\n", "q\nh\nh\n", "b\nq\nh\nh\n");
    ShortLine("b\n", "b\nq\nh\nh\n", "b\nb\nq\nh\nh\n");
  }

  /** How many of the last i old lines and the last two new lines are common. */
  lemma CommonTail(i: nat)
    requires 1 <= i <= 4
    decreases 4 - i
    ensures Lcs.Length(B_H_H_H, B_B_Q_H_H, i, 4) == if i < 4 then 1 else 0
    ensures Lcs.Length(B_H_H_H, B_B_Q_H_H, i, 3) == if i < 3 then 2 else 4 - i
    ensures Lcs.Length(B_H_H_H, B_B_Q_H_H, i, 2) == Lcs.Length(B_H_H_H, B_B_Q_H_H, i, 3)
    ensures Lcs.Length(B_H_H_H, B_B_Q_H_H, i, 1) == Lcs.Length(B_H_H_H, B_B_Q_H_H, i, 3)
  {
    assert Lcs.Length(B_H_H_H, B_B_Q_H_H, i, 5) == 0;
    if i < 4 {
      CommonTail(i + 1);
      assert Lcs.Length(B_H_H_H, B_B_Q_H_H, i + 1, 5) == 0;
      assert B_H_H_H[i] == "h\n" && B_B_Q_H_H[3] == B_B_Q_H_H[4] == "h\n";
      assert B_B_Q_H_H[1] == "b\n" && B_B_Q_H_H[2] == "q\n";
      assert "h\n"[0] != "b\n"[0] && "h\n"[0] != "q\n"[0];
    }
  }

  lemma ReplacesAlign()
    ensures Lcs.Alignment(B_H_H_H, B_B_Q_H_H, 0, 0) == MIDDLE_GONE
  {
    CommonTail(1);
    CommonTail(2);
    CommonTail(3);
    assert "h\n"[0] != "b\n"[0] && "h\n"[0] != "q\n"[0];
    hide Lcs.Length;
    assert Lcs.Alignment(B_H_H_H, B_B_Q_H_H, 4, 5) == [];
    assert Lcs.Alignment(B_H_H_H, B_B_Q_H_H, 3, 4) == [(3, 4)];
    assert Lcs.Alignment(B_H_H_H, B_B_Q_H_H, 2, 3) == [(2, 3), (3, 4)];
    assert Lcs.Alignment(B_H_H_H, B_B_Q_H_H, 2, 2) == Lcs.Alignment(B_H_H_H, B_B_Q_H_H, 2, 3);
    assert Lcs.Alignment(B_H_H_H, B_B_Q_H_H, 2, 1) == Lcs.Alignment(B_H_H_H, B_B_Q_H_H, 2, 2);
    assert Lcs.Alignment(B_H_H_H, B_B_Q_H_H, 1, 1) == Lcs.Alignment(B_H_H_H, B_B_Q_H_H, 2, 1);
  }

  lemma ReplacesIs()
    ensures ReplacesTwo(REPLACES)
  {
    ReplacedLines();
    ReplacingLines();
    ReplacesAlign();
    hide SplitLines, Lcs.Alignment;
  }

  lemma ReplacesRanges()
    ensures OldStart(MIDDLE_GONE, 1) == OldStart(MIDDLE_GONE, 2) == 1
    ensures OldEnd(MIDDLE_GONE, 2, 4) == OldEnd(MIDDLE_GONE, 3, 4) == 2
  {
    var aligned := MIDDLE_GONE;
    assert aligned[1..] == [(2, 3), (3, 4)];
    assert FirstFrom(aligned[1..], 2) == Some(2) && FirstFrom(aligned[1..], 3) == Some(2);
    assert aligned[..2] == [(0, 0), (2, 3)] && aligned[..2][..1] == [(0, 0)];
    assert LastBefore([(0, 0)], 1) == Some(0) && LastBefore([(0, 0)], 2) == Some(0);
    assert LastBefore(aligned[..2], 1) == Some(0) && LastBefore(aligned[..2], 2) == Some(0);
  }

  lemma ReplacesFragments(change: FileChange)
    requires ReplacesTwo(change)
    ensures
      var a, b := FragmentOf(change, Group(1, 2, {1})), FragmentOf(change, Group(2, 3, {2}));
      && a.before == b.before == "h\n" && a.after == "b\n" && b.after == "q\n"
      && a.beforeContext == b.beforeContext == "b\n" && a.afterContext == b.afterContext == "h\n"
  {
    ReplacesRanges();
    var was, now := B_H_H_H, B_B_Q_H_H;
    FragmentIs(change, Group(1, 2, {1}), was, now, MIDDLE_GONE);
    FragmentIs(change, Group(2, 3, {2}), was, now, MIDDLE_GONE);
    hide FragmentOf, OldLines, NewLines, AlignedLines, OldStart, OldEnd;
    assert was[1..2] == ["h\n"] && now[1..2] == ["b\n"] && now[2..3] == ["q\n"];
    ConcatSingle("h\n");
    ConcatSingle("b\n");
    ConcatSingle("q\n");
  }

  lemma ReplacesCovered()
    ensures Covered(B_H_H_H, B_B_Q_H_H, MIDDLE_GONE, [Group(1, 2, {1}), Group(2, 3, {2})], 0, 0)
  {
    var groups := [Group(1, 2, {1}), Group(2, 3, {2})];
    var aligned := MIDDLE_GONE;
    ReplacesRanges();
    assert aligned[0].1 == 0 && aligned[1].1 == 3 && aligned[2].1 == 4;
    assert aligned[0].0 == 0 && aligned[1].0 == 2 && aligned[2].0 == 3;
    assert NewAligned(aligned, 0) && NewAligned(aligned, 3) && NewAligned(aligned, 4);
    assert OldAligned(aligned, 0) && OldAligned(aligned, 2) && OldAligned(aligned, 3);
    hide OldStart, OldEnd, NewAligned, OldAligned;
    assert groups[0] == Group(1, 2, {1}) && groups[1] == Group(2, 3, {2});
    assert InRange(groups, 1) && InRange(groups, 2);
    assert InOldRange(aligned, groups, 4, 1);
  }

  lemma ReplacesCovers(change: FileChange)
    requires ReplacesTwo(change)
    ensures StackCovers(STACK, change)
  {
    TwoLineGroups(STACK);
    BindsTwo(STACK, change);
    ReplacesCovered();
    TwoAreDisjoint();
    hide StackPatches, StackGroups, FragmentOf, OldLines, NewLines, AlignedLines, Covered, PairwiseDisjoint;
  }

  /** An "h" line between a "b" line and another "h" line. */
  lemma ReplacesOnlyH(content: string, patch: PatchFragment, p: nat, front: string, back: string)
    requires patch.before == "h\n" && patch.beforeContext == "b\n" && patch.afterContext == "h\n"
    requires content == front + "h\n" + back && |front| == p && EndsWith(front, "b\n") && StartsWith(back, "h\n")
    requires forall q: nat :: 2 <= q < |content| && content[q] == 'h' && content[q - 2] == 'b' ==> q == p
    ensures Patched(content, patch) == Ok(front + patch.after + back)
  {
    PlaceIff(content, front, back, patch);
    ShortIsUnbordered(patch.before);
    UnborderedIsConsidered(content, patch, p);
    forall q: nat | Matches(content, patch, q)
      ensures q == p
    {
      HBehindB(content, patch, q);
    }
    hide Matches, Considered, Splice;
    AppliesAtIff(content, patch, p);
  }

  lemma HBehindB(content: string, patch: PatchFragment, q: nat)
    requires patch.before == "h\n" && patch.beforeContext == "b\n" && Matches(content, patch, q)
    ensures 2 <= q < |content| && content[q] == 'h' && content[q - 2] == 'b'
  {
    assert content[q..q + 2][0] == 'h';
    assert content[..q][q - 2..] == "b\n";
    assert content[..q][q - 2..][0] == 'b';
  }

  lemma ShortIsUnbordered(pattern: string)
    requires |pattern| == 2 && pattern[0] != pattern[1]
    ensures Unbordered(pattern)
  {
    assert pattern[..1][0] == pattern[0] && pattern[1..][0] == pattern[1];
  }

  /** In four lines of one letter that are first "b" and then "h", one "h" follows a "b". */
  lemma OneHBehindB(content: string, p: nat)
    requires |content| == 8 && 2 <= p < 8 && p % 2 == 0
    requires forall k :: 0 <= k < 8 ==> content[k] == if k % 2 == 1 then '\n' else if k < p then 'b' else 'h'
    ensures forall q: nat :: 2 <= q < |content| && content[q] == 'h' && content[q - 2] == 'b' ==> q == p
  {
  }

  lemma ReplacesFirst(a: PatchFragment)
    requires a.before == "h\n" && a.after == "b\n" && a.beforeContext == "b\n" && a.afterContext == "h\n"
    ensures Patched("b\nh\nh\nh\n", a) == Ok("b\nb\nh\nh\n")
  {
    hide Patched;
    var content := "b\nh\nh\nh\n";
    assert content == "b\n" + "h\n" + "h\nh\n" && "b\n" + "b\n" + "h\nh\n" == "b\nb\nh\nh\n";
    OneHBehindB(content, 2);
    ReplacesOnlyH(content, a, 2, "b\n", "h\nh\n");
  }

  lemma ReplacesSecond(b: PatchFragment)
    requires b.before == "h\n" && b.after == "q\n" && b.beforeContext == "b\n" && b.afterContext == "h\n"
    ensures Patched("b\nb\nh\nh\n", b) == Ok("b\nb\nq\nh\n")
  {
    hide Patched;
    var content := "b\nb\nh\nh\n";
    assert content == "b\nb\n" + "h\n" + "h\n" && "b\nb\n" + "q\n" + "h\n" == "b\nb\nq\nh\n";
    OneHBehindB(content, 4);
    ReplacesOnlyH(content, b, 4, "b\nb\n", "h\n");
  }

  lemma ReplacesFold(a: PatchFragment, b: PatchFragment)
    requires a.before == b.before == "h\n" && a.after == "b\n" && b.after == "q\n"
    requires a.beforeContext == b.beforeContext == "b\n" && a.afterContext == b.afterContext == "h\n"
    ensures ApplyAll("b\nh\nh\nh\n", [a, b]) == Ok("b\nb\nq\nh\n")
    ensures Unbordered(a.before) && Unbordered(b.before)
  {
    ShortIsUnbordered(a.before);
    ReplacesFirst(a);
    ReplacesSecond(b);
    hide Patched, ApplyAll, Unbordered;
    ApplyBoth("b\nh\nh\nh\n", a, b);
  }

  /** Two pull requests that each put one line in the place of the same old line: the
      fold succeeds, and a line is lost. */
  lemma LostLineExample()
    ensures
      && StackCovers(STACK, REPLACES)
      && (forall p :: p in StackPatches(STACK, REPLACES).value ==> Unbordered(p.before))
      && ApplyAll(REPLACES.oldContent, StackPatches(STACK, REPLACES).value) == Ok("b\nb\nq\nh\n")
      && |"b\nb\nq\nh\n"| + 2 == |REPLACES.newContent|
  {
    ReplacesIs();
    LostLineStack(REPLACES);
    hide StackCovers, StackPatches, ApplyAll, Unbordered;
  }

  lemma LostLineStack(change: FileChange)
    requires ReplacesTwo(change)
    ensures StackCovers(STACK, change)
    ensures forall p :: p in StackPatches(STACK, change).value ==> Unbordered(p.before)
    ensures ApplyAll("b\nh\nh\nh\n", StackPatches(STACK, change).value) == Ok("b\nb\nq\nh\n")
  {
    hide OldLines, NewLines, AlignedLines, ApplyAll;
    ReplacesCovers(change);
    ReplacesFragments(change);
    BindsTwo(STACK, change);
    hide StackCovers, StackPatches, FragmentOf, Unbordered;
    ReplacesFold(FragmentOf(change, Group(1, 2, {1})), FragmentOf(change, Group(2, 3, {2})));
  }
}
