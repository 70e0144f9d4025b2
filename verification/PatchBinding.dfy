/** `bind_patches`: from the line alignment of two revisions of a file to fragments
    bound to their neighbouring lines.
 */
module PatchBinding {
  import Lcs
  import opened Wrappers
  import opened Model
  import opened Text
  import opened PatchSearch

  type Line = string
  type Pairs = seq<(nat, nat)>

  /** New lines start..end of a file, zero based, and the atoms that touch them. */
  datatype Group = Group(start: nat, end: nat, atoms: set<AtomId>)

  method AlignLines(was: seq<Line>, now: seq<Line>) returns (output: Pairs)
    ensures output == Lcs.Alignment(was, now, 0, 0)
  {
    hide Lcs.Alignment, Lcs.Length;
    var table := Lcs.FillTable(was, now);
    var i: nat, j: nat := 0, 0;
    output := [];
    assert output + Lcs.Alignment(was, now, 0, 0) == Lcs.Alignment(was, now, 0, 0);
    while i < |was| && j < |now|
      invariant i <= |was| && j <= |now|
      invariant forall k :: 0 <= k <= |was| ==> Lcs.RowFilled(table, was, now, k, 0)
      invariant output + Lcs.Alignment(was, now, i, j) == Lcs.Alignment(was, now, 0, 0)
      decreases |was| - i + |now| - j
    {
      assert Lcs.RowFilled(table, was, now, i, 0) && Lcs.RowFilled(table, was, now, i + 1, 0);
      AlignStep(was, now, i, j);
      if was[i] == now[j] {
        OneMorePair(output, (i, j), Lcs.Alignment(was, now, i + 1, j + 1));
        output := output + [(i, j)];
        i, j := i + 1, j + 1;
      } else if table[i + 1, j] >= table[i, j + 1] {
        i := i + 1;
      } else {
        j := j + 1;
      }
    }
    AlignEnds(was, now, i, j);
    assert output + [] == output;
  }

  lemma AlignStep(was: seq<Line>, now: seq<Line>, i: nat, j: nat)
    requires i < |was| && j < |now|
    ensures Lcs.Alignment(was, now, i, j)
         == if was[i] == now[j] then [(i, j)] + Lcs.Alignment(was, now, i + 1, j + 1)
            else if Lcs.Length(was, now, i + 1, j) >= Lcs.Length(was, now, i, j + 1) then
              Lcs.Alignment(was, now, i + 1, j)
            else Lcs.Alignment(was, now, i, j + 1)
  {
  }

  lemma AlignEnds(was: seq<Line>, now: seq<Line>, i: nat, j: nat)
    requires i <= |was| && j <= |now| && (i == |was| || j == |now|)
    ensures Lcs.Alignment(was, now, i, j) == []
  {
  }

  lemma OneMorePair(output: Pairs, pair: (nat, nat), rest: Pairs)
    ensures output + ([pair] + rest) == output + [pair] + rest
  {
  }

  /** The old line of the last pair whose new line lies before x. */
  function LastBefore(aligned: Pairs, x: nat): Option<nat> {
    if aligned == [] then None
    else if aligned[|aligned| - 1].1 < x then Some(aligned[|aligned| - 1].0)
    else LastBefore(aligned[..|aligned| - 1], x)
  }

  /** The old line of the first pair whose new line is x or comes after it. */
  function FirstFrom(aligned: Pairs, x: nat): Option<nat> {
    if aligned == [] then None
    else if aligned[0].1 >= x then Some(aligned[0].0)
    else FirstFrom(aligned[1..], x)
  }

  function OldStart(aligned: Pairs, start: nat): nat {
    var previous := LastBefore(aligned, start);
    if previous.Some? then previous.value + 1 else 0
  }

  function OldEnd(aligned: Pairs, end: nat, oldLines: nat): nat {
    var following := FirstFrom(aligned, end);
    if following.Some? then following.value else oldLines
  }

  /** How many pairs lie in front of new line x. */
  function Below(aligned: Pairs, x: nat): (k: nat)
    ensures k <= |aligned|
    ensures k < |aligned| ==> aligned[k].1 >= x
    ensures forall i :: 0 <= i < k ==> aligned[i].1 < x
  {
    if aligned == [] || aligned[0].1 >= x then 0 else 1 + Below(aligned[1..], x)
  }

  ghost predicate Rising(aligned: Pairs) {
    forall k, l :: 0 <= k < l < |aligned| ==> aligned[k].0 < aligned[l].0 && aligned[k].1 < aligned[l].1
  }

  lemma {:induction false} BelowIs(aligned: Pairs, x: nat, k: nat)
    requires Rising(aligned) && k <= |aligned|
    requires k < |aligned| ==> x <= aligned[k].1
    requires 0 < k ==> aligned[k - 1].1 < x
    ensures Below(aligned, x) == k
    decreases |aligned|
  {
    if k > 0 {
      assert aligned[0].1 <= aligned[k - 1].1;
      assert forall i :: 0 <= i < |aligned| - 1 ==> aligned[1..][i] == aligned[i + 1];
      BelowIs(aligned[1..], x, k - 1);
    }
  }

  lemma BelowOfInit(aligned: Pairs, x: nat)
    requires Rising(aligned) && aligned != [] && x <= aligned[|aligned| - 1].1
    ensures Rising(aligned[..|aligned| - 1])
    ensures Below(aligned, x) == Below(aligned[..|aligned| - 1], x) < |aligned|
    ensures forall i :: 0 <= i < |aligned| - 1 ==> aligned[..|aligned| - 1][i] == aligned[i]
  {
    var init := aligned[..|aligned| - 1];
    assert forall i :: 0 <= i < |init| ==> init[i] == aligned[i];
    var k := Below(init, x);
    hide Below;
    assert k < |init| ==> x <= aligned[k].1;
    assert 0 < k ==> aligned[k - 1].1 < x;
    BelowIs(aligned, x, k);
  }

  lemma {:induction false} LastBeforeIs(aligned: Pairs, x: nat)
    requires Rising(aligned)
    ensures var k := Below(aligned, x); LastBefore(aligned, x) == if k == 0 then None else Some(aligned[k - 1].0)
    decreases |aligned|
  {
    hide Below;
    if aligned != [] {
      var last := aligned[|aligned| - 1];
      if last.1 < x {
        BelowIs(aligned, x, |aligned|);
      } else {
        LastBeforeIs(aligned[..|aligned| - 1], x);
        BelowOfInit(aligned, x);
      }
    }
  }

  lemma {:induction false} FirstFromIs(aligned: Pairs, x: nat)
    ensures var k := Below(aligned, x); FirstFrom(aligned, x) == if k == |aligned| then None else Some(aligned[k].0)
    decreases |aligned|
  {
    if aligned != [] && aligned[0].1 < x {
      FirstFromIs(aligned[1..], x);
    }
  }

  /** The old range of a group lies inside the old file. */
  lemma OldRange(was: seq<Line>, now: seq<Line>, aligned: Pairs, start: nat, end: nat)
    requires Lcs.IsMatching(was, now, aligned) && start <= end
    ensures OldStart(aligned, start) <= OldEnd(aligned, end, |was|) <= |was|
    ensures LastBefore(aligned, start).Some? ==> LastBefore(aligned, start).value < |was|
    ensures FirstFrom(aligned, end).Some? ==> FirstFrom(aligned, end).value < |was|
  {
    LastBeforeIs(aligned, start);
    FirstFromIs(aligned, end);
  }

  function FragmentForRange(path: string, was: seq<Line>, now: seq<Line>, aligned: Pairs, group: Group)
    : Result<PatchFragment>
    requires Lcs.IsMatching(was, now, aligned)
  {
    var start, end := group.start, group.end;
    if start > |now| || end > |now| || start >= end then Err(Invalid)
    else
      OldRange(was, now, aligned, start, end);
      var previous, following := LastBefore(aligned, start), FirstFrom(aligned, end);
      var oldStart, oldEnd := OldStart(aligned, start), OldEnd(aligned, end, |was|);
      Ok(PatchFragment(
           group.atoms, path,
           Concat(was[oldStart..oldEnd]),
           Concat(now[start..end]),
           if previous.Some? then Concat(was[previous.value..oldStart]) else "",
           if following.Some? then Concat(was[oldEnd..following.value + 1]) else ""))
  }

  // ----- grouping the atoms of one file -----

  /** The line ranges of the atoms on a path; one-based first and last lines become
      half-open zero-based ranges. */
  function RangesOf(atoms: seq<ChangeAtom>, path: string): seq<Group> {
    if atoms == [] then []
    else if atoms[0].path == path then
      var a := atoms[0];
      [Group(if a.startLine > 0 then a.startLine - 1 else 0, a.endLine, {a.id})] + RangesOf(atoms[1..], path)
    else RangesOf(atoms[1..], path)
  }

  predicate KeyAtMost(a: Group, b: Group) {
    a.start < b.start || (a.start == b.start && a.end <= b.end)
  }

  function Insert(g: Group, sorted: seq<Group>): seq<Group> {
    if sorted == [] || KeyAtMost(g, sorted[0]) then [g] + sorted
    else [sorted[0]] + Insert(g, sorted[1..])
  }

  /** The stable `sort_by_key` on (start, end). */
  function Sorted(ranges: seq<Group>): seq<Group> {
    if ranges == [] then [] else Insert(ranges[0], Sorted(ranges[1..]))
  }

  /** Add a range behind the groups, or to the last group when it touches it. */
  function AddRange(groups: seq<Group>, range: Group): seq<Group> {
    if groups != [] && range.start <= groups[|groups| - 1].end then
      var last := groups[|groups| - 1];
      groups[|groups| - 1 := Group(last.start, Lcs.Max(last.end, range.end), last.atoms + range.atoms)]
    else groups + [range]
  }

  function AddRanges(groups: seq<Group>, ranges: seq<Group>): seq<Group>
    decreases |ranges|
  {
    if ranges == [] then groups else AddRanges(AddRange(groups, ranges[0]), ranges[1..])
  }

  function GroupsFor(atoms: seq<ChangeAtom>, path: string): seq<Group> {
    AddRanges([], Sorted(RangesOf(atoms, path)))
  }

  ghost predicate InRange(ranges: seq<Group>, n: nat) {
    exists k :: 0 <= k < |ranges| && ranges[k].start <= n < ranges[k].end
  }

  /** Groups with a free line between neighbours. */
  ghost predicate Apart(groups: seq<Group>) {
    forall k :: 0 < k < |groups| ==> groups[k - 1].end < groups[k].start
  }

  ghost predicate StartsRise(ranges: seq<Group>) {
    forall k, l :: 0 <= k < l < |ranges| ==> ranges[k].start <= ranges[l].start
  }

  /** The ranges come by their first lines and then by their last ones. */
  ghost predicate KeysRise(ranges: seq<Group>) {
    forall k, l :: 0 <= k < l < |ranges| ==>
      ranges[k].start < ranges[l].start || (ranges[k].start == ranges[l].start && ranges[k].end <= ranges[l].end)
  }

  lemma {:induction false} InsertKeeps(g: Group, sorted: seq<Group>)
    requires KeysRise(sorted)
    ensures KeysRise(Insert(g, sorted))
    ensures forall x :: x in Insert(g, sorted) <==> x == g || x in sorted
    decreases |sorted|
  {
    if sorted != [] {
      var rest := sorted[1..];
      assert sorted == [sorted[0]] + rest;
      RisesRest(sorted);
      if KeyAtMost(g, sorted[0]) {
        assert forall x :: x in sorted ==> KeyAtMost(g, x);
        RisesCons(g, sorted);
      } else {
        InsertKeeps(g, rest);
        RisesCons(sorted[0], Insert(g, rest));
      }
    }
  }

  lemma RisesRest(sorted: seq<Group>)
    requires KeysRise(sorted) && sorted != []
    ensures KeysRise(sorted[1..]) && forall x :: x in sorted ==> KeyAtMost(sorted[0], x)
  {
    assert forall k :: 0 <= k < |sorted| - 1 ==> sorted[1..][k] == sorted[k + 1];
  }

  lemma RisesCons(g: Group, sorted: seq<Group>)
    requires KeysRise(sorted) && forall x :: x in sorted ==> KeyAtMost(g, x)
    ensures KeysRise([g] + sorted)
  {
    assert forall k :: 0 <= k < |sorted| ==> sorted[k] in sorted;
  }

  /** Sorting keeps the ranges and orders them. */
  lemma {:induction false} SortedKeeps(ranges: seq<Group>)
    ensures KeysRise(Sorted(ranges)) && StartsRise(Sorted(ranges))
    ensures forall x :: x in Sorted(ranges) <==> x in ranges
    decreases |ranges|
  {
    if ranges != [] {
      SortedKeeps(ranges[1..]);
      InsertKeeps(ranges[0], Sorted(ranges[1..]));
      assert ranges == [ranges[0]] + ranges[1..];
    }
  }

  lemma InRangeSnoc(groups: seq<Group>, g: Group)
    ensures forall n: nat :: InRange(groups + [g], n) <==> InRange(groups, n) || g.start <= n < g.end
  {
    var all := groups + [g];
    forall n: nat
      ensures InRange(all, n) <==> InRange(groups, n) || g.start <= n < g.end
    {
      assert all[|groups|] == g && forall k :: 0 <= k < |groups| ==> all[k] == groups[k];
      if InRange(groups, n) {
        var k :| 0 <= k < |groups| && groups[k].start <= n < groups[k].end;
        assert all[k].start <= n < all[k].end;
      }
    }
  }

  lemma AddRangeKeeps(groups: seq<Group>, range: Group)
    requires Apart(groups) && (groups != [] ==> groups[|groups| - 1].start <= range.start)
    ensures Apart(AddRange(groups, range))
    ensures AddRange(groups, range) != [] && AddRange(groups, range)[|AddRange(groups, range)| - 1].start <= range.start
    ensures forall n: nat :: InRange(AddRange(groups, range), n) <==> InRange(groups, n) || range.start <= n < range.end
  {
    if groups != [] && range.start <= groups[|groups| - 1].end {
      var init, last := groups[..|groups| - 1], groups[|groups| - 1];
      var joined := Group(last.start, Lcs.Max(last.end, range.end), last.atoms + range.atoms);
      assert groups == init + [last] && AddRange(groups, range) == init + [joined];
      InRangeSnoc(init, last);
      InRangeSnoc(init, joined);
    } else {
      InRangeSnoc(groups, range);
    }
  }

  lemma {:induction false} AddRangesKeep(groups: seq<Group>, ranges: seq<Group>)
    requires Apart(groups) && StartsRise(ranges)
    requires groups != [] && ranges != [] ==> groups[|groups| - 1].start <= ranges[0].start
    ensures Apart(AddRanges(groups, ranges))
    ensures forall n: nat :: InRange(AddRanges(groups, ranges), n) <==> InRange(groups, n) || InRange(ranges, n)
    decreases |ranges|
  {
    if ranges != [] {
      var rest := ranges[1..];
      assert forall k :: 0 <= k < |rest| ==> rest[k] == ranges[k + 1];
      AddRangeKeeps(groups, ranges[0]);
      AddRangesKeep(AddRange(groups, ranges[0]), rest);
      forall n: nat
        ensures InRange(ranges, n) <==> ranges[0].start <= n < ranges[0].end || InRange(rest, n)
      {
        if InRange(ranges, n) {
          var k :| 0 <= k < |ranges| && ranges[k].start <= n < ranges[k].end;
          assert 0 < k ==> rest[k - 1] == ranges[k];
        }
        if InRange(rest, n) {
          var k :| 0 <= k < |rest| && rest[k].start <= n < rest[k].end;
          assert ranges[k + 1] == rest[k];
        }
      }
    }
  }

  /** The groups of a file are apart and hold exactly the lines of its atoms. */
  lemma GroupsHoldAtomLines(atoms: seq<ChangeAtom>, path: string)
    ensures Apart(GroupsFor(atoms, path))
    ensures forall n: nat :: InRange(GroupsFor(atoms, path), n) <==> InRange(RangesOf(atoms, path), n)
    ensures forall n: nat :: InRange(GroupsFor(atoms, path), n) <==> OnAtomLine(atoms, path, n)
  {
    forall n: nat
      ensures InRange(RangesOf(atoms, path), n) <==> OnAtomLine(atoms, path, n)
    {
      RangesHoldAtomLines(atoms, path, n);
    }
    var ranges := RangesOf(atoms, path);
    SortedKeeps(ranges);
    var sorted := Sorted(ranges);
    assert forall k :: 0 <= k < |sorted| ==> sorted[k] in ranges;
    AddRangesKeep([], sorted);
    SameMembersSameLines(sorted, ranges);
  }

  /** An atom of the file touches zero-based line n. Line numbers of atoms start at one,
      and both ends count. */
  ghost predicate OnAtomLine(atoms: seq<ChangeAtom>, path: string, n: nat) {
    exists a :: a in atoms && a.path == path && a.startLine <= n + 1 <= a.endLine
  }

  lemma {:induction false} RangesHoldAtomLines(atoms: seq<ChangeAtom>, path: string, n: nat)
    ensures InRange(RangesOf(atoms, path), n) <==> OnAtomLine(atoms, path, n)
    decreases |atoms|
  {
    if atoms != [] {
      var first, rest := atoms[0], atoms[1..];
      assert atoms == [first] + rest;
      RangesHoldAtomLines(rest, path, n);
      if first.path == path {
        var g := Group(if first.startLine > 0 then first.startLine - 1 else 0, first.endLine, {first.id});
        InRangeCons(g, RangesOf(rest, path), n);
      }
    }
  }

  lemma InRangeCons(g: Group, ranges: seq<Group>, n: nat)
    ensures InRange([g] + ranges, n) <==> g.start <= n < g.end || InRange(ranges, n)
  {
    var all := [g] + ranges;
    assert all[0] == g && forall k :: 0 <= k < |ranges| ==> all[k + 1] == ranges[k];
    if InRange(all, n) {
      var k :| 0 <= k < |all| && all[k].start <= n < all[k].end;
      assert k > 0 ==> all[k] == ranges[k - 1];
    }
    if InRange(ranges, n) {
      var k :| 0 <= k < |ranges| && ranges[k].start <= n < ranges[k].end;
      assert all[k + 1].start <= n < all[k + 1].end;
    }
  }

  lemma SameMembersSameLines(a: seq<Group>, b: seq<Group>)
    requires forall x :: x in a <==> x in b
    ensures forall n: nat :: InRange(a, n) <==> InRange(b, n)
  {
    MembersHoldLines(a, b);
    MembersHoldLines(b, a);
  }

  lemma MembersHoldLines(a: seq<Group>, b: seq<Group>)
    requires forall x :: x in a ==> x in b
    ensures forall n: nat :: InRange(a, n) ==> InRange(b, n)
  {
    forall n: nat | InRange(a, n)
      ensures InRange(b, n)
    {
      var k :| 0 <= k < |a| && a[k].start <= n < a[k].end;
      assert a[k] in b;
    }
  }

  // ----- binding -----

  function BindGroups(path: string, was: seq<Line>, now: seq<Line>, aligned: Pairs, groups: seq<Group>)
    : Result<seq<PatchFragment>>
    requires Lcs.IsMatching(was, now, aligned)
  {
    if groups == [] then Ok([])
    else
      var first := FragmentForRange(path, was, now, aligned, groups[0]);
      if first.Err? then Err(first.error)
      else
        var rest := BindGroups(path, was, now, aligned, groups[1..]);
        if rest.Err? then rest else Ok([first.value] + rest.value)
  }

  function BindChange(atoms: seq<ChangeAtom>, change: FileChange): Result<seq<PatchFragment>> {
    var was, now := SplitLines(change.oldContent), SplitLines(change.newContent);
    Lcs.AlignmentIsLongest(was, now);
    BindGroups(change.path, was, now, Lcs.Alignment(was, now, 0, 0), GroupsFor(atoms, change.path))
  }

  function BindChanges(atoms: seq<ChangeAtom>, changes: seq<FileChange>): Result<seq<PatchFragment>> {
    if changes == [] then Ok([])
    else
      var first := BindChange(atoms, changes[0]);
      if first.Err? then first
      else
        var rest := BindChanges(atoms, changes[1..]);
        if rest.Err? then rest else Ok(first.value + rest.value)
  }

  function CoveredAtoms(patches: seq<PatchFragment>): set<AtomId> {
    set p, a | p in patches && a in p.atoms :: a
  }

  /** Every atom of the pull request must end up in a fragment. */
  function BindSpec(atoms: seq<ChangeAtom>, changes: seq<FileChange>): Result<seq<PatchFragment>> {
    var patches := BindChanges(atoms, changes);
    if patches.Err? then patches
    else if CoveredAtoms(patches.value) != AtomIds(atoms) then Err(Invalid)
    else patches
  }

  method BindPatches(atoms: seq<ChangeAtom>, changes: seq<FileChange>) returns (result: Result<seq<PatchFragment>>)
    ensures result == BindSpec(atoms, changes)
  {
    var patches: seq<PatchFragment> := [];
    var i := 0;
    assert changes[0..] == changes;
    BehindNothing(BindChanges(atoms, changes));
    while i < |changes|
      invariant 0 <= i <= |changes|
      invariant BindChanges(atoms, changes) == Behind(patches, BindChanges(atoms, changes[i..]))
    {
      var change := changes[i];
      assert changes[i..][0] == change && changes[i..][1..] == changes[i + 1..];
      var ranges := RangesOf(atoms, change.path);
      if ranges != [] {
        var was, now := SplitLines(change.oldContent), SplitLines(change.newContent);
        var aligned := AlignLines(was, now);
        Lcs.AlignmentIsLongest(was, now);
        var groups: seq<Group> := [];
        var sorted := Sorted(ranges);
        assert sorted[0..] == sorted;
        for k := 0 to |sorted|
          invariant AddRanges(groups, sorted[k..]) == GroupsFor(atoms, change.path)
        {
          assert sorted[k..][0] == sorted[k] && sorted[k..][1..] == sorted[k + 1..];
          groups := AddRange(groups, sorted[k]);
        }
        var fragments := BindGroups(change.path, was, now, aligned, groups);
        if fragments.Err? {
          return fragments;
        }
        BehindStep(patches, fragments.value, BindChanges(atoms, changes[i + 1..]));
        patches := patches + fragments.value;
      } else {
        assert GroupsFor(atoms, change.path) == [];
        BehindStep(patches, [], BindChanges(atoms, changes[i + 1..]));
        assert patches + [] == patches;
      }
      i := i + 1;
    }
    assert patches + [] == patches;
    if CoveredAtoms(patches) != AtomIds(atoms) {
      return Err(Invalid);
    }
    return Ok(patches);
  }

  ghost function Behind(patches: seq<PatchFragment>, rest: Result<seq<PatchFragment>>): Result<seq<PatchFragment>> {
    if rest.Err? then rest else Ok(patches + rest.value)
  }

  lemma BehindNothing(rest: Result<seq<PatchFragment>>)
    ensures Behind([], rest) == rest
  {
    if rest.Ok? {
      assert [] + rest.value == rest.value;
    }
  }

  lemma BehindStep(patches: seq<PatchFragment>, more: seq<PatchFragment>, rest: Result<seq<PatchFragment>>)
    ensures Behind(patches, Behind(more, rest)) == Behind(patches + more, rest)
  {
    if rest.Ok? {
      assert patches + (more + rest.value) == patches + more + rest.value;
    }
  }
}
