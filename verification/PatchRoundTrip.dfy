/** Groups of lines that cover a file: under which coverage they rebuild the new
    revision, and the text around and between the fragments that are bound to them.
 */
module PatchRoundTrip {
  import Lcs
  import opened Text
  import opened PatchSearch
  import opened PatchBinding
  import opened Weave

  ghost predicate NewAligned(aligned: Pairs, n: nat) {
    exists i :: 0 <= i < |aligned| && aligned[i].1 == n
  }

  ghost predicate OldAligned(aligned: Pairs, o: nat) {
    exists i :: 0 <= i < |aligned| && aligned[i].0 == o
  }

  ghost predicate InOldRange(aligned: Pairs, groups: seq<Group>, oldLines: nat, o: nat) {
    exists k :: 0 <= k < |groups| && OldStart(aligned, groups[k].start) <= o < OldEnd(aligned, groups[k].end, oldLines)
  }

  /** Non-empty groups of new lines. */
  ghost predicate InFile(groups: seq<Group>, newLines: nat) {
    forall k :: 0 <= k < |groups| ==> groups[k].start < groups[k].end <= newLines
  }

  /** Non-empty groups of new lines, in order and disjoint. */
  ghost predicate Rows(groups: seq<Group>, newLines: nat) {
    && InFile(groups, newLines)
    && (forall k, l :: 0 <= k < l < |groups| ==> groups[k].end <= groups[l].start)
  }

  /** The same with a line between neighbours. */
  ghost predicate Grouped(groups: seq<Group>, newLines: nat) {
    && InFile(groups, newLines)
    && (forall k, l :: 0 <= k < l < |groups| ==> groups[k].end < groups[l].start)
  }

  /** From old line o and new line n on, every line that the groups leave alone is
      aligned: new lines outside the groups, old lines outside their old ranges. */
  ghost predicate Covered(was: seq<Line>, now: seq<Line>, aligned: Pairs, groups: seq<Group>, o: nat, n: nat) {
    && (forall m :: n <= m < |now| ==> NewAligned(aligned, m) || InRange(groups, m))
    && (forall q :: o <= q < |was| ==> OldAligned(aligned, q) || InOldRange(aligned, groups, |was|, q))
  }

  /** The first k pairs lie before old line o and new line n, the others from there on. */
  ghost predicate At(was: seq<Line>, now: seq<Line>, aligned: Pairs, k: nat, o: nat, n: nat) {
    && Lcs.IsMatching(was, now, aligned)
    && k <= |aligned| && o <= |was| && n <= |now|
    && (forall i :: 0 <= i < k ==> aligned[i].0 < o && aligned[i].1 < n)
    && (forall i :: k <= i < |aligned| ==> o <= aligned[i].0 && n <= aligned[i].1)
  }

  /** An aligned new line before every group has the next old line as its partner. */
  lemma NextPair(was: seq<Line>, now: seq<Line>, aligned: Pairs, groups: seq<Group>, k: nat, o: nat, n: nat)
    requires At(was, now, aligned, k, o, n) && Covered(was, now, aligned, groups, o, n) && n < |now|
    requires forall j :: 0 <= j < |groups| ==> n < groups[j].start
    ensures k < |aligned| && aligned[k] == (o, n)
    ensures At(was, now, aligned, k + 1, o + 1, n + 1)
  {
    assert NewAligned(aligned, n);
    var i :| 0 <= i < |aligned| && aligned[i].1 == n;
    assert forall l :: k < l < |aligned| ==> aligned[k].1 < aligned[l].1;
    assert i == k;
    if o < aligned[k].0 {
      assert !OldAligned(aligned, o) by {
        assert forall l :: k < l < |aligned| ==> aligned[k].0 < aligned[l].0;
      }
      var j :| 0 <= j < |groups| && OldStart(aligned, groups[j].start) <= o < OldEnd(aligned, groups[j].end, |was|);
      StartsBehind(aligned, k, groups[j].start);
      assert false;
    }
  }

  lemma StartsBehind(aligned: Pairs, k: nat, start: nat)
    requires Rising(aligned) && k < |aligned| && aligned[k].1 < start
    ensures aligned[k].0 < OldStart(aligned, start)
  {
    LastBeforeIs(aligned, start);
    var b := Below(aligned, start);
    assert k < b - 1 ==> aligned[k].0 < aligned[b - 1].0;
  }

  /** Between two groups the old and the new lines are the same. */
  lemma {:induction false} GapWalk(was: seq<Line>, now: seq<Line>, aligned: Pairs, groups: seq<Group>,
                                   k: nat, o: nat, n: nat, s: nat)
    requires At(was, now, aligned, k, o, n) && Covered(was, now, aligned, groups, o, n) && n <= s <= |now|
    requires forall j :: 0 <= j < |groups| ==> s <= groups[j].start
    ensures o + s - n <= |was| && At(was, now, aligned, k + s - n, o + s - n, s)
    ensures was[o..o + s - n] == now[n..s]
    ensures n < s ==> aligned[k + s - n - 1] == (o + s - n - 1, s - 1)
    decreases s - n
  {
    if n < s {
      NextPair(was, now, aligned, groups, k, o, n);
      GapWalk(was, now, aligned, groups, k + 1, o + 1, n + 1, s);
      assert was[o..o + s - n] == [was[o]] + was[o + 1..o + s - n];
      assert now[n..s] == [now[n]] + now[n + 1..s];
    }
  }

  /** Old ranges of the groups, in order and disjoint, from old line o on. */
  ghost predicate Ordered(aligned: Pairs, groups: seq<Group>, oldLines: nat, o: nat) {
    if groups == [] then o <= oldLines
    else
      && o <= OldStart(aligned, groups[0].start) <= OldEnd(aligned, groups[0].end, oldLines) <= oldLines
      && Ordered(aligned, groups[1..], oldLines, OldEnd(aligned, groups[0].end, oldLines))
  }

  /** The old lines from o on with every old range replaced by its group's new lines. */
  ghost function Rebuilt(was: seq<Line>, now: seq<Line>, aligned: Pairs, groups: seq<Group>, o: nat): seq<Line>
    requires Rows(groups, |now|) && Ordered(aligned, groups, |was|, o)
    decreases |groups|
  {
    if groups == [] then was[o..]
    else
      var s, e := groups[0].start, groups[0].end;
      was[o..OldStart(aligned, s)] + now[s..e] + Rebuilt(was, now, aligned, groups[1..], OldEnd(aligned, e, |was|))
  }

  /** A point of the file from which the remaining groups are still to be rebuilt. */
  ghost predicate Ready(was: seq<Line>, now: seq<Line>, aligned: Pairs, groups: seq<Group>, k: nat, o: nat, n: nat) {
    && At(was, now, aligned, k, o, n) && Covered(was, now, aligned, groups, o, n) && Rows(groups, |now|)
    && (groups != [] ==> n <= groups[0].start)
  }

  /** Unless the next group takes old lines from in front of this point, what lies
      between is the same in both files. */
  lemma GapBefore(was: seq<Line>, now: seq<Line>, aligned: Pairs, groups: seq<Group>, k: nat, o: nat, n: nat)
    requires Ready(was, now, aligned, groups, k, o, n) && groups != []
    ensures
      var s, oldStart := groups[0].start, OldStart(aligned, groups[0].start);
      && (n < s ==> o <= oldStart)
      && (o <= oldStart ==> oldStart == o + s - n <= |was| && was[o..oldStart] == now[n..s])
  {
    hide NewAligned, OldAligned, OldStart, LastBefore, Covered;
    var s := groups[0].start;
    assert forall j :: 0 <= j < |groups| ==> s <= groups[j].start;
    GapWalk(was, now, aligned, groups, k, o, n, s);
    if n < s {
      PairBefore(was, now, aligned, k + s - n, o + s - n, s);
    } else {
      NoPairBetween(was, now, aligned, k, o, n);
    }
  }

  lemma PairBefore(was: seq<Line>, now: seq<Line>, aligned: Pairs, k: nat, o: nat, s: nat)
    requires At(was, now, aligned, k, o, s) && 0 < k && aligned[k - 1] == (o - 1, s - 1)
    ensures OldStart(aligned, s) == o
  {
    BelowIs(aligned, s, k);
    LastBeforeIs(aligned, s);
    hide LastBefore, Below;
  }

  lemma NoPairBetween(was: seq<Line>, now: seq<Line>, aligned: Pairs, k: nat, o: nat, n: nat)
    requires At(was, now, aligned, k, o, n)
    ensures OldStart(aligned, n) <= o
  {
    BelowIs(aligned, n, k);
    LastBeforeIs(aligned, n);
    hide LastBefore, Below;
  }

  /** Behind a group the rest is ready again. */
  lemma AfterGroup(was: seq<Line>, now: seq<Line>, aligned: Pairs, groups: seq<Group>, k: nat, o: nat, n: nat)
    requires Ready(was, now, aligned, groups, k, o, n) && groups != []
    ensures
      var e, oldEnd := groups[0].end, OldEnd(aligned, groups[0].end, |was|);
      && OldStart(aligned, groups[0].start) <= oldEnd <= |was| && o <= oldEnd
      && Ready(was, now, aligned, groups[1..], Below(aligned, e), oldEnd, e)
  {
    var e := groups[0].end;
    OldRange(was, now, aligned, groups[0].start, e);
    EndsBehind(was, now, aligned, k, o, n, e);
    PastGroup(was, now, aligned, e);
    RestCovered(was, now, aligned, groups, o, n);
    hide Covered, OldStart, OldEnd, Below;
  }

  lemma EndsBehind(was: seq<Line>, now: seq<Line>, aligned: Pairs, k: nat, o: nat, n: nat, e: nat)
    requires At(was, now, aligned, k, o, n) && n <= e
    ensures o <= OldEnd(aligned, e, |was|)
  {
    FirstFromIs(aligned, e);
    hide FirstFrom;
  }

  lemma RestCovered(was: seq<Line>, now: seq<Line>, aligned: Pairs, groups: seq<Group>, o: nat, n: nat)
    requires Covered(was, now, aligned, groups, o, n) && groups != [] && n <= groups[0].end
    requires o <= OldEnd(aligned, groups[0].end, |was|)
    ensures Covered(was, now, aligned, groups[1..], OldEnd(aligned, groups[0].end, |was|), groups[0].end)
  {
    hide NewAligned, OldAligned, OldStart;
    var rest := groups[1..];
    assert forall j :: 0 <= j < |rest| ==> rest[j] == groups[j + 1];
  }

  /** One group further, when it takes no old line from in front of this point. */
  lemma NextGroup(was: seq<Line>, now: seq<Line>, aligned: Pairs, groups: seq<Group>, k: nat, o: nat, n: nat)
    requires Ready(was, now, aligned, groups, k, o, n) && groups != [] && o <= OldStart(aligned, groups[0].start)
    ensures
      var s, e := groups[0].start, groups[0].end;
      var oldStart, oldEnd := OldStart(aligned, s), OldEnd(aligned, e, |was|);
      && n <= s && o <= oldStart <= oldEnd <= |was|
      && was[o..oldStart] == now[n..s]
      && Ready(was, now, aligned, groups[1..], Below(aligned, e), oldEnd, e)
  {
    hide Ready, OldStart, OldEnd, Below;
    GapBefore(was, now, aligned, groups, k, o, n);
    AfterGroup(was, now, aligned, groups, k, o, n);
  }

  lemma PastGroup(was: seq<Line>, now: seq<Line>, aligned: Pairs, e: nat)
    requires Lcs.IsMatching(was, now, aligned) && e <= |now| && OldEnd(aligned, e, |was|) <= |was|
    ensures At(was, now, aligned, Below(aligned, e), OldEnd(aligned, e, |was|), e)
  {
    var k := Below(aligned, e);
    FirstFromIs(aligned, e);
    hide FirstFrom, Below;
    assert k < |aligned| ==> forall i :: 0 <= i < k ==> aligned[i].0 < aligned[k].0;
    assert k < |aligned| ==> forall i :: k < i < |aligned| ==>
        aligned[k].0 < aligned[i].0 && aligned[k].1 < aligned[i].1;
  }

  /** After the last group the rest of the two files is the same. */
  lemma NoGroups(was: seq<Line>, now: seq<Line>, aligned: Pairs, k: nat, o: nat, n: nat)
    requires Ready(was, now, aligned, [], k, o, n)
    ensures was[o..] == now[n..]
  {
    GapWalk(was, now, aligned, [], k, o, n, |now|);
    var o' := o + |now| - n;
    assert forall i :: 0 <= i < |aligned| ==> aligned[i].1 < |now|;
    assert forall i :: 0 <= i < |aligned| ==> aligned[i].0 < o';
    assert !OldAligned(aligned, o') && !InOldRange(aligned, [], |was|, o');
    assert o' == |was|;
    assert was[o..] == was[o..o'] && now[n..] == now[n..|now|];
  }

  lemma ThreeParts(now: seq<Line>, n: nat, s: nat, e: nat)
    requires n <= s <= e <= |now|
    ensures now[n..s] + now[s..e] + now[e..] == now[n..]
  {
  }

  /** When the old ranges are ordered and disjoint, replacing each by its group gives
      exactly the new lines. */
  lemma {:induction false} RebuildsNew(was: seq<Line>, now: seq<Line>, aligned: Pairs, groups: seq<Group>,
                                       k: nat, o: nat, n: nat)
    requires Ready(was, now, aligned, groups, k, o, n) && Ordered(aligned, groups, |was|, o)
    ensures Rebuilt(was, now, aligned, groups, o) == now[n..]
    decreases |groups|
  {
    if groups == [] {
      NoGroups(was, now, aligned, k, o, n);
    } else {
      var s, e := groups[0].start, groups[0].end;
      NextGroup(was, now, aligned, groups, k, o, n);
      RebuildsNew(was, now, aligned, groups[1..], Below(aligned, e), OldEnd(aligned, e, |was|), e);
      hide Ready, OldStart, OldEnd, LastBefore, Rows;
      ThreeParts(now, n, s, e);
    }
  }

  // ----- when old ranges are apart -----

  /** An aligned line among new lines x to y. */
  ghost predicate AlignedBetween(aligned: Pairs, x: nat, y: nat) {
    exists n :: x <= n < y && NewAligned(aligned, n)
  }

  /** What ends at new line x and what begins at new line y leave an old line between
      them if and only if a new line between them is aligned. */
  lemma OldLineBetweenIff(was: seq<Line>, now: seq<Line>, aligned: Pairs, x: nat, y: nat)
    requires Lcs.IsMatching(was, now, aligned)
    ensures OldEnd(aligned, x, |was|) < OldStart(aligned, y) <==> AlignedBetween(aligned, x, y)
  {
    hide AlignedBetween, FirstFrom, LastBefore, Below;
    FirstFromIs(aligned, x);
    LastBeforeIs(aligned, y);
    var i, j := Below(aligned, x), Below(aligned, y);
    BelowBelow(aligned, x, y);
    PairsBetween(aligned, i, j, |was|);
  }

  lemma PairsBetween(aligned: Pairs, i: nat, j: nat, oldLines: nat)
    requires Rising(aligned) && i <= |aligned| && j <= |aligned|
    requires forall k :: 0 <= k < |aligned| ==> aligned[k].0 < oldLines
    ensures (if i == |aligned| then oldLines else aligned[i].0) < (if j == 0 then 0 else aligned[j - 1].0 + 1)
        <==> i < j
  {
  }

  lemma BelowBelow(aligned: Pairs, x: nat, y: nat)
    requires Rising(aligned)
    ensures Below(aligned, x) < Below(aligned, y) <==> AlignedBetween(aligned, x, y)
  {
    var i, j := Below(aligned, x), Below(aligned, y);
    if i < j {
      assert NewAligned(aligned, aligned[i].1);
    }
    if n :| x <= n < y && NewAligned(aligned, n) {
      var l :| 0 <= l < |aligned| && aligned[l].1 == n;
      assert i <= l;
      BelowIsBehind(aligned, y, l);
    }
  }

  lemma BelowRises(aligned: Pairs, x: nat, y: nat)
    requires Rising(aligned) && x <= y
    ensures Below(aligned, x) <= Below(aligned, y)
    ensures forall i, j :: 0 <= i <= j < |aligned| ==> aligned[i].0 <= aligned[j].0
  {
  }

  lemma BelowIsBehind(aligned: Pairs, y: nat, l: nat)
    requires Rising(aligned) && l < |aligned| && aligned[l].1 < y
    ensures l < Below(aligned, y)
  {
  }

  /** Neighbouring groups leave an old line between their old ranges. */
  ghost predicate Spaced(aligned: Pairs, groups: seq<Group>, oldLines: nat) {
    forall k :: 0 < k < |groups| ==> OldEnd(aligned, groups[k - 1].end, oldLines) < OldStart(aligned, groups[k].start)
  }

  /** In a covered file a line between neighbouring groups is aligned, so their old
      ranges are spaced. */
  lemma GroupedIsSpaced(was: seq<Line>, now: seq<Line>, aligned: Pairs, groups: seq<Group>)
    requires Lcs.IsMatching(was, now, aligned) && Grouped(groups, |now|) && Covered(was, now, aligned, groups, 0, 0)
    ensures Spaced(aligned, groups, |was|)
  {
    hide OldStart, OldEnd, NewAligned, OldAligned;
    forall k | 0 < k < |groups|
      ensures OldEnd(aligned, groups[k - 1].end, |was|) < OldStart(aligned, groups[k].start)
    {
      FreeBetween(groups, |now|, k);
      assert NewAligned(aligned, groups[k - 1].end);
      OldLineBetweenIff(was, now, aligned, groups[k - 1].end, groups[k].start);
    }
  }

  lemma FreeBetween(groups: seq<Group>, newLines: nat, k: nat)
    requires Grouped(groups, newLines) && 0 < k < |groups|
    ensures groups[k - 1].end < groups[k].start <= newLines && !InRange(groups, groups[k - 1].end)
  {
    forall j | 0 <= j < |groups|
      ensures !(groups[j].start <= groups[k - 1].end < groups[j].end)
    {
      assert j < k - 1 ==> groups[j].end < groups[k - 1].start;
      assert k < j ==> groups[k].end < groups[j].start;
    }
  }

  /** No old line of a group lies in the old range of the group in front of it. */
  ghost predicate NoneTwice(aligned: Pairs, groups: seq<Group>, oldLines: nat) {
    forall k :: 0 < k < |groups| ==> OldEnd(aligned, groups[k - 1].end, oldLines) <= OldStart(aligned, groups[k].start)
  }

  lemma {:induction false} OrderedIff(was: seq<Line>, now: seq<Line>, aligned: Pairs, groups: seq<Group>, o: nat)
    requires Lcs.IsMatching(was, now, aligned) && InFile(groups, |now|)
    ensures Ordered(aligned, groups, |was|, o)
       <==> && NoneTwice(aligned, groups, |was|)
            && if groups == [] then o <= |was| else o <= OldStart(aligned, groups[0].start)
    decreases |groups|
  {
    hide OldStart, OldEnd;
    if groups != [] {
      var rest := groups[1..];
      assert forall j :: 0 <= j < |rest| ==> rest[j] == groups[j + 1];
      assert forall j :: 0 < j < |groups| ==> groups[j] == rest[j - 1];
      OldRange(was, now, aligned, groups[0].start, groups[0].end);
      OrderedIff(was, now, aligned, rest, OldEnd(aligned, groups[0].end, |was|));
      NoneTwiceRest(aligned, groups, |was|);
      hide NoneTwice;
    }
  }

  lemma NoneTwiceRest(aligned: Pairs, groups: seq<Group>, oldLines: nat)
    requires groups != []
    ensures NoneTwice(aligned, groups, oldLines)
       <==> && NoneTwice(aligned, groups[1..], oldLines)
            && (|groups| > 1 ==> OldEnd(aligned, groups[0].end, oldLines) <= OldStart(aligned, groups[1].start))
  {
    hide OldStart, OldEnd;
    var rest := groups[1..];
    assert forall j :: 0 <= j < |rest| ==> rest[j] == groups[j + 1];
    if NoneTwice(aligned, rest, oldLines) {
      forall k | 1 < k < |groups|
        ensures OldEnd(aligned, groups[k - 1].end, oldLines) <= OldStart(aligned, groups[k].start)
      {
        assert rest[k - 1] == groups[k] && rest[k - 2] == groups[k - 1];
      }
    }
  }

  // ----- the fragments in the text -----

  /** The fragment bound to a group. */
  ghost function Bound(path: string, was: seq<Line>, now: seq<Line>, aligned: Pairs, group: Group): PatchFragment
    requires Lcs.IsMatching(was, now, aligned) && group.start < group.end <= |now|
  {
    FragmentForRange(path, was, now, aligned, group).value
  }

  ghost function BoundAll(path: string, was: seq<Line>, now: seq<Line>, aligned: Pairs,
                          groups: seq<Group>): (patches: seq<PatchFragment>)
    requires Lcs.IsMatching(was, now, aligned)
    requires InFile(groups, |now|)
    ensures |patches| == |groups|
  {
    if groups == [] then []
    else [Bound(path, was, now, aligned, groups[0])] + BoundAll(path, was, now, aligned, groups[1..])
  }

  lemma BoundAllFirst(path: string, was: seq<Line>, now: seq<Line>, aligned: Pairs, groups: seq<Group>)
    requires Lcs.IsMatching(was, now, aligned) && InFile(groups, |now|) && groups != []
    ensures InFile(groups[1..], |now|)
    ensures BoundAll(path, was, now, aligned, groups)
         == [Bound(path, was, now, aligned, groups[0])] + BoundAll(path, was, now, aligned, groups[1..])
  {
  }

  lemma {:induction false} BoundAllAt(path: string, was: seq<Line>, now: seq<Line>, aligned: Pairs, groups: seq<Group>,
                                      k: nat)
    requires Lcs.IsMatching(was, now, aligned) && k < |groups|
    requires InFile(groups, |now|)
    ensures BoundAll(path, was, now, aligned, groups)[k] == Bound(path, was, now, aligned, groups[k])
  {
    if 0 < k {
      BoundAllAt(path, was, now, aligned, groups[1..], k - 1);
    }
  }

  lemma ConcatSingle(line: Line)
    ensures Concat([line]) == line
  {
    assert Concat([line]) == line + Concat([]);
    assert line + "" == line;
  }

  ghost predicate NoEmptyLine(lines: seq<Line>) {
    forall k :: 0 <= k < |lines| ==> lines[k] != ""
  }

  function LineBefore(lines: seq<Line>, i: nat): Line {
    if 0 < i <= |lines| then lines[i - 1] else ""
  }

  function LineFrom(lines: seq<Line>, i: nat): Line {
    if i < |lines| then lines[i] else ""
  }

  /** The contexts that a fragment is bound with. */
  lemma BoundWith(path: string, was: seq<Line>, now: seq<Line>, aligned: Pairs, group: Group)
    requires Lcs.IsMatching(was, now, aligned) && group.start < group.end <= |now|
    ensures OldStart(aligned, group.start) <= OldEnd(aligned, group.end, |was|) <= |was|
    ensures
      var patch := Bound(path, was, now, aligned, group);
      var oldStart, oldEnd := OldStart(aligned, group.start), OldEnd(aligned, group.end, |was|);
      && patch.before == Concat(was[oldStart..oldEnd]) && patch.after == Concat(now[group.start..group.end])
      && patch.beforeContext == LineBefore(was, oldStart) && patch.afterContext == LineFrom(was, oldEnd)
  {
    OldRange(was, now, aligned, group.start, group.end);
    RangesOfBound(path, was, now, aligned, group);
    hide LastBefore, FirstFrom, Concat, Bound, Lcs.IsMatching;
    ConcatLine(was, OldStart(aligned, group.start) - 1);
    ConcatLine(was, OldEnd(aligned, group.end, |was|));
  }

  lemma RangesOfBound(path: string, was: seq<Line>, now: seq<Line>, aligned: Pairs, group: Group)
    requires Lcs.IsMatching(was, now, aligned) && group.start < group.end <= |now|
    requires OldStart(aligned, group.start) <= OldEnd(aligned, group.end, |was|) <= |was|
    ensures
      var patch := Bound(path, was, now, aligned, group);
      var oldStart, oldEnd := OldStart(aligned, group.start), OldEnd(aligned, group.end, |was|);
      && patch.before == Concat(was[oldStart..oldEnd]) && patch.after == Concat(now[group.start..group.end])
      && patch.beforeContext == (if oldStart == 0 then "" else Concat(was[oldStart - 1..oldStart]))
      && patch.afterContext == (if oldEnd == |was| then "" else Concat(was[oldEnd..oldEnd + 1]))
  {
    OldRange(was, now, aligned, group.start, group.end);
    hide LastBefore, FirstFrom, Concat, Lcs.IsMatching;
  }

  lemma ConcatLine(lines: seq<Line>, i: int)
    ensures 0 <= i < |lines| ==> Concat(lines[i..i + 1]) == lines[i]
  {
    if 0 <= i < |lines| {
      assert lines[i..i + 1] == [lines[i]];
      ConcatSingle(lines[i]);
    }
  }

  /** Two groups are bound to the same old lines if and only if no line in or between
      them is aligned; their fragments then have the same region and neighbours. */
  lemma NeighboursShareRange(path: string, was: seq<Line>, now: seq<Line>, aligned: Pairs, one: Group, other: Group)
    requires Lcs.IsMatching(was, now, aligned)
    requires one.start < one.end <= other.start < other.end <= |now|
    ensures
      var a, b := Bound(path, was, now, aligned, one), Bound(path, was, now, aligned, other);
      var same := OldStart(aligned, one.start) == OldStart(aligned, other.start)
                  && OldEnd(aligned, one.end, |was|) == OldEnd(aligned, other.end, |was|);
      && (same <==> !AlignedBetween(aligned, one.start, other.end))
      && (same ==> a.before == b.before && a.beforeContext == b.beforeContext && a.afterContext == b.afterContext)
  {
    hide Bound, OldStart, OldEnd, Concat, AlignedBetween;
    SameOldRangeIff(was, now, aligned, one.start, other.start);
    SameOldRangeIff(was, now, aligned, one.end, other.end);
    BetweenJoins(aligned, one.start, one.end, other.start, other.end);
    BoundWith(path, was, now, aligned, one);
    BoundWith(path, was, now, aligned, other);
  }

  lemma BetweenJoins(aligned: Pairs, x: nat, y: nat, z: nat, w: nat)
    requires x <= y <= z <= w
    ensures AlignedBetween(aligned, x, w) <==> AlignedBetween(aligned, x, z) || AlignedBetween(aligned, y, w)
  {
    hide NewAligned;
  }

  lemma SameOldRangeIff(was: seq<Line>, now: seq<Line>, aligned: Pairs, x: nat, y: nat)
    requires Lcs.IsMatching(was, now, aligned) && x <= y
    ensures OldStart(aligned, x) == OldStart(aligned, y) <==> !AlignedBetween(aligned, x, y)
    ensures OldEnd(aligned, x, |was|) == OldEnd(aligned, y, |was|) <==> !AlignedBetween(aligned, x, y)
  {
    hide AlignedBetween, FirstFrom, LastBefore, Below;
    LastBeforeIs(aligned, x);
    LastBeforeIs(aligned, y);
    FirstFromIs(aligned, x);
    FirstFromIs(aligned, y);
    BelowBelow(aligned, x, y);
    BelowRises(aligned, x, y);
    PairsDiffer(aligned, Below(aligned, x), Below(aligned, y), |was|);
  }

  lemma PairsDiffer(aligned: Pairs, i: nat, j: nat, oldLines: nat)
    requires Rising(aligned) && i <= j <= |aligned|
    requires forall k :: 0 <= k < |aligned| ==> aligned[k].0 < oldLines
    ensures i < j <==>
        (if i == 0 then 0 else aligned[i - 1].0 + 1) != (if j == 0 then 0 else aligned[j - 1].0 + 1)
    ensures i < j <==>
        (if i == |aligned| then oldLines else aligned[i].0) != (if j == |aligned| then oldLines else aligned[j].0)
  {
  }

  lemma EndOfLines(lines: seq<Line>)
    requires lines != []
    ensures EndsWith(Concat(lines), lines[|lines| - 1]) && StartsWith(Concat(lines), lines[0])
  {
    var init, last := lines[..|lines| - 1], lines[|lines| - 1];
    assert lines == init + [last];
    ConcatOne(init, last);
    assert Concat(lines) == lines[0] + Concat(lines[1..]);
    hide Concat;
    EndsWithItself(Concat(init), last);
    assert (lines[0] + Concat(lines[1..]))[..|lines[0]|] == lines[0];
  }

  lemma EmptyContext(s: string)
    ensures EndsWith(s, "") && StartsWith(s, "")
  {
  }

  lemma CutTwice(lines: seq<Line>, i: nat, j: nat, k: nat)
    requires i <= j <= k <= |lines|
    ensures Concat(lines[i..]) == Concat(lines[i..j]) + Concat(lines[j..k]) + Concat(lines[k..])
  {
    hide Concat;
    ConcatAppend(lines[i..j], lines[j..k]);
    ConcatAppend(lines[i..j] + lines[j..k], lines[k..]);
    ThreeParts(lines, i, j, k);
  }

  /** A fragment matches, contexts included, where it was bound in the old text, and
      putting it there replaces the old range by the new lines and nothing else. */
  lemma BoundFitsOldText(path: string, was: seq<Line>, now: seq<Line>, aligned: Pairs, group: Group)
    requires Lcs.IsMatching(was, now, aligned) && group.start < group.end <= |now|
    ensures OldStart(aligned, group.start) <= OldEnd(aligned, group.end, |was|) <= |was|
    ensures
      var patch := Bound(path, was, now, aligned, group);
      var front := Concat(was[..OldStart(aligned, group.start)]);
      var back := Concat(was[OldEnd(aligned, group.end, |was|)..]);
      && Concat(was) == front + patch.before + back
      && patch.after == Concat(now[group.start..group.end])
      && Matches(Concat(was), patch, |front|)
      && Splice(Concat(was), patch, |front|) == front + patch.after + back
      && (NoEmptyLine(was) && patch.beforeContext == "" ==> front == "")
  {
    hide Bound, OldStart, OldEnd, Matches, Splice, Lcs.IsMatching, Concat;
    BoundWith(path, was, now, aligned, group);
    FitsBetween(was, OldStart(aligned, group.start), OldEnd(aligned, group.end, |was|),
        Bound(path, was, now, aligned, group));
  }

  lemma FitsBetween(was: seq<Line>, oldStart: nat, oldEnd: nat, patch: PatchFragment)
    requires oldStart <= oldEnd <= |was| && patch.before == Concat(was[oldStart..oldEnd])
    requires patch.beforeContext == LineBefore(was, oldStart) && patch.afterContext == LineFrom(was, oldEnd)
    ensures
      var front, back := Concat(was[..oldStart]), Concat(was[oldEnd..]);
      && Concat(was) == front + patch.before + back
      && Matches(Concat(was), patch, |front|)
      && Splice(Concat(was), patch, |front|) == front + patch.after + back
      && (NoEmptyLine(was) && patch.beforeContext == "" ==> front == "")
  {
    hide EndsWith, StartsWith, Matches, Splice, Concat;
    CutTwice(was, 0, oldStart, oldEnd);
    ContextsAround(was, 0, oldStart);
    ContextsAround(was, oldEnd, |was|);
    assert was[0..] == was && was[0..oldStart] == was[..oldStart] && was[oldEnd..|was|] == was[oldEnd..];
    PlaceIff(Concat(was), Concat(was[..oldStart]), Concat(was[oldEnd..]), patch);
  }

  /** A stretch of old lines ends with the context in front of its end, and begins
      with the one behind its beginning. */
  lemma ContextsAround(was: seq<Line>, a: nat, b: nat)
    requires a <= b <= |was|
    ensures a < b ==> EndsWith(Concat(was[a..b]), was[b - 1]) && StartsWith(Concat(was[a..b]), was[a])
    ensures a == b ==> Concat(was[a..b]) == "" && EndsWith("", "") && StartsWith("", "")
  {
    if a < b {
      EndOfLines(was[a..b]);
    }
  }

  /** The texts between the old ranges of the groups, from old line o on. */
  ghost function GapsOf(was: seq<Line>, aligned: Pairs, groups: seq<Group>, o: nat): (gaps: seq<string>)
    requires Ordered(aligned, groups, |was|, o)
    ensures |gaps| == |groups| + 1
    decreases |groups|
  {
    if groups == [] then [Concat(was[o..])]
    else
      [Concat(was[o..OldStart(aligned, groups[0].start)])]
      + GapsOf(was, aligned, groups[1..], OldEnd(aligned, groups[0].end, |was|))
  }

  /** With the fragments' regions in the gaps the text is the old one, with their
      replacements the new one. */
  lemma {:induction false} WeavesOldAndNew(path: string, was: seq<Line>, now: seq<Line>, aligned: Pairs,
                                           groups: seq<Group>,
                                           k: nat, o: nat, n: nat)
    requires Ready(was, now, aligned, groups, k, o, n) && Ordered(aligned, groups, |was|, o)
    ensures
      var gaps, patches := GapsOf(was, aligned, groups, o), BoundAll(path, was, now, aligned, groups);
      && Woven(gaps, Befores(patches)) == Concat(was[o..])
      && Woven(gaps, Afters(patches)) == Concat(now[n..])
    decreases |groups|
  {
    if groups == [] {
      NoGroups(was, now, aligned, k, o, n);
    } else {
      var s, e := groups[0].start, groups[0].end;
      var oldStart, oldEnd := OldStart(aligned, s), OldEnd(aligned, e, |was|);
      NextGroup(was, now, aligned, groups, k, o, n);
      WeavesOldAndNew(path, was, now, aligned, groups[1..], Below(aligned, e), oldEnd, e);
      WeavesOneMore(path, was, now, aligned, groups, o, n);
    }
  }

  lemma WeavesOneMore(path: string, was: seq<Line>, now: seq<Line>, aligned: Pairs, groups: seq<Group>, o: nat, n: nat)
    requires Lcs.IsMatching(was, now, aligned) && Rows(groups, |now|) && groups != []
    requires Ordered(aligned, groups, |was|, o)
    requires n <= groups[0].start && was[o..OldStart(aligned, groups[0].start)] == now[n..groups[0].start]
    requires
      var oldEnd := OldEnd(aligned, groups[0].end, |was|);
      var gaps, patches := GapsOf(was, aligned, groups[1..], oldEnd), BoundAll(path, was, now, aligned, groups[1..]);
      Woven(gaps, Befores(patches)) == Concat(was[oldEnd..])
          && Woven(gaps, Afters(patches)) == Concat(now[groups[0].end..])
    ensures
      var gaps, patches := GapsOf(was, aligned, groups, o), BoundAll(path, was, now, aligned, groups);
      Woven(gaps, Befores(patches)) == Concat(was[o..]) && Woven(gaps, Afters(patches)) == Concat(now[n..])
  {
    var s, e := groups[0].start, groups[0].end;
    var oldStart, oldEnd := OldStart(aligned, s), OldEnd(aligned, e, |was|);
    GapsOfFirst(was, aligned, groups, o);
    BoundWith(path, was, now, aligned, groups[0]);
    BoundAllFirst(path, was, now, aligned, groups);
    hide OldStart, OldEnd, Ordered, GapsOf, Concat, Woven, Bound, Lcs.IsMatching, BoundAll, Befores, Afters, Rows,
        InFile;
    CutTwice(was, o, oldStart, oldEnd);
    CutTwice(now, n, s, e);
    FirstWoven(Concat(was[o..oldStart]), GapsOf(was, aligned, groups[1..], oldEnd),
               Bound(path, was, now, aligned, groups[0]), BoundAll(path, was, now, aligned, groups[1..]));
  }

  lemma GapsOfFirst(was: seq<Line>, aligned: Pairs, groups: seq<Group>, o: nat)
    requires groups != [] && Ordered(aligned, groups, |was|, o)
    ensures
      var oldStart, oldEnd := OldStart(aligned, groups[0].start), OldEnd(aligned, groups[0].end, |was|);
      && o <= oldStart <= |was| && Ordered(aligned, groups[1..], |was|, oldEnd)
      && GapsOf(was, aligned, groups, o) == [Concat(was[o..oldStart])] + GapsOf(was, aligned, groups[1..], oldEnd)
  {
  }

  lemma FirstWoven(gap: string, gaps: seq<string>, patch: PatchFragment, patches: seq<PatchFragment>)
    requires |gaps| == |patches| + 1
    ensures Woven([gap] + gaps, Befores([patch] + patches)) == gap + patch.before + Woven(gaps, Befores(patches))
    ensures Woven([gap] + gaps, Afters([patch] + patches)) == gap + patch.after + Woven(gaps, Afters(patches))
  {
    assert ([gap] + gaps)[1..] == gaps && ([patch] + patches)[1..] == patches;
    assert Befores([patch] + patches)[1..] == Befores(patches) && Afters([patch] + patches)[1..] == Afters(patches);
  }

  ghost predicate AllBehind(patches: seq<PatchFragment>) {
    forall i :: 0 <= i < |patches| ==> patches[i].beforeContext != ""
  }

  ghost predicate HostedBehind(gaps: seq<string>, patches: seq<PatchFragment>, line: Line) {
    Hosted(gaps, patches) && AllBehind(patches) && StartsWith(gaps[0], line)
  }

  lemma HostedFirst(gap: string, gaps: seq<string>, patch: PatchFragment, patches: seq<PatchFragment>)
    requires HostedBehind(gaps, patches, patch.afterContext)
    requires EndsWith(gap, patch.beforeContext) && (patch.beforeContext == "" ==> gap == "")
    ensures Hosted([gap] + gaps, [patch] + patches)
    ensures patch.beforeContext != "" ==> AllBehind([patch] + patches)
  {
    hide EndsWith, StartsWith;
  }

  /** The context in front of a fragment stands at the end of the gap in front of it,
      and the gap begins with the line behind what came before. */
  lemma GapHolds(was: seq<Line>, o: nat, oldStart: nat)
    requires o <= oldStart <= |was| && NoEmptyLine(was) && (o < oldStart || o == 0)
    ensures
      var gap, before := Concat(was[o..oldStart]), LineBefore(was, oldStart);
      && EndsWith(gap, before) && (before == "" ==> gap == "")
      && (o < oldStart ==> before != "" && StartsWith(gap, LineFrom(was, o)))
  {
    ContextsAround(was, o, oldStart);
  }

  /** Behind an old line, the neighbours of every fragment stand in the gaps. */
  lemma {:induction false} GapsHostBehind(path: string, was: seq<Line>, now: seq<Line>, aligned: Pairs,
                                          groups: seq<Group>,
                                          o: nat)
    requires Lcs.IsMatching(was, now, aligned) && InFile(groups, |now|) && NoEmptyLine(was)
    requires Spaced(aligned, groups, |was|) && Ordered(aligned, groups, |was|, o)
    requires groups != [] ==> o < OldStart(aligned, groups[0].start)
    ensures HostedBehind(GapsOf(was, aligned, groups, o), BoundAll(path, was, now, aligned, groups), LineFrom(was, o))
    decreases |groups|
  {
    if groups == [] {
      ContextsAround(was, o, |was|);
      assert was[o..|was|] == was[o..];
    } else {
      GapsHostRest(path, was, now, aligned, groups, o);
      GapHolds(was, o, OldStart(aligned, groups[0].start));
      HostsOneMore(path, was, now, aligned, groups, o);
    }
  }

  lemma {:induction false} GapsHostRest(path: string, was: seq<Line>, now: seq<Line>, aligned: Pairs,
                                        groups: seq<Group>,
                                        o: nat)
    requires Lcs.IsMatching(was, now, aligned) && InFile(groups, |now|) && NoEmptyLine(was) && groups != []
    requires Spaced(aligned, groups, |was|) && Ordered(aligned, groups, |was|, o)
    ensures InFile(groups[1..], |now|)
    ensures
      var oldEnd := OldEnd(aligned, groups[0].end, |was|);
      && Ordered(aligned, groups[1..], |was|, oldEnd)
      && HostedBehind(GapsOf(was, aligned, groups[1..], oldEnd), BoundAll(path, was, now, aligned, groups[1..]),
                      LineFrom(was, oldEnd))
    decreases |groups|, 0
  {
    hide OldStart, OldEnd;
    assert forall j :: 0 <= j < |groups[1..]| ==> groups[1..][j] == groups[j + 1];
    GapsHostBehind(path, was, now, aligned, groups[1..], OldEnd(aligned, groups[0].end, |was|));
  }

  /** When neighbouring groups are spaced, the neighbours of every fragment stand in
      the gaps, and only a fragment at the beginning of the file has none in front. */
  lemma GapsHostBound(path: string, was: seq<Line>, now: seq<Line>, aligned: Pairs, groups: seq<Group>)
    requires Lcs.IsMatching(was, now, aligned) && InFile(groups, |now|) && NoEmptyLine(was)
    requires Spaced(aligned, groups, |was|) && Ordered(aligned, groups, |was|, 0)
    ensures Hosted(GapsOf(was, aligned, groups, 0), BoundAll(path, was, now, aligned, groups))
  {
    if groups != [] {
      GapsHostRest(path, was, now, aligned, groups, 0);
      GapHolds(was, 0, OldStart(aligned, groups[0].start));
      HostsOneMore(path, was, now, aligned, groups, 0);
    }
  }

  lemma HostsOneMore(path: string, was: seq<Line>, now: seq<Line>, aligned: Pairs, groups: seq<Group>, o: nat)
    requires Lcs.IsMatching(was, now, aligned) && InFile(groups, |now|) && groups != [] && InFile(groups[1..], |now|)
    requires o <= OldStart(aligned, groups[0].start) <= |was|
    requires Ordered(aligned, groups[1..], |was|, OldEnd(aligned, groups[0].end, |was|))
    requires Ordered(aligned, groups, |was|, o)
    requires
      var gap := Concat(was[o..OldStart(aligned, groups[0].start)]);
      var before := LineBefore(was, OldStart(aligned, groups[0].start));
      EndsWith(gap, before) && (before == "" ==> gap == "")
    requires
      var oldEnd := OldEnd(aligned, groups[0].end, |was|);
      var gaps, patches := GapsOf(was, aligned, groups[1..], oldEnd), BoundAll(path, was, now, aligned, groups[1..]);
      HostedBehind(gaps, patches, LineFrom(was, oldEnd))
    ensures
      var gaps, patches := GapsOf(was, aligned, groups, o), BoundAll(path, was, now, aligned, groups);
      && Hosted(gaps, patches) && gaps[0] == Concat(was[o..OldStart(aligned, groups[0].start)])
      && (LineBefore(was, OldStart(aligned, groups[0].start)) != "" ==> AllBehind(patches))
  {
    BoundWith(path, was, now, aligned, groups[0]);
    GapsOfFirst(was, aligned, groups, o);
    BoundAllFirst(path, was, now, aligned, groups);
    hide OldStart, OldEnd, Ordered, GapsOf, Concat, Hosted, Bound, Lcs.IsMatching, EndsWith, StartsWith, BoundAll,
        InFile;
    HostedFirst(Concat(was[o..OldStart(aligned, groups[0].start)]),
                GapsOf(was, aligned, groups[1..], OldEnd(aligned, groups[0].end, |was|)),
                Bound(path, was, now, aligned, groups[0]), BoundAll(path, was, now, aligned, groups[1..]));
  }
}
