/** The line differ that tells which lines of a new file a change touches. */
module LineRanges {
  import opened Lcs
  import opened Text

  type Pairs = seq<(nat, nat)>

  /** The walk over the table: equal lines are paired at once, and on a tie the new
      side advances. */
  function Diff<T(==)>(a: seq<T>, b: seq<T>, i: nat, j: nat): Pairs
    requires i <= |a| && j <= |b|
    decreases |a| - i + |b| - j
  {
    if i == |a| || j == |b| then []
    else if a[i] == b[j] then [(i, j)] + Diff(a, b, i + 1, j + 1)
    else if Length(a, b, i + 1, j) > Length(a, b, i, j + 1) then Diff(a, b, i + 1, j)
    else Diff(a, b, i, j + 1)
  }

  lemma {:induction false} DiffIsMatching<T>(a: seq<T>, b: seq<T>, i: nat, j: nat)
    requires i <= |a| && j <= |b|
    ensures IsMatching(a, b, Diff(a, b, i, j)) && StartsAt(Diff(a, b, i, j), i, j)
    ensures |Diff(a, b, i, j)| == Length(a, b, i, j)
    decreases |a| - i + |b| - j
  {
    if i < |a| && j < |b| {
      if a[i] == b[j] {
        DiffIsMatching(a, b, i + 1, j + 1);
        MatchingPrepend(a, b, i, j, Diff(a, b, i + 1, j + 1));
      } else if Length(a, b, i + 1, j) > Length(a, b, i, j + 1) {
        DiffIsMatching(a, b, i + 1, j);
        assert Diff(a, b, i, j) == Diff(a, b, i + 1, j);
      } else {
        DiffIsMatching(a, b, i, j + 1);
        assert Diff(a, b, i, j) == Diff(a, b, i, j + 1);
      }
    } else {
      assert Diff(a, b, i, j) == [];
    }
  }

  // ----- the gaps between paired lines -----

  function OldFrom(m: Pairs, k: nat): nat
    requires k <= |m|
  {
    if k == 0 then 0 else m[k - 1].0 + 1
  }

  function OldTo<T>(a: seq<T>, m: Pairs, k: nat): nat
    requires k <= |m|
  {
    if k == |m| then |a| else m[k].0
  }

  function NewFrom(m: Pairs, k: nat): nat
    requires k <= |m|
  {
    if k == 0 then 0 else m[k - 1].1 + 1
  }

  function NewTo<T>(b: seq<T>, m: Pairs, k: nat): nat
    requires k <= |m|
  {
    if k == |m| then |b| else m[k].1
  }

  /** The new line x is touched by the k-th gap: it is in the gap, or the gap only
      deletes and x is the line after it, or the last line. */
  ghost predicate GapTouches<T>(a: seq<T>, b: seq<T>, m: Pairs, k: nat, x: nat)
    requires k <= |m|
  {
    || NewFrom(m, k) <= x < NewTo(b, m, k)
    || (NewFrom(m, k) == NewTo(b, m, k) && OldFrom(m, k) < OldTo(a, m, k)
        && x == if NewFrom(m, k) < |b| then NewFrom(m, k) else |b| - 1)
  }

  ghost predicate TouchedBelow<T>(a: seq<T>, b: seq<T>, m: Pairs, n: nat, x: nat)
    requires n <= |m| + 1
  {
    exists k :: 0 <= k < n && GapTouches(a, b, m, k, x)
  }

  ghost predicate TouchedBy<T>(a: seq<T>, b: seq<T>, m: Pairs, x: nat) {
    TouchedBelow(a, b, m, |m| + 1, x)
  }

  /** The line is touched by some gap of the alignment. */
  ghost predicate Touched<T>(a: seq<T>, b: seq<T>, x: nat) {
    TouchedBy(a, b, Diff(a, b, 0, 0), x)
  }

  // ----- lists of ranges -----

  ghost predicate Covered(ranges: Pairs, x: nat) {
    exists p :: 0 <= p < |ranges| && ranges[p].0 <= x + 1 <= ranges[p].1
  }

  /** One-based ranges within 1..n, in order, with an uncovered line between any two. */
  ghost predicate Separated(ranges: Pairs, n: nat) {
    && (forall p :: 0 <= p < |ranges| ==> 1 <= ranges[p].0 <= ranges[p].1 <= n)
    && (forall p, q :: 0 <= p < q < |ranges| ==> ranges[p].1 + 1 < ranges[q].0)
  }

  ghost predicate StartsBy(ranges: Pairs, x: nat) {
    ranges != [] ==> ranges[|ranges| - 1].0 <= x
  }

  /** The end of the loop body: extend the last range or add one. */
  method AddRange(ranges: Pairs, range: (nat, nat), ghost n: nat) returns (next: Pairs)
    requires Separated(ranges, n) && 1 <= range.0 <= range.1 <= n && StartsBy(ranges, range.0)
    ensures Separated(next, n) && StartsBy(next, range.0)
    ensures forall x: nat :: Covered(next, x) <==> Covered(ranges, x) || range.0 <= x + 1 <= range.1
    ensures next != []
  {
    if ranges != [] && range.0 <= ranges[|ranges| - 1].1 + 1 {
      var last := ranges[|ranges| - 1];
      next := ranges[|ranges| - 1 := (last.0, Max(last.1, range.1))];
      Merged(ranges, range);
    } else {
      next := ranges + [range];
      forall x: nat
        ensures Covered(next, x) <==> Covered(ranges, x) || range.0 <= x + 1 <= range.1
      {
        assert next[|ranges|] == range;
        if p :| 0 <= p < |ranges| && ranges[p].0 <= x + 1 <= ranges[p].1 {
          assert next[p] == ranges[p];
        }
      }
    }
  }

  lemma Merged(ranges: Pairs, range: (nat, nat))
    requires ranges != [] && ranges[|ranges| - 1].0 <= range.0 <= ranges[|ranges| - 1].1 + 1
    ensures
      var last := ranges[|ranges| - 1];
      var next := ranges[|ranges| - 1 := (last.0, Max(last.1, range.1))];
      forall x: nat :: Covered(next, x) <==> Covered(ranges, x) || range.0 <= x + 1 <= range.1
  {
    var e := |ranges| - 1;
    var next := ranges[e := (ranges[e].0, Max(ranges[e].1, range.1))];
    forall x: nat
      ensures Covered(next, x) <==> Covered(ranges, x) || range.0 <= x + 1 <= range.1
    {
      assert next[e].0 <= x + 1 <= next[e].1 <==> ranges[e].0 <= x + 1 <= ranges[e].1 || range.0 <= x + 1 <= range.1;
      if p :| 0 <= p < |ranges| && ranges[p].0 <= x + 1 <= ranges[p].1 {
        assert p != e ==> next[p] == ranges[p];
      }
      if p :| 0 <= p < |next| && next[p].0 <= x + 1 <= next[p].1 {
        assert p != e ==> next[p] == ranges[p];
      }
    }
  }

  // ----- the walk -----

  /** The walk stands where the k-th gap begins. */
  ghost predicate BeforeGap<T>(a: seq<T>, b: seq<T>, m: Pairs, k: nat, i: nat, j: nat)
    requires i <= |a| && j <= |b|
  {
    k <= |m| && i == OldFrom(m, k) && j == NewFrom(m, k) && Diff(a, b, i, j) == m[k..]
  }

  /** The walk stands where the gap before the k-th ends, at a pair or at the end. */
  ghost predicate AfterGap<T>(a: seq<T>, b: seq<T>, m: Pairs, k: nat, i: nat, j: nat)
    requires i <= |a| && j <= |b|
  {
    && 0 < k <= |m| + 1 && i == OldTo(a, m, k - 1) && j == NewTo(b, m, k - 1)
    && Diff(a, b, i, j) == m[k - 1..]
  }

  /** A pair of equal lines, seen at the beginning of a gap, makes the gap empty. */
  lemma PairStep<T>(a: seq<T>, b: seq<T>, m: Pairs, k: nat, i: nat, j: nat)
    requires i < |a| && j < |b| && a[i] == b[j] && BeforeGap(a, b, m, k, i, j)
    ensures k < |m| && BeforeGap(a, b, m, k + 1, i + 1, j + 1)
    ensures forall x :: !GapTouches(a, b, m, k, x)
  {
    assert Diff(a, b, i, j) == [(i, j)] + Diff(a, b, i + 1, j + 1);
    assert m[k] == (i, j) && m[k..][1..] == m[k + 1..];
    assert ([(i, j)] + Diff(a, b, i + 1, j + 1))[1..] == Diff(a, b, i + 1, j + 1);
  }

  lemma PairAfter<T>(a: seq<T>, b: seq<T>, m: Pairs, k: nat, i: nat, j: nat)
    requires i < |a| && j < |b| && a[i] == b[j] && AfterGap(a, b, m, k, i, j)
    ensures BeforeGap(a, b, m, k, i + 1, j + 1)
  {
    assert Diff(a, b, i, j) == [(i, j)] + Diff(a, b, i + 1, j + 1);
    assert m[k - 1] == (i, j) && m[k - 1..][1..] == m[k..];
    assert ([(i, j)] + Diff(a, b, i + 1, j + 1))[1..] == Diff(a, b, i + 1, j + 1);
  }

  /** Between gaps there is either a pair or nothing. */
  lemma AfterIsPair<T>(a: seq<T>, b: seq<T>, m: Pairs, k: nat, i: nat, j: nat)
    requires i <= |a| && j <= |b| && IsMatching(a, b, m) && AfterGap(a, b, m, k, i, j)
    ensures (i == |a| && j == |b|) || (i < |a| && j < |b| && a[i] == b[j])
  {
  }

  /** The inner loop: to the next pair of equal lines or the end. */
  method SkipGap<T(==)>(a: seq<T>, b: seq<T>, table: array2<nat>, i: nat, j: nat) returns (i': nat, j': nat)
    requires i <= |a| && j <= |b| && table.Length0 == |a| + 1 && table.Length1 == |b| + 1
    requires forall k :: 0 <= k <= |a| ==> RowFilled(table, a, b, k, 0)
    ensures i <= i' <= |a| && j <= j' <= |b|
    ensures Diff(a, b, i, j) == [] ==> i' == |a| && j' == |b|
    ensures Diff(a, b, i, j) != [] ==> Diff(a, b, i, j)[0] == (i', j')
    ensures Diff(a, b, i', j') == Diff(a, b, i, j)
  {
    i', j' := i, j;
    while i' < |a| && j' < |b| && a[i'] != b[j']
      invariant i <= i' <= |a| && j <= j' <= |b|
      invariant Diff(a, b, i', j') == Diff(a, b, i, j)
      decreases |a| - i' + |b| - j'
    {
      assert RowFilled(table, a, b, i' + 1, 0) && RowFilled(table, a, b, i', 0);
      if table[i' + 1, j'] > table[i', j' + 1] {
        i' := i' + 1;
      } else {
        j' := j' + 1;
      }
    }
    if i' == |a| {
      j' := |b|;
    } else if j' == |b| {
      i' := |a|;
    }
  }

  /** The range of a gap covers what the gap touches. */
  function RangeOf(from: nat, to: nat, n: nat): (range: (nat, nat))
    requires 0 < n && from <= to <= n
  {
    if from < to then (from + 1, to)
    else if from < n then (from + 1, from + 1)
    else (n, n)
  }

  lemma RangeTouches<T>(a: seq<T>, b: seq<T>, m: Pairs, k: nat)
    requires k <= |m| && NewFrom(m, k) <= NewTo(b, m, k) <= |b| && |b| > 0
    requires NewFrom(m, k) < NewTo(b, m, k) || OldFrom(m, k) < OldTo(a, m, k)
    ensures
      var range := RangeOf(NewFrom(m, k), NewTo(b, m, k), |b|);
      forall x: nat :: GapTouches(a, b, m, k, x) <==> range.0 <= x + 1 <= range.1
  {
  }

  ghost predicate CoversBelow<T>(a: seq<T>, b: seq<T>, m: Pairs, k: nat, ranges: Pairs)
    requires k <= |m| + 1
  {
    forall x: nat :: Covered(ranges, x) <==> TouchedBelow(a, b, m, k, x)
  }

  lemma EmptyGap<T>(a: seq<T>, b: seq<T>, m: Pairs, k: nat, ranges: Pairs)
    requires k <= |m| && CoversBelow(a, b, m, k, ranges) && forall x :: !GapTouches(a, b, m, k, x)
    ensures CoversBelow(a, b, m, k + 1, ranges)
  {
    hide GapTouches, Covered;
    forall x: nat
      ensures TouchedBelow(a, b, m, k, x) <==> TouchedBelow(a, b, m, k + 1, x)
    {
    }
  }

  lemma OneMoreGap<T>(a: seq<T>, b: seq<T>, m: Pairs, k: nat, ranges: Pairs, range: (nat, nat), next: Pairs)
    requires k <= |m| && CoversBelow(a, b, m, k, ranges)
    requires forall x: nat :: GapTouches(a, b, m, k, x) <==> range.0 <= x + 1 <= range.1
    requires forall x: nat :: Covered(next, x) <==> Covered(ranges, x) || range.0 <= x + 1 <= range.1
    ensures CoversBelow(a, b, m, k + 1, next)
  {
    hide GapTouches, Covered;
    forall x: nat
      ensures Covered(next, x) <==> TouchedBelow(a, b, m, k + 1, x)
    {
      assert Covered(ranges, x) <==> TouchedBelow(a, b, m, k, x);
      assert GapTouches(a, b, m, k, x) <==> range.0 <= x + 1 <= range.1;
    }
  }

  /** The walk over both files. */
  method WalkRanges<T(==)>(a: seq<T>, b: seq<T>) returns (ranges: Pairs)
    requires a != [] && b != []
    ensures Separated(ranges, |b|)
    ensures forall x: nat :: Covered(ranges, x) <==> Touched(a, b, x)
  {
    hide Covered, GapTouches, TouchedBelow, Diff, Separated, StartsBy, BeforeGap, AfterGap, CoversBelow;
    var table := FillTable(a, b);
    ghost var m, k := Diff(a, b, 0, 0), 0;
    DiffIsMatching(a, b, 0, 0);
    var i, j := 0, 0;
    ranges := [];
    WalkStarts(a, b);
    while i < |a| || j < |b|
      invariant i <= |a| && j <= |b| && k <= |m| + 1
      invariant forall l :: 0 <= l <= |a| ==> RowFilled(table, a, b, l, 0)
      invariant BeforeGap(a, b, m, k, i, j) || AfterGap(a, b, m, k, i, j)
      invariant Separated(ranges, |b|) && StartsBy(ranges, j + 1) && CoversBelow(a, b, m, k, ranges)
      decreases |a| - i + |b| - j
    {
      ghost var before := BeforeGap(a, b, m, k, i, j);
      if !before {
        AfterIsPair(a, b, m, k, i, j);
      }
      if i < |a| && j < |b| && a[i] == b[j] {
        if before {
          PairStep(a, b, m, k, i, j);
          EmptyGap(a, b, m, k, ranges);
          k := k + 1;
        } else {
          PairAfter(a, b, m, k, i, j);
        }
        StartsLater(ranges, j + 1, j + 2);
        i, j := i + 1, j + 1;
        continue;
      }
      var startNew := j;
      ghost var startOld := i;
      i, j := SkipGap(a, b, table, i, j);
      GapEnds(a, b, m, k, startOld, startNew, i, j);
      var range := RangeOf(startNew, j, |b|);
      RangeTouches(a, b, m, k);
      RangeStarts(ranges, startNew, |b|, range);
      ghost var was := ranges;
      ranges := AddRange(ranges, range, |b|);
      OneMoreGap(a, b, m, k, was, range, ranges);
      StartsLater(ranges, range.0, j + 1);
      k := k + 1;
    }
    WalkEnds(a, b, m, k, i, j, ranges);
  }

  lemma WalkStarts<T>(a: seq<T>, b: seq<T>)
    ensures
      var m := Diff(a, b, 0, 0);
      BeforeGap(a, b, m, 0, 0, 0) && Separated([], |b|) && StartsBy([], 1) && CoversBelow(a, b, m, 0, [])
  {
  }

  lemma StartsLater(ranges: Pairs, x: nat, y: nat)
    requires StartsBy(ranges, x) && x <= y
    ensures StartsBy(ranges, y)
  {
  }

  lemma RangeStarts(ranges: Pairs, from: nat, n: nat, range: (nat, nat))
    requires Separated(ranges, n) && StartsBy(ranges, from + 1)
    requires range.0 == from + 1 || range.0 == n
    ensures StartsBy(ranges, range.0)
  {
  }

  lemma GapEnds<T>(a: seq<T>, b: seq<T>, m: Pairs, k: nat, i: nat, j: nat, i': nat, j': nat)
    requires i <= i' <= |a| && j <= j' <= |b| && IsMatching(a, b, m) && BeforeGap(a, b, m, k, i, j)
    requires Diff(a, b, i, j) == [] ==> i' == |a| && j' == |b|
    requires Diff(a, b, i, j) != [] ==> Diff(a, b, i, j)[0] == (i', j')
    requires Diff(a, b, i', j') == Diff(a, b, i, j)
    requires i < |a| || j < |b|
    requires !(i < |a| && j < |b| && a[i] == b[j])
    ensures k <= |m| && AfterGap(a, b, m, k + 1, i', j')
    ensures i' == OldTo(a, m, k) && j' == NewTo(b, m, k) && i == OldFrom(m, k) && j == NewFrom(m, k)
    ensures i < i' || j < j'
  {
  }

  lemma WalkEnds<T>(a: seq<T>, b: seq<T>, m: Pairs, k: nat, i: nat, j: nat, ranges: Pairs)
    requires i == |a| && j == |b| && k <= |m| + 1 && m == Diff(a, b, 0, 0) && IsMatching(a, b, m)
    requires BeforeGap(a, b, m, k, i, j) || AfterGap(a, b, m, k, i, j)
    requires CoversBelow(a, b, m, k, ranges)
    ensures forall x: nat :: Covered(ranges, x) <==> Touched(a, b, x)
  {
    assert Diff(a, b, i, j) == [];
    if k <= |m| {
      assert k == |m|;
      EmptyGap(a, b, m, k, ranges);
    }
    hide GapTouches, Covered, TouchedBelow;
  }

  // ----- what the touched lines are -----

  lemma {:induction false} DiffOfSame<T>(a: seq<T>, i: nat)
    requires i <= |a|
    ensures |Diff(a, a, i, i)| == |a| - i
    ensures forall k :: 0 <= k < |a| - i ==> Diff(a, a, i, i)[k] == (i + k, i + k)
    decreases |a| - i
  {
    if i < |a| {
      DiffOfSame(a, i + 1);
    }
  }

  /** Without touched lines the pairs run down the diagonal. */
  lemma {:induction false} Diagonal<T>(a: seq<T>, b: seq<T>, m: Pairs, k: nat)
    requires b != [] && IsMatching(a, b, m) && k <= |m|
    requires forall x: nat :: x < |b| ==> !TouchedBy(a, b, m, x)
    ensures OldFrom(m, k) == k && NewFrom(m, k) == k
    ensures OldTo(a, m, k) == k && NewTo(b, m, k) == k
    decreases k
  {
    if k > 0 {
      Diagonal(a, b, m, k - 1);
    }
    var x := if k < |b| then k else |b| - 1;
    assert GapTouches(a, b, m, k, x) ==> TouchedBy(a, b, m, x);
    assert k < |m| ==> NewFrom(m, k) <= NewTo(b, m, k) && OldFrom(m, k) <= OldTo(a, m, k);
    assert k > 0 ==> m[k - 1].0 < |a| && m[k - 1].1 < |b|;
  }

  lemma UntouchedIsSame<T>(a: seq<T>, b: seq<T>)
    requires b != [] && forall x: nat :: x < |b| ==> !Touched(a, b, x)
    ensures a == b
  {
    var m := Diff(a, b, 0, 0);
    DiffIsMatching(a, b, 0, 0);
    forall x: nat | x < |b|
      ensures !TouchedBy(a, b, m, x)
    {
      assert !Touched(a, b, x);
    }
    hide TouchedBy, IsMatching;
    Diagonal(a, b, m, |m|);
    assert |a| == |m| == |b|;
    forall k | 0 <= k < |a|
      ensures a[k] == b[k]
    {
      Diagonal(a, b, m, k);
    }
  }

  lemma SameIsUntouched<T>(a: seq<T>, x: nat)
    ensures !Touched(a, a, x)
  {
    DiffOfSame(a, 0);
  }

  /** Some line is touched exactly when the files differ. */
  lemma TouchedIffChanged<T>(a: seq<T>, b: seq<T>)
    requires b != []
    ensures (exists x: nat :: x < |b| && Touched(a, b, x)) <==> a != b
  {
    if a == b {
      forall x: nat | x < |b|
        ensures !Touched(a, b, x)
      {
        SameIsUntouched(a, x);
      }
    } else if forall x: nat :: x < |b| ==> !Touched(a, b, x) {
      UntouchedIsSame(a, b);
    }
  }

  /** The pair or the gap that a new line belongs to. */
  lemma {:induction false} PairOrGap<T>(a: seq<T>, b: seq<T>, m: Pairs, k: nat, x: nat) returns (l: nat)
    requires k <= |m| && x < |b| && x < NewTo(b, m, k)
    ensures l <= |m|
    ensures (l < |m| && m[l].1 == x) || NewFrom(m, l) <= x < NewTo(b, m, l)
    decreases k
  {
    if NewFrom(m, k) <= x {
      l := k;
    } else if m[k - 1].1 == x {
      l := k - 1;
    } else {
      l := PairOrGap(a, b, m, k - 1, x);
    }
  }

  /** The untouched lines all survive from the old file: each is paired with an equal
      old line, in order, by a longest common subsequence. */
  lemma UntouchedSurvive<T>(a: seq<T>, b: seq<T>)
    ensures
      var m := Diff(a, b, 0, 0);
      && IsMatching(a, b, m)
      && (forall other :: IsMatching(a, b, other) ==> |other| <= |m|)
      && (forall x: nat :: x < |b| && !Touched(a, b, x) ==> exists k :: 0 <= k < |m| && m[k].1 == x)
  {
    var m := Diff(a, b, 0, 0);
    DiffIsMatching(a, b, 0, 0);
    forall other | IsMatching(a, b, other)
      ensures |other| <= |m|
    {
      MatchingAtMostLength(a, b, other, 0, 0);
    }
    forall x: nat | x < |b| && !Touched(a, b, x)
      ensures exists k :: 0 <= k < |m| && m[k].1 == x
    {
      var l := PairOrGap(a, b, m, |m|, x);
      assert GapTouches(a, b, m, l, x) ==> TouchedBy(a, b, m, x);
    }
  }

  /** The whole differ. A file that lost all its lines is reported at line 1. */
  method ChangedLineRanges(before: string, after: string) returns (ranges: Pairs)
    ensures
      var a, b := SplitLines(before), SplitLines(after);
      if b == [] then ranges == (if a == [] then [] else [(1, 1)])
      else
        && Separated(ranges, |b|)
        && (forall x: nat :: Covered(ranges, x) <==> Touched(a, b, x))
        && (ranges == [] <==> before == after)
  {
    var a, b := SplitLines(before), SplitLines(after);
    if a == b {
      SameLinesSameText(before, after);
      NothingTouched(a, b);
      return [];
    }
    if a == [] {
      if b == [] {
        return [];
      }
      AllTouched(b);
      return [(1, |b|)];
    }
    if b == [] {
      return [(1, 1)];
    }
    ranges := WalkRanges(a, b);
    SomeCovered(a, b, ranges);
  }

  lemma NothingTouched<T>(a: seq<T>, b: seq<T>)
    requires a == b
    ensures Separated([], |b|) && forall x: nat :: Covered([], x) <==> Touched(a, b, x)
  {
    forall x: nat
      ensures !Touched(a, b, x)
    {
      SameIsUntouched(a, x);
    }
  }

  lemma AllTouched<T>(b: seq<T>)
    requires b != []
    ensures Separated([(1, |b|)], |b|) && forall x: nat :: Covered([(1, |b|)], x) <==> Touched([], b, x)
  {
    forall x: nat
      ensures Touched([], b, x) <==> x < |b|
    {
      assert Diff([], b, 0, 0) == [];
      assert GapTouches([], b, [], 0, x) <==> x < |b|;
    }
    assert forall x: nat :: Covered([(1, |b|)], x) <==> [(1, |b|)][0].0 <= x + 1 <= [(1, |b|)][0].1;
  }

  lemma SomeCovered<T>(a: seq<T>, b: seq<T>, ranges: Pairs)
    requires b != [] && a != b && forall x: nat :: Covered(ranges, x) <==> Touched(a, b, x)
    ensures ranges != []
  {
    TouchedIffChanged(a, b);
  }
}
