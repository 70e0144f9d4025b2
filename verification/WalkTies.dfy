/** How the differs break ties. Each finds a longest common subsequence; which one it
    finds is said here in terms of all longest common subsequences, not of the walk.
 */
module WalkTies {
  import opened Lcs
  import opened LineRanges

  /** A common subsequence of the suffixes from i and j that is as long as any. */
  ghost predicate Longest<T>(a: seq<T>, b: seq<T>, m: Pairs, i: nat, j: nat)
    requires i <= |a| && j <= |b|
  {
    IsMatching(a, b, m) && StartsAt(m, i, j) && |m| == Length(a, b, i, j)
  }

  lemma LongestRest<T>(a: seq<T>, b: seq<T>, m: Pairs, i: nat, j: nat)
    requires i <= |a| && j <= |b| && Longest(a, b, m, i, j) && m != []
    ensures m[0].0 < |a| && m[0].1 < |b| && Longest(a, b, m[1..], m[0].0 + 1, m[0].1 + 1)
  {
    var (x, y) := m[0];
    MatchingAtMostLength(a, b, m[1..], x + 1, y + 1);
    LengthMonotone(a, b, i, j, x, y);
  }

  // ----- the line differ -----

  /** No longest common subsequence begins with an earlier old line than the walk. */
  lemma {:induction false} FirstOldIsLeast<T>(a: seq<T>, b: seq<T>, m: Pairs, i: nat, j: nat)
    requires i <= |a| && j <= |b| && Longest(a, b, m, i, j) && m != []
    ensures Diff(a, b, i, j) != [] && Diff(a, b, i, j)[0].0 <= m[0].0
    decreases |a| - i + |b| - j
  {
    DiffIsMatching(a, b, i, j);
    if a[i] != b[j] {
      if Length(a, b, i + 1, j) > Length(a, b, i, j + 1) {
        NotFirstOld(a, b, m, i, j);
        FirstOldIsLeast(a, b, m, i + 1, j);
      } else if m[0].1 == j {
        NewLineGivenUp(a, b, m, i, j);
      } else {
        FirstOldIsLeast(a, b, m, i, j + 1);
      }
    }
  }

  lemma NotFirstOld<T>(a: seq<T>, b: seq<T>, m: Pairs, i: nat, j: nat)
    requires i < |a| && j < |b| && a[i] != b[j] && Longest(a, b, m, i, j) && m != []
    requires Length(a, b, i + 1, j) > Length(a, b, i, j + 1)
    ensures Longest(a, b, m, i + 1, j)
  {
    if m[0].0 == i {
      MatchingAtMostLength(a, b, m, i, j + 1);
    }
  }

  /** The walk gives up new line j although m pairs it with old line x: what it finds
      instead cannot lie behind x, or x could be put in front of it. */
  lemma NewLineGivenUp<T>(a: seq<T>, b: seq<T>, m: Pairs, i: nat, j: nat)
    requires i < |a| && j < |b| && a[i] != b[j] && Longest(a, b, m, i, j) && m != [] && m[0].1 == j
    requires Length(a, b, i + 1, j) <= Length(a, b, i, j + 1)
    ensures Diff(a, b, i, j) != [] && Diff(a, b, i, j)[0].0 <= m[0].0
  {
    var x, found := m[0].0, Diff(a, b, i, j + 1);
    assert found == Diff(a, b, i, j) && Length(a, b, i, j) == Length(a, b, i, j + 1);
    assert x < |a| && a[x] == b[j] && Length(a, b, x, j) == Length(a, b, x + 1, j + 1) + 1;
    hide Diff, Length;
    DiffIsMatching(a, b, i, j + 1);
    LengthMonotone(a, b, i, j, x, j);
    if x < found[0].0 {
      assert StartsAt(found, x + 1, j + 1);
      MatchingAtMostLength(a, b, found, x + 1, j + 1);
    }
  }

  /** What follows a pair of the walk is the walk from behind the pair. */
  lemma {:induction false} DiffRest<T>(a: seq<T>, b: seq<T>, i: nat, j: nat)
    requires i <= |a| && j <= |b| && Diff(a, b, i, j) != []
    ensures
      var (x, y) := Diff(a, b, i, j)[0];
      i <= x < |a| && j <= y < |b| && a[x] == b[y] && Diff(a, b, i, j)[1..] == Diff(a, b, x + 1, y + 1)
    decreases |a| - i + |b| - j
  {
    if a[i] != b[j] {
      if Length(a, b, i + 1, j) > Length(a, b, i, j + 1) {
        DiffRest(a, b, i + 1, j);
      } else {
        DiffRest(a, b, i, j + 1);
      }
    }
  }

  /** Among the longest common subsequences that agree with the walk on its first k
      pairs, the walk has the least k-th old line. */
  lemma {:induction false} OldIsLeast<T>(a: seq<T>, b: seq<T>, m: Pairs, i: nat, j: nat, k: nat)
    requires i <= |a| && j <= |b| && Longest(a, b, m, i, j) && k < |m|
    requires k <= |Diff(a, b, i, j)| && m[..k] == Diff(a, b, i, j)[..k]
    ensures k < |Diff(a, b, i, j)| && Diff(a, b, i, j)[k].0 <= m[k].0
    decreases k
  {
    var found := Diff(a, b, i, j);
    if k == 0 {
      FirstOldIsLeast(a, b, m, i, j);
    } else {
      assert m[0] == m[..k][0] == found[..k][0] == found[0];
      DiffRest(a, b, i, j);
      LongestRest(a, b, m, i, j);
      assert m[1..][..k - 1] == m[..k][1..] == found[..k][1..] == found[1..][..k - 1];
      OldIsLeast(a, b, m[1..], m[0].0 + 1, m[0].1 + 1, k - 1);
    }
  }

  /** The new line lo is the last one from which the suffix of a from i still has a
      common subsequence of the length n. */
  ghost predicate LastFor<T>(a: seq<T>, b: seq<T>, i: nat, lo: nat, n: nat)
    requires i <= |a|
  {
    lo < |b| && Length(a, b, i, lo) == n > Length(a, b, i, lo + 1)
  }

  lemma LastForIsUnique<T>(a: seq<T>, b: seq<T>, i: nat, lo: nat, hi: nat, n: nat)
    requires i <= |a| && LastFor(a, b, i, lo, n) && LastFor(a, b, i, hi, n)
    ensures lo == hi
  {
    if lo < hi {
      LengthMonotone(a, b, i, lo + 1, i, hi);
    } else if hi < lo {
      LengthMonotone(a, b, i, hi + 1, i, lo);
    }
  }

  /** The new line y is the first one equal to old line x that the search can reach: it
      looks from new line j on or, when older lines were passed over, from the last new
      line from which the line in front of x could still be spared. */
  ghost predicate FirstNew<T>(a: seq<T>, b: seq<T>, i: nat, j: nat, x: nat, y: nat)
    requires i <= x < |a| && j <= y < |b|
  {
    if x == i then Without(b, a[x], j, y)
    else exists lo :: j <= lo <= y && LastFor(a, b, x - 1, lo, Length(a, b, i, j)) && Without(b, a[x], lo, y)
  }

  ghost predicate Without<T>(b: seq<T>, t: T, from: nat, to: nat)
    requires to <= |b|
  {
    forall z :: from <= z < to ==> b[z] != t
  }

  lemma {:induction false} WalkFindsFirstNew<T>(a: seq<T>, b: seq<T>, i: nat, j: nat)
    requires i <= |a| && j <= |b| && Diff(a, b, i, j) != []
    ensures
      var (x, y) := Diff(a, b, i, j)[0];
      i <= x < |a| && j <= y < |b| && FirstNew(a, b, i, j, x, y)
    decreases |a| - i + |b| - j
  {
    DiffRest(a, b, i, j);
    if a[i] != b[j] {
      var (x, y) := Diff(a, b, i, j)[0];
      if Length(a, b, i + 1, j) > Length(a, b, i, j + 1) {
        DiffRest(a, b, i + 1, j);
        WalkFindsFirstNew(a, b, i + 1, j);
        if x == i + 1 {
          assert LastFor(a, b, i, j, Length(a, b, i, j));
        }
      } else {
        DiffRest(a, b, i, j + 1);
        WalkFindsFirstNew(a, b, i, j + 1);
      }
    }
  }

  lemma FirstNewIsUnique<T>(a: seq<T>, b: seq<T>, i: nat, j: nat, x: nat, y: nat, z: nat)
    requires i <= x < |a| && j <= y < |b| && j <= z < |b| && a[x] == b[y] == b[z]
    requires FirstNew(a, b, i, j, x, y) && FirstNew(a, b, i, j, x, z)
    ensures y == z
  {
    if x > i {
      var n := Length(a, b, i, j);
      var lo :| j <= lo <= y && LastFor(a, b, x - 1, lo, n) && Without(b, a[x], lo, y);
      var hi :| j <= hi <= z && LastFor(a, b, x - 1, hi, n) && Without(b, a[x], hi, z);
      LastForIsUnique(a, b, x - 1, lo, hi, n);
    }
  }

  /** Each pair has the least old line that a longest common subsequence can go on with,
      and the first new line for it. */
  ghost predicate BreaksTies<T>(a: seq<T>, b: seq<T>, m: Pairs, i: nat, j: nat)
    requires i <= |a| && j <= |b| && IsMatching(a, b, m) && StartsAt(m, i, j)
    decreases |m|
  {
    m == [] ||
    var (x, y) := m[0];
    && (forall other: Pairs :: Longest(a, b, other, i, j) && other != [] ==> x <= other[0].0)
    && FirstNew(a, b, i, j, x, y)
    && BreaksTies(a, b, m[1..], x + 1, y + 1)
  }

  lemma {:induction false} WalkBreaksTies<T>(a: seq<T>, b: seq<T>, i: nat, j: nat)
    requires i <= |a| && j <= |b|
    ensures Longest(a, b, Diff(a, b, i, j), i, j) && BreaksTies(a, b, Diff(a, b, i, j), i, j)
    decreases |a| - i + |b| - j
  {
    hide Diff, Length, FirstNew;
    DiffIsMatching(a, b, i, j);
    var found := Diff(a, b, i, j);
    if found != [] {
      DiffRest(a, b, i, j);
      WalkFindsFirstNew(a, b, i, j);
      WalkBreaksTies(a, b, found[0].0 + 1, found[0].1 + 1);
      forall other: Pairs | Longest(a, b, other, i, j) && other != []
        ensures found[0].0 <= other[0].0
      {
        FirstOldIsLeast(a, b, other, i, j);
      }
    }
  }

  /** The walk finds the one longest common subsequence that breaks ties this way. */
  lemma {:induction false} DiffIsOnly<T>(a: seq<T>, b: seq<T>, m: Pairs, i: nat, j: nat)
    requires i <= |a| && j <= |b| && Longest(a, b, m, i, j) && BreaksTies(a, b, m, i, j)
    ensures m == Diff(a, b, i, j)
    decreases |m|
  {
    hide Diff, Length, FirstNew;
    var found := Diff(a, b, i, j);
    WalkBreaksTies(a, b, i, j);
    if m != [] {
      DiffRest(a, b, i, j);
      assert found[0].0 == m[0].0;
      FirstNewIsUnique(a, b, i, j, m[0].0, m[0].1, found[0].1);
      LongestRest(a, b, m, i, j);
      DiffIsOnly(a, b, m[1..], m[0].0 + 1, m[0].1 + 1);
      assert m == [m[0]] + m[1..] && found == [found[0]] + found[1..];
    }
  }

  // ----- the walk of the binder and of the token differ -----

  lemma {:induction false} LengthMirrors<T>(a: seq<T>, b: seq<T>, i: nat, j: nat)
    requires i <= |a| && j <= |b|
    ensures Length(a, b, i, j) == Length(b, a, j, i)
    decreases |a| - i + |b| - j
  {
    if i < |a| && j < |b| {
      LengthMirrors(a, b, i + 1, j + 1);
      LengthMirrors(a, b, i + 1, j);
      LengthMirrors(a, b, i, j + 1);
    }
  }

  function Swapped(m: Pairs): (s: Pairs)
    ensures |s| == |m| && forall k :: 0 <= k < |m| ==> s[k] == (m[k].1, m[k].0)
  {
    if m == [] then [] else [(m[0].1, m[0].0)] + Swapped(m[1..])
  }

  /** It is the walk of the line differ with the sides exchanged. */
  lemma {:induction false} AlignmentMirrors<T>(a: seq<T>, b: seq<T>, i: nat, j: nat)
    requires i <= |a| && j <= |b|
    ensures Alignment(a, b, i, j) == Swapped(Diff(b, a, j, i))
    decreases |a| - i + |b| - j
  {
    if i < |a| && j < |b| {
      if a[i] == b[j] {
        AlignmentMirrors(a, b, i + 1, j + 1);
        var rest := Diff(b, a, j + 1, i + 1);
        assert ([(j, i)] + rest)[1..] == rest;
      } else {
        LengthMirrors(a, b, i + 1, j);
        LengthMirrors(a, b, i, j + 1);
        if Length(a, b, i + 1, j) >= Length(a, b, i, j + 1) {
          AlignmentMirrors(a, b, i + 1, j);
        } else {
          AlignmentMirrors(a, b, i, j + 1);
        }
      }
    }
  }

  lemma LongestMirrors<T>(a: seq<T>, b: seq<T>, m: Pairs, i: nat, j: nat)
    requires i <= |a| && j <= |b|
    ensures Longest(a, b, m, i, j) <==> Longest(b, a, Swapped(m), j, i)
    ensures Swapped(Swapped(m)) == m
  {
    LengthMirrors(a, b, i, j);
    var s := Swapped(m);
    assert forall k :: 0 <= k < |m| ==> m[k] == (s[k].1, s[k].0);
  }

  /** Among the longest common subsequences that agree with this walk on its first k
      pairs, it has the least k-th new line. */
  lemma NewIsLeast<T>(a: seq<T>, b: seq<T>, m: Pairs, k: nat)
    requires Longest(a, b, m, 0, 0) && k < |m|
    requires k <= |Alignment(a, b, 0, 0)| && m[..k] == Alignment(a, b, 0, 0)[..k]
    ensures k < |Alignment(a, b, 0, 0)| && Alignment(a, b, 0, 0)[k].1 <= m[k].1
  {
    AlignmentMirrors(a, b, 0, 0);
    LongestMirrors(a, b, m, 0, 0);
    var found := Alignment(a, b, 0, 0);
    assert forall l :: 0 <= l < k ==> m[l] == m[..k][l] == found[..k][l] == found[l];
    assert Swapped(m)[..k] == Diff(b, a, 0, 0)[..k];
    OldIsLeast(b, a, Swapped(m), 0, 0, k);
  }

  /** This walk, too, finds the one longest common subsequence that breaks ties its way:
      with the least new lines, and the first old line for each. */
  lemma AlignmentIsOnly<T>(a: seq<T>, b: seq<T>, m: Pairs)
    ensures m == Alignment(a, b, 0, 0)
       <==> Longest(a, b, m, 0, 0) && BreaksTies(b, a, Swapped(m), 0, 0)
  {
    AlignmentMirrors(a, b, 0, 0);
    LongestMirrors(a, b, m, 0, 0);
    WalkBreaksTies(b, a, 0, 0);
    LongestMirrors(b, a, Diff(b, a, 0, 0), 0, 0);
    if Longest(a, b, m, 0, 0) && BreaksTies(b, a, Swapped(m), 0, 0) {
      DiffIsOnly(b, a, Swapped(m), 0, 0);
    }
  }

  // ----- an example -----

  const OLD_LINES := ["p", "q", "z"]
  const NEW_LINES := ["q", "p", "z"]

  lemma SwappedLengths()
    ensures Length(OLD_LINES, NEW_LINES, 1, 0) == 2 && Length(OLD_LINES, NEW_LINES, 0, 1) == 2
    ensures Length(OLD_LINES, NEW_LINES, 2, 2) == 1 && Length(OLD_LINES, NEW_LINES, 1, 3) == 0
  {
    var a, b := OLD_LINES, NEW_LINES;
    assert Length(a, b, 3, 3) == 0 && Length(a, b, 2, 2) == 1;
    assert Length(a, b, 2, 1) == 1 && Length(a, b, 1, 2) == 1;
  }

  /** Two lines change places: on the tie the new line counts as added, and the line that
      went away is reported at the line behind it. */
  lemma SwapExample(x: nat)
    ensures Diff(OLD_LINES, NEW_LINES, 0, 0) == [(0, 1), (2, 2)]
    ensures Touched(OLD_LINES, NEW_LINES, x) <==> x == 0 || x == 2
  {
    SwappedLengths();
    var a, b := OLD_LINES, NEW_LINES;
    hide Length;
    assert Diff(a, b, 3, 3) == [] && Diff(a, b, 2, 2) == [(2, 2)];
    assert Diff(a, b, 1, 2) == [(2, 2)] && Diff(a, b, 0, 1) == [(0, 1), (2, 2)];
    var m := [(0, 1), (2, 2)];
    assert Diff(a, b, 0, 0) == m;
    hide Diff;
    GapsOfSwap(x);
  }

  lemma GapsOfSwap(x: nat)
    ensures TouchedBy(OLD_LINES, NEW_LINES, [(0, 1), (2, 2)], x) <==> x == 0 || x == 2
  {
    var a, b, m := OLD_LINES, NEW_LINES, [(0, 1), (2, 2)];
    assert GapTouches(a, b, m, 0, x) <==> x == 0;
    assert GapTouches(a, b, m, 1, x) <==> x == 2;
    assert !GapTouches(a, b, m, 2, x);
  }

  /** A line that went away behind the last line is reported at the last line. */
  lemma DroppedExample(x: nat)
    ensures Touched(["p", "q"], ["p"], x) <==> x == 0
  {
    var a, b := ["p", "q"], ["p"];
    assert Diff(a, b, 1, 1) == [] && [(0, 0)] + [] == [(0, 0)];
    assert Diff(a, b, 0, 0) == [(0, 0)];
    hide Diff;
    GapsOfDropped(x);
  }

  lemma GapsOfDropped(x: nat)
    ensures TouchedBy(["p", "q"], ["p"], [(0, 0)], x) <==> x == 0
  {
    var a, b, m := ["p", "q"], ["p"], [(0, 0)];
    assert !GapTouches(a, b, m, 0, x);
    assert GapTouches(a, b, m, 1, x) <==> x == 0;
  }
}
