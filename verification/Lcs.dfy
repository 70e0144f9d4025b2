/** Longest common subsequences of two sequences, as the differs of the
    repository compute them: a suffix table filled from the bottom right corner,
    and a greedy walk from the top left corner that reads it.
 */
module Lcs {

  function Max(x: nat, y: nat): nat {
    if x < y then y else x
  }

  /** The entry [i][j] of the table: the length for the suffixes a[i..], b[j..]. */
  function Length<T(==)>(a: seq<T>, b: seq<T>, i: nat, j: nat): nat
    requires i <= |a| && j <= |b|
    decreases |a| - i + |b| - j
  {
    if i == |a| || j == |b| then 0
    else if a[i] == b[j] then Length(a, b, i + 1, j + 1) + 1
    else Max(Length(a, b, i + 1, j), Length(a, b, i, j + 1))
  }

  ghost predicate RowFilled<T>(table: array2<nat>, a: seq<T>, b: seq<T>, i: nat, from: nat)
    requires table.Length0 == |a| + 1 && table.Length1 == |b| + 1 && i <= |a|
    reads table
  {
    forall j :: from <= j <= |b| ==> table[i, j] == Length(a, b, i, j)
  }

  /** The nested loop that fills the table from its last row upwards. */
  method FillTable<T(==)>(a: seq<T>, b: seq<T>) returns (table: array2<nat>)
    ensures fresh(table) && table.Length0 == |a| + 1 && table.Length1 == |b| + 1
    ensures forall i :: 0 <= i <= |a| ==> RowFilled(table, a, b, i, 0)
  {
    table := new nat[|a| + 1, |b| + 1]((_, _) => 0);
    for i := |a| downto 0
      invariant forall k :: i <= k <= |a| ==> RowFilled(table, a, b, k, 0)
      invariant forall k :: 0 <= k < i ==> table[k, |b|] == 0
    {
      label Before:
      FillRow(table, a, b, i);
      forall k | i < k <= |a|
        ensures RowFilled(table, a, b, k, 0)
      {
        assert old@Before(RowFilled(table, a, b, k, 0));
      }
    }
  }

  method FillRow<T(==)>(table: array2<nat>, a: seq<T>, b: seq<T>, i: nat)
    requires table.Length0 == |a| + 1 && table.Length1 == |b| + 1 && i < |a|
    requires RowFilled(table, a, b, i + 1, 0) && table[i, |b|] == 0
    modifies table
    ensures RowFilled(table, a, b, i, 0)
    ensures forall k, j :: 0 <= k <= |a| && 0 <= j <= |b| && k != i ==> table[k, j] == old(table[k, j])
  {
    for j := |b| downto 0
      invariant RowFilled(table, a, b, i, j)
      invariant forall k, l :: 0 <= k <= |a| && 0 <= l <= |b| && k != i ==> table[k, l] == old(table[k, l])
    {
      assert table[i + 1, j + 1] == Length(a, b, i + 1, j + 1) && table[i + 1, j] == Length(a, b, i + 1, j);
      table[i, j] :=
        if a[i] == b[j] then table[i + 1, j + 1] + 1
        else Max(table[i + 1, j], table[i, j + 1]);
    }
  }

  /** Strictly increasing pairs of positions that hold equal elements: what it
      means for a list of pairs to be a common subsequence of a and b. */
  ghost predicate IsMatching<T>(a: seq<T>, b: seq<T>, m: seq<(nat, nat)>) {
    && (forall k :: 0 <= k < |m| ==> m[k].0 < |a| && m[k].1 < |b| && a[m[k].0] == b[m[k].1])
    && (forall k, l :: 0 <= k < l < |m| ==> m[k].0 < m[l].0 && m[k].1 < m[l].1)
  }

  ghost predicate StartsAt(m: seq<(nat, nat)>, i: nat, j: nat) {
    forall k :: 0 <= k < |m| ==> i <= m[k].0 && j <= m[k].1
  }

  /** One row or one column further the table holds at most one less. */
  lemma {:induction false} LengthStep<T>(a: seq<T>, b: seq<T>, i: nat, j: nat)
    requires i <= |a| && j <= |b|
    ensures i < |a| ==> Length(a, b, i + 1, j) <= Length(a, b, i, j) <= Length(a, b, i + 1, j) + 1
    ensures j < |b| ==> Length(a, b, i, j + 1) <= Length(a, b, i, j) <= Length(a, b, i, j + 1) + 1
    decreases |a| - i + |b| - j
  {
    if i < |a| && j < |b| {
      LengthStep(a, b, i + 1, j + 1);
      LengthStep(a, b, i + 1, j);
      LengthStep(a, b, i, j + 1);
    }
  }

  lemma {:induction false} LengthMonotone<T>(a: seq<T>, b: seq<T>, i: nat, j: nat, i': nat, j': nat)
    requires i <= i' <= |a| && j <= j' <= |b|
    ensures Length(a, b, i', j') <= Length(a, b, i, j)
    decreases i' - i + j' - j
  {
    if i < i' {
      LengthStep(a, b, i, j);
      LengthMonotone(a, b, i + 1, j, i', j');
    } else if j < j' {
      LengthStep(a, b, i, j);
      LengthMonotone(a, b, i, j + 1, i', j');
    }
  }

  /** No common subsequence is longer than the table says. */
  lemma {:induction false} MatchingAtMostLength<T>(a: seq<T>, b: seq<T>, m: seq<(nat, nat)>, i: nat, j: nat)
    requires i <= |a| && j <= |b|
    requires IsMatching(a, b, m) && StartsAt(m, i, j)
    ensures |m| <= Length(a, b, i, j)
    decreases |m|
  {
    if m != [] {
      var (x, y) := m[0];
      LengthMonotone(a, b, i, j, x, y);
      MatchingAtMostLength(a, b, m[1..], x + 1, y + 1);
    }
  }

  /** The walk that `align_lines` and `token_edits` take over the table: equal
      elements are paired at once, and on a tie the left sequence advances. */
  function Alignment<T(==)>(a: seq<T>, b: seq<T>, i: nat, j: nat): seq<(nat, nat)>
    requires i <= |a| && j <= |b|
    decreases |a| - i + |b| - j
  {
    if i == |a| || j == |b| then []
    else if a[i] == b[j] then [(i, j)] + Alignment(a, b, i + 1, j + 1)
    else if Length(a, b, i + 1, j) >= Length(a, b, i, j + 1) then Alignment(a, b, i + 1, j)
    else Alignment(a, b, i, j + 1)
  }

  lemma MatchingPrepend<T>(a: seq<T>, b: seq<T>, i: nat, j: nat, rest: seq<(nat, nat)>)
    requires i < |a| && j < |b| && a[i] == b[j]
    requires IsMatching(a, b, rest) && StartsAt(rest, i + 1, j + 1)
    ensures IsMatching(a, b, [(i, j)] + rest) && StartsAt([(i, j)] + rest, i, j)
  {
    var all := [(i, j)] + rest;
    assert forall k :: 1 <= k < |all| ==> all[k] == rest[k - 1];
  }

  lemma {:induction false} AlignmentIsMatching<T>(a: seq<T>, b: seq<T>, i: nat, j: nat)
    requires i <= |a| && j <= |b|
    ensures IsMatching(a, b, Alignment(a, b, i, j)) && StartsAt(Alignment(a, b, i, j), i, j)
    decreases |a| - i + |b| - j
  {
    if i == |a| || j == |b| {
      assert Alignment(a, b, i, j) == [];
    } else if a[i] == b[j] {
      AlignmentIsMatching(a, b, i + 1, j + 1);
      MatchingPrepend(a, b, i, j, Alignment(a, b, i + 1, j + 1));
    } else if Length(a, b, i + 1, j) >= Length(a, b, i, j + 1) {
      AlignmentIsMatching(a, b, i + 1, j);
      assert Alignment(a, b, i, j) == Alignment(a, b, i + 1, j);
    } else {
      AlignmentIsMatching(a, b, i, j + 1);
      assert Alignment(a, b, i, j) == Alignment(a, b, i, j + 1);
    }
  }

  lemma {:induction false} AlignmentHasLength<T>(a: seq<T>, b: seq<T>, i: nat, j: nat)
    requires i <= |a| && j <= |b|
    ensures |Alignment(a, b, i, j)| == Length(a, b, i, j)
    decreases |a| - i + |b| - j
  {
    if i < |a| && j < |b| {
      if a[i] == b[j] {
        AlignmentHasLength(a, b, i + 1, j + 1);
      } else if Length(a, b, i + 1, j) >= Length(a, b, i, j + 1) {
        AlignmentHasLength(a, b, i + 1, j);
      } else {
        AlignmentHasLength(a, b, i, j + 1);
      }
    }
  }

  /** The walk finds a longest common subsequence. */
  lemma AlignmentIsLongest<T>(a: seq<T>, b: seq<T>)
    ensures IsMatching(a, b, Alignment(a, b, 0, 0))
    ensures forall m :: IsMatching(a, b, m) ==> |m| <= |Alignment(a, b, 0, 0)|
  {
    AlignmentIsMatching(a, b, 0, 0);
    AlignmentHasLength(a, b, 0, 0);
    forall m | IsMatching(a, b, m)
      ensures |m| <= Length(a, b, 0, 0)
    {
      MatchingAtMostLength(a, b, m, 0, 0);
    }
  }
}
