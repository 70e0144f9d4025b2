/** The edit script of two token lists, told from their alignment: one edit for each gap
    between aligned tokens, and nothing else.
 */
module ScriptGaps {
  import opened Lcs
  import opened Tokenizer
  import opened EditScripts

  type Pairs = seq<(nat, nat)>

  /** The edit for base[i..x] and side[j..y], if there is anything. */
  function GapEdit(side: seq<Token>, i: nat, x: nat, j: nat, y: nat): seq<TokenEdit>
    requires j <= y <= |side|
  {
    if i < x || j < y then [TokenEdit(i, x, side[j..y])] else []
  }

  ghost function GapEdits(base: seq<Token>, side: seq<Token>, m: Pairs, i: nat, j: nat): seq<TokenEdit>
    requires i <= |base| && j <= |side| && IsMatching(base, side, m) && StartsAt(m, i, j)
    decreases |m|
  {
    if m == [] then GapEdit(side, i, |base|, j, |side|)
    else GapEdit(side, i, m[0].0, j, m[0].1) + GapEdits(base, side, m[1..], m[0].0 + 1, m[0].1 + 1)
  }

  /** The place where the gap from i and j ends, and the edits behind it. */
  ghost function GapEnd(base: seq<Token>, side: seq<Token>, m: Pairs): (nat, nat) {
    if m == [] then (|base|, |side|) else m[0]
  }

  ghost function Behind(base: seq<Token>, side: seq<Token>, m: Pairs): seq<TokenEdit>
    requires IsMatching(base, side, m)
  {
    if m == [] then [] else GapEdits(base, side, m[1..], m[0].0 + 1, m[0].1 + 1)
  }

  lemma GapFirst(base: seq<Token>, side: seq<Token>, m: Pairs, i: nat, j: nat)
    requires i <= |base| && j <= |side| && IsMatching(base, side, m) && StartsAt(m, i, j)
    ensures
      var (x, y) := GapEnd(base, side, m);
      i <= x <= |base| && j <= y <= |side|
      && GapEdits(base, side, m, i, j) == GapEdit(side, i, x, j, y) + Behind(base, side, m)
  {
  }

  lemma {:induction false} StartsFrom(base: seq<Token>, side: seq<Token>, m: Pairs, i: nat, j: nat)
    requires i <= |base| && j <= |side| && IsMatching(base, side, m) && StartsAt(m, i, j)
    ensures forall e :: e in GapEdits(base, side, m, i, j) ==> i <= e.start
    decreases |m|
  {
    hide GapEdits, IsMatching, StartsAt, GapEdit;
    GapFirst(base, side, m, i, j);
    var (x, y) := GapEnd(base, side, m);
    if m != [] {
      RestMatches(base, side, m);
      StartsFrom(base, side, m[1..], m[0].0 + 1, m[0].1 + 1);
    }
    GapStarts(side, i, x, j, y, Behind(base, side, m));
  }

  lemma GapStarts(side: seq<Token>, i: nat, x: nat, j: nat, y: nat, rest: seq<TokenEdit>)
    requires i <= x && j <= y <= |side| && forall e :: e in rest ==> i <= e.start
    ensures forall e :: e in GapEdit(side, i, x, j, y) + rest ==> i <= e.start
  {
  }

  lemma RestMatches(base: seq<Token>, side: seq<Token>, m: Pairs)
    requires IsMatching(base, side, m) && m != []
    ensures m[0].0 < |base| && m[0].1 < |side|
    ensures IsMatching(base, side, m[1..]) && StartsAt(m[1..], m[0].0 + 1, m[0].1 + 1)
  {
  }

  /** One token of a gap more, deleted or inserted, belongs to the edit of the gap. */
  lemma PrependEdit(side: seq<Token>, i: nat, i': nat, x: nat, j: nat, j': nat, y: nat, rest: seq<TokenEdit>)
    requires i <= i' <= x && j <= j' <= y <= |side| && (i < i' || j < j')
    requires rest != [] ==> i' < rest[0].start
    ensures Prepend(i, i', side[j..j'], GapEdit(side, i', x, j', y) + rest) == GapEdit(side, i, x, j, y) + rest
  {
    if i' < x || j' < y {
      JoinSlices(side, j, j', y);
      var e := TokenEdit(i', x, side[j'..y]);
      assert ([e] + rest)[0] == e && ([e] + rest)[1..] == rest;
    } else {
      assert [] + rest == rest;
    }
  }

  lemma JoinSlices(side: seq<Token>, i: nat, j: nat, k: nat)
    requires i <= j <= k <= |side|
    ensures side[i..j] + side[j..k] == side[i..k]
  {
  }

  lemma BehindStarts(base: seq<Token>, side: seq<Token>, m: Pairs)
    requires IsMatching(base, side, m)
    ensures Behind(base, side, m) != [] ==> GapEnd(base, side, m).0 < Behind(base, side, m)[0].start
  {
    if m != [] {
      hide GapEdits;
      StartsFrom(base, side, m[1..], m[0].0 + 1, m[0].1 + 1);
    }
  }

  lemma PrependGap(base: seq<Token>, side: seq<Token>, m: Pairs, i: nat, i': nat, j: nat, j': nat)
    requires i <= i' <= |base| && j <= j' <= |side| && (i < i' || j < j')
    requires IsMatching(base, side, m) && StartsAt(m, i', j')
    ensures StartsAt(m, i, j)
    ensures Prepend(i, i', side[j..j'], GapEdits(base, side, m, i', j')) == GapEdits(base, side, m, i, j)
  {
    hide GapEdits, GapEdit, Prepend, IsMatching, Behind, GapEnd;
    var (x, y) := GapEnd(base, side, m);
    GapFirst(base, side, m, i, j);
    GapFirst(base, side, m, i', j');
    BehindStarts(base, side, m);
    PrependEdit(side, i, i', x, j, j', y, Behind(base, side, m));
  }

  /** A pair in front of the edits adds nothing to them. */
  lemma PairAddsNothing(base: seq<Token>, side: seq<Token>, m: Pairs, i: nat, j: nat)
    requires i < |base| && j < |side| && base[i] == side[j] && IsMatching(base, side, m) && StartsAt(m, i + 1, j + 1)
    ensures IsMatching(base, side, [(i, j)] + m) && StartsAt([(i, j)] + m, i, j)
    ensures GapEdits(base, side, [(i, j)] + m, i, j) == GapEdits(base, side, m, i + 1, j + 1)
  {
    MatchingPrepend(base, side, i, j, m);
    FirstPair(base, side, [(i, j)] + m, i, j, m);
  }

  lemma FirstPair(base: seq<Token>, side: seq<Token>, all: Pairs, i: nat, j: nat, rest: Pairs)
    requires i < |base| && j < |side| && IsMatching(base, side, all) && StartsAt(all, i, j)
    requires all != [] && all[0] == (i, j) && all[1..] == rest && IsMatching(base, side, rest)
    requires StartsAt(rest, i + 1, j + 1)
    ensures GapEdits(base, side, all, i, j) == GapEdits(base, side, rest, i + 1, j + 1)
  {
    hide IsMatching, StartsAt;
    var more := GapEdits(base, side, rest, i + 1, j + 1);
    assert GapEdits(base, side, all, i, j) == GapEdit(side, i, i, j, j) + more;
    hide GapEdits;
    assert [] + more == more;
  }

  lemma {:induction false} ScriptIsGaps(base: seq<Token>, side: seq<Token>, i: nat, j: nat)
    requires i <= |base| && j <= |side|
    ensures IsMatching(base, side, Alignment(base, side, i, j)) && StartsAt(Alignment(base, side, i, j), i, j)
    ensures Script(base, side, i, j) == GapEdits(base, side, Alignment(base, side, i, j), i, j)
    decreases |base| - i + |side| - j
  {
    hide GapEdits, Prepend, IsMatching, StartsAt, Length;
    AlignmentIsMatching(base, side, i, j);
    if i == |base| || j == |side| {
      EndGap(base, side, i, j);
      NoPairs(base, side, i, j);
    } else if base[i] == side[j] {
      ScriptIsGaps(base, side, i + 1, j + 1);
      PairAddsNothing(base, side, Alignment(base, side, i + 1, j + 1), i, j);
    } else if Length(base, side, i + 1, j) >= Length(base, side, i, j + 1) {
      ScriptIsGaps(base, side, i + 1, j);
      PrependGap(base, side, Alignment(base, side, i + 1, j), i, i + 1, j, j);
      assert side[j..j] == [];
    } else {
      ScriptIsGaps(base, side, i, j + 1);
      PrependGap(base, side, Alignment(base, side, i, j + 1), i, i, j, j + 1);
      assert side[j..j + 1] == [side[j]];
    }
  }

  lemma NoPairs(base: seq<Token>, side: seq<Token>, i: nat, j: nat)
    requires i <= |base| && j <= |side|
    ensures IsMatching(base, side, []) && StartsAt([], i, j)
    ensures GapEdits(base, side, [], i, j) == GapEdit(side, i, |base|, j, |side|)
  {
  }

  lemma NoGap(side: seq<Token>, i: nat)
    ensures GapEdit(side, i, i, |side|, |side|) == []
  {
  }

  /** When one list has ended, what is left of the other is one edit. */
  lemma {:induction false} EndGap(base: seq<Token>, side: seq<Token>, i: nat, j: nat)
    requires i <= |base| && j <= |side| && (i == |base| || j == |side|)
    ensures Alignment(base, side, i, j) == [] && Script(base, side, i, j) == GapEdit(side, i, |base|, j, |side|)
    decreases |base| - i + |side| - j
  {
    hide Prepend, GapEdit, Length;
    var none := GapEdit(side, i, |base|, j, |side|);
    assert none + [] == none;
    if i < |base| {
      EndGap(base, side, i + 1, j);
      PrependEdit(side, i, i + 1, |base|, j, j, |side|, []);
      var more := GapEdit(side, i + 1, |base|, j, |side|);
      assert side[j..j] == [] && more + [] == more;
    } else if j < |side| {
      EndGap(base, side, i, j + 1);
      PrependEdit(side, i, i, |base|, j, j + 1, |side|, []);
      var more := GapEdit(side, i, |base|, j + 1, |side|);
      assert side[j..j + 1] == [side[j]] && more + [] == more;
    } else {
      NoGap(side, i);
    }
  }

  /** The script is exactly the gaps of the alignment. */
  lemma EditScriptIsGaps(base: seq<Token>, side: seq<Token>)
    ensures IsMatching(base, side, Alignment(base, side, 0, 0))
    ensures EditScript(base, side) == GapEdits(base, side, Alignment(base, side, 0, 0), 0, 0)
  {
    ScriptIsGaps(base, side, 0, 0);
  }
}
