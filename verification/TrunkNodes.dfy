/** What the branches and leaves of an extracted tree hold, told from the atoms and the
    branches that were there before.
 */
module TrunkNodes {
  import opened Wrappers
  import opened KeyedLists
  import opened Trunk
  import opened TrunkLaws

  /** The earlier atoms with the kind and the symbol of atom k. */
  function Likes(atoms: seq<Atom>, k: nat): set<nat>
    requires k < |atoms|
  {
    set i: nat | i < k && atoms[i].kind == atoms[k].kind && atoms[i].symbol == atoms[k].symbol
  }

  function With(atoms: seq<Atom>, kind: string, symbol: string): set<nat> {
    set i: nat | i < |atoms| && atoms[i].kind == kind && atoms[i].symbol == symbol
  }

  lemma WithLast(atoms: seq<Atom>, kind: string, symbol: string)
    requires atoms != []
    ensures
      var n := |atoms| - 1;
      && With(atoms, kind, symbol)
         == With(atoms[..n], kind, symbol) + (if atoms[n].kind == kind && atoms[n].symbol == symbol then {n} else {})
      && n !in With(atoms[..n], kind, symbol)
  {
    var n := |atoms| - 1;
    assert forall i :: 0 <= i < n ==> atoms[..n][i] == atoms[i];
  }

  lemma {:induction false} CountIs(atoms: seq<Atom>, kind: string, symbol: string)
    ensures Count(atoms, kind, symbol) == |With(atoms, kind, symbol)|
    decreases |atoms|
  {
    if atoms == [] {
      assert With(atoms, kind, symbol) == {};
    } else {
      CountIs(atoms[..|atoms| - 1], kind, symbol);
      WithLast(atoms, kind, symbol);
      hide With;
    }
  }

  /** The identifier of a branch is made of the kind and symbol of its atom and of how
      many earlier atoms have them. */
  lemma IdIs(s: Scheme, trunk: nat, atoms: seq<Atom>, k: nat)
    requires k < |atoms|
    ensures IdAt(s, trunk, atoms, k) == s.branchId(trunk, atoms[k].kind, atoms[k].symbol, |Likes(atoms, k)|)
  {
    CountIs(atoms[..k], atoms[k].kind, atoms[k].symbol);
    assert With(atoms[..k], atoms[k].kind, atoms[k].symbol) == Likes(atoms, k);
  }

  /** A leaf of the old branch whose word is gone. */
  ghost predicate IsTombstone(l: Leaf, was: Branch, words: seq<Leaf>) {
    && !l.alive && l.id !in LeafIds(words)
    && exists o :: o in was.leaves && o.id == l.id && o.textHash == l.textHash
  }

  /** A branch of atom k: a live leaf for each word, made of its place and its hash, and
      then the tombstones of the branch that had the identifier before. */
  ghost predicate IsBranchOf(s: Scheme, trunk: nat, atoms: seq<Atom>, previous: seq<Branch>, k: nat, b: Branch)
    requires k < |atoms|
  {
    var words := atoms[k].tokens;
    && b.id == s.branchId(trunk, atoms[k].kind, atoms[k].symbol, |Likes(atoms, k)|)
    && b.alive && b.sourceHash == atoms[k].contentHash && |b.leaves| >= |words|
    && (forall i :: 0 <= i < |words| ==>
          b.leaves[i] == Leaf(s.leafId(trunk, b.id, i, s.textHash(words[i])), true, s.textHash(words[i])))
    && (forall l :: l in b.leaves[|words|..] ==>
          exists was :: was in previous && was.id == b.id && IsTombstone(l, was, b.leaves[..|words|]))
  }

  lemma {:induction false} GoneAreTombstones(was: Branch, leaves: seq<Leaf>, words: seq<Leaf>)
    requires forall l :: l in leaves ==> l in was.leaves
    ensures forall l :: l in GoneLeaves(leaves, LeafIds(words)) ==> IsTombstone(l, was, words)
    decreases |leaves|
  {
    if leaves != [] {
      assert leaves[0] in leaves && forall l :: l in leaves[1..] ==> l in leaves;
      GoneAreTombstones(was, leaves[1..], words);
    }
  }

  lemma BranchAtIs(s: Scheme, trunk: nat, atoms: seq<Atom>, previous: seq<Branch>, k: nat)
    requires k < |atoms|
    ensures IsBranchOf(s, trunk, atoms, previous, k, BranchAt(s, trunk, atoms, previous, k))
  {
    IdIs(s, trunk, atoms, k);
    var b := BranchAt(s, trunk, atoms, previous, k);
    var words := CurrentLeaves(s, trunk, b.id, atoms[k].tokens);
    var found := FindBranch(previous, b.id);
    hide IdAt, Likes;
    if found.Some? {
      GoneAreTombstones(found.value, found.value.leaves, words);
    }
    hide GoneLeaves, IsTombstone, FindBranch;
    assert b.leaves[..|words|] == words;
    assert found.None? ==> b.leaves[|words|..] == [];
    assert found.Some? ==> b.leaves[|words|..] == GoneLeaves(found.value.leaves, LeafIds(words));
  }

  lemma DeadDied(was: Branch)
    ensures Died(was, DeadBranch(was))
  {
  }

  ghost predicate HasBranchOf(s: Scheme, t: SemanticTrunk, atoms: seq<Atom>, previous: seq<Branch>, k: nat)
    requires k < |atoms|
  {
    exists b :: b in t.branches && IsBranchOf(s, t.id, atoms, previous, k, b)
  }

  ghost predicate IsCurrent(s: Scheme, trunk: nat, atoms: seq<Atom>, previous: seq<Branch>, b: Branch) {
    exists k :: 0 <= k < |atoms| && IsBranchOf(s, trunk, atoms, previous, k, b)
  }

  ghost predicate HasDied(previous: seq<Branch>, b: Branch) {
    exists was :: was in previous && Died(was, b)
  }

  /** Every atom has its branch in the extracted tree, every other branch of the tree
      was there before and has died, and the tree is in the order of the identifiers. */
  lemma ExtractedIs(s: Scheme, newId: nat, path: string, atoms: seq<Atom>, previous: Option<SemanticTrunk>)
    ensures
      var t, was := Extracted(s, newId, path, atoms, previous), OldBranches(previous);
      && (forall k :: 0 <= k < |atoms| ==> HasBranchOf(s, t, atoms, was, k))
      && (forall b :: b in t.branches ==> IsCurrent(s, t.id, atoms, was, b) || HasDied(was, b))
      && Ordered(BranchKey, t.branches)
  {
    var t, was := Extracted(s, newId, path, atoms, previous), OldBranches(previous);
    var all := AllBranches(s, t.id, atoms, was);
    assert t.branches == Sort(BranchKey, all);
    SortOrders(BranchKey, all);
    hide Sort, BranchAt, IsBranchOf, DeadBranch, Died;
    forall k | 0 <= k < |atoms|
      ensures HasBranchOf(s, t, atoms, was, k)
    {
      HasBranch(s, t.id, atoms, was, k);
      BranchAtIs(s, t.id, atoms, was, k);
    }
    forall b | b in t.branches
      ensures IsCurrent(s, t.id, atoms, was, b) || HasDied(was, b)
    {
      BranchKinds(s, t.id, atoms, was, b);
      if k :| 0 <= k < |atoms| && b == BranchAt(s, t.id, atoms, was, k) {
        BranchAtIs(s, t.id, atoms, was, k);
      } else {
        var dead :| dead in was && b == DeadBranch(dead);
        DeadDied(dead);
      }
    }
  }
}
