/** What extraction and deletion keep over any run on one file: identities only grow and
    stay unique, and after an extraction exactly the current nodes are alive.
 */
module TrunkLaws {
  import opened Wrappers
  import opened KeyedLists
  import opened Trunk

  // ----- current branches -----

  lemma {:induction false} CountGrows(atoms: seq<Atom>, i: nat, j: nat, kind: string, symbol: string)
    requires i < j <= |atoms| && atoms[i].kind == kind && atoms[i].symbol == symbol
    ensures Count(atoms[..i], kind, symbol) < Count(atoms[..j], kind, symbol)
    decreases j
  {
    assert atoms[..j][..j - 1] == atoms[..j - 1];
    if i < j - 1 {
      CountGrows(atoms, i, j - 1, kind, symbol);
    }
  }

  /** The occurrence number tells atoms of one kind and symbol apart. */
  lemma IdsDiffer(s: Scheme, trunk: nat, atoms: seq<Atom>, i: nat, j: nat)
    requires Sound(s) && i < j < |atoms|
    ensures IdAt(s, trunk, atoms, i) != IdAt(s, trunk, atoms, j)
  {
    if atoms[i].kind == atoms[j].kind && atoms[i].symbol == atoms[j].symbol {
      CountGrows(atoms, i, j, atoms[i].kind, atoms[i].symbol);
    }
  }

  lemma CurrentDistinct(s: Scheme, trunk: nat, atoms: seq<Atom>, previous: seq<Branch>)
    requires Sound(s)
    ensures Distinct(BranchKey, CurrentBranches(s, trunk, atoms, previous))
  {
    hide IdAt, LeavesAt;
    forall i, j | 0 <= i < j < |atoms|
      ensures IdAt(s, trunk, atoms, i) != IdAt(s, trunk, atoms, j)
    {
      IdsDiffer(s, trunk, atoms, i, j);
    }
  }

  // ----- tombstones -----

  lemma LeafConcat(a: seq<Leaf>, b: seq<Leaf>)
    ensures LeafIds(a + b) == LeafIds(a) + LeafIds(b)
    ensures Distinct(LeafKey, a) && Distinct(LeafKey, b) && LeafIds(a) !! LeafIds(b) ==> Distinct(LeafKey, a + b)
  {
    Concat(LeafKey, a, b);
  }

  lemma LeafHead(leaves: seq<Leaf>)
    requires leaves != []
    ensures LeafIds(leaves) == {leaves[0].id} + LeafIds(leaves[1..])
    ensures Distinct(LeafKey, leaves) ==> Distinct(LeafKey, leaves[1..]) && leaves[0].id !in LeafIds(leaves[1..])
  {
    Head(LeafKey, leaves);
  }

  lemma OneLeaf(l: Leaf)
    ensures LeafIds([l]) == {l.id} && Distinct(LeafKey, [l])
  {
    One(LeafKey, l);
  }

  lemma {:induction false} GoneLeafIds(leaves: seq<Leaf>, current: set<nat>)
    ensures LeafIds(GoneLeaves(leaves, current)) == LeafIds(leaves) - current
    ensures Distinct(LeafKey, leaves) ==> Distinct(LeafKey, GoneLeaves(leaves, current))
    decreases |leaves|
  {
    if leaves != [] {
      var gone := GoneLeaves(leaves[1..], current);
      LeafHead(leaves);
      GoneLeafIds(leaves[1..], current);
      OneLeaf(DeadLeaf(leaves[0]));
      LeafConcat([DeadLeaf(leaves[0])], gone);
      assert [] + gone == gone;
      hide Distinct, LeafIds;
    }
  }

  lemma {:induction false} GoneAreDead(leaves: seq<Leaf>, current: set<nat>)
    ensures forall l :: l in GoneLeaves(leaves, current) ==> !l.alive
    decreases |leaves|
  {
    if leaves != [] {
      GoneAreDead(leaves[1..], current);
    }
  }

  lemma {:induction false} GoneBranchIds(branches: seq<Branch>, current: set<nat>)
    ensures BranchIds(GoneBranches(branches, current)) == BranchIds(branches) - current
    ensures Distinct(BranchKey, branches) ==> Distinct(BranchKey, GoneBranches(branches, current))
    decreases |branches|
  {
    if branches != [] {
      var rest := branches[1..];
      Head(BranchKey, branches);
      GoneBranchIds(rest, current);
      One(BranchKey, DeadBranch(branches[0]));
      Concat(BranchKey, [DeadBranch(branches[0])], GoneBranches(rest, current));
      assert branches[0].id in current ==> [] + GoneBranches(rest, current) == GoneBranches(rest, current);
    }
  }

  lemma {:induction false} GoneBranchMembers(branches: seq<Branch>, current: set<nat>, b: Branch)
    ensures b in GoneBranches(branches, current) <==> exists was ::
        was in branches && was.id !in current && b == DeadBranch(was)
    decreases |branches|
  {
    if branches != [] {
      hide DeadBranch;
      GoneBranchMembers(branches[1..], current, b);
      assert branches == [branches[0]] + branches[1..];
    }
  }

  lemma DeadKeepsIds(leaves: seq<Leaf>)
    ensures LeafIds(DeadLeaves(leaves)) == LeafIds(leaves)
    ensures Distinct(LeafKey, DeadLeaves(leaves)) <==> Distinct(LeafKey, leaves)
    ensures forall l :: l in DeadLeaves(leaves) ==> !l.alive
  {
    var dead := DeadLeaves(leaves);
    assert forall i :: 0 <= i < |leaves| ==> LeafKey(dead[i]) == LeafKey(leaves[i]);
  }

  // ----- one branch -----

  function AliveLeafIds(leaves: seq<Leaf>): set<nat> {
    set l | l in leaves && l.alive :: l.id
  }

  function AliveBranchIds(t: SemanticTrunk): set<nat> {
    set b | b in t.branches && b.alive :: b.id
  }

  /** The leaves of a current branch: alive exactly for the current words, the others
      kept as tombstones. */
  lemma LeavesOfBranch(s: Scheme, trunk: nat, atoms: seq<Atom>, previous: seq<Branch>, k: nat)
    requires Sound(s) && k < |atoms|
    requires forall b :: b in previous ==> Distinct(LeafKey, b.leaves)
    ensures
      var id := IdAt(s, trunk, atoms, k);
      var current, leaves := CurrentLeaves(s, trunk, id, atoms[k].tokens), LeavesAt(s, trunk, atoms, previous, k);
      && Distinct(LeafKey, leaves)
      && AliveLeafIds(leaves) == LeafIds(current)
      && LeafIds(leaves) == LeafIds(current)
                          + (match FindBranch(previous, id) case None => {} case Some(branch) => LeafIds(branch.leaves))
  {
    hide Sort, IdAt;
    var id := IdAt(s, trunk, atoms, k);
    var current := CurrentLeaves(s, trunk, id, atoms[k].tokens);
    hide Distinct, CurrentLeaves, LeafIds, AliveLeafIds, GoneLeaves;
    match FindBranch(previous, id)
    case None =>
    case Some(branch) =>
      GoneLeafIds(branch.leaves, LeafIds(current));
      GoneAreDead(branch.leaves, LeafIds(current));
      LeafConcat(current, GoneLeaves(branch.leaves, LeafIds(current)));
  }

  // ----- the whole tree -----

  /** b keeps the identity, paths, branches and leaves of a. */
  ghost predicate Grows(a: SemanticTrunk, b: SemanticTrunk) {
    && a.id == b.id && a.paths <= b.paths
    && BranchIds(a.branches) <= BranchIds(b.branches)
    && forall x, y :: x in a.branches && y in b.branches && x.id == y.id ==> LeafIds(x.leaves) <= LeafIds(y.leaves)
  }

  /** The branches before they are sorted. */
  ghost function AllBranches(s: Scheme, trunk: nat, atoms: seq<Atom>, previous: seq<Branch>): seq<Branch> {
    var current := CurrentBranches(s, trunk, atoms, previous);
    current + GoneBranches(previous, BranchIds(current))
  }

  lemma BranchConcat(a: seq<Branch>, b: seq<Branch>)
    ensures BranchIds(a + b) == BranchIds(a) + BranchIds(b)
    ensures Distinct(BranchKey, a) && Distinct(BranchKey, b) && BranchIds(a) !! BranchIds(b) ==>
        Distinct(BranchKey, a + b)
  {
    Concat(BranchKey, a, b);
  }

  lemma AllBranchIds(s: Scheme, trunk: nat, atoms: seq<Atom>, previous: seq<Branch>)
    requires Sound(s) && Distinct(BranchKey, previous)
    ensures
      var all := AllBranches(s, trunk, atoms, previous);
      && Distinct(BranchKey, all)
      && BranchIds(all) == BranchIds(CurrentBranches(s, trunk, atoms, previous)) + BranchIds(previous)
  {
    var current := CurrentBranches(s, trunk, atoms, previous);
    CurrentDistinct(s, trunk, atoms, previous);
    hide Distinct, BranchIds, GoneBranches, CurrentBranches;
    GoneBranchIds(previous, BranchIds(current));
    BranchConcat(current, GoneBranches(previous, BranchIds(current)));
  }

  /** A branch of the extracted tree is the branch of an atom or a tombstone. */
  lemma BranchKinds(s: Scheme, trunk: nat, atoms: seq<Atom>, previous: seq<Branch>, b: Branch)
    requires b in Sort(BranchKey, AllBranches(s, trunk, atoms, previous))
    ensures
      || (exists k :: 0 <= k < |atoms| && b == BranchAt(s, trunk, atoms, previous, k))
      || (exists was ::
          was in previous && b == DeadBranch(was) && was.id !in BranchIds(CurrentBranches(s, trunk, atoms, previous)))
  {
    var current := CurrentBranches(s, trunk, atoms, previous);
    SortMembers(BranchKey, AllBranches(s, trunk, atoms, previous), b);
    hide BranchAt, DeadBranch, GoneBranches;
    if b in current {
      var k :| 0 <= k < |atoms| && current[k] == b;
    } else {
      GoneBranchMembers(previous, BranchIds(current), b);
    }
  }

  /** A current branch occurs in the extracted tree. */
  lemma HasBranch(s: Scheme, trunk: nat, atoms: seq<Atom>, previous: seq<Branch>, k: nat)
    requires k < |atoms|
    ensures BranchAt(s, trunk, atoms, previous, k) in Sort(BranchKey, AllBranches(s, trunk, atoms, previous))
    ensures IdAt(s, trunk, atoms, k) in BranchIds(CurrentBranches(s, trunk, atoms, previous))
  {
    var b := BranchAt(s, trunk, atoms, previous, k);
    assert CurrentBranches(s, trunk, atoms, previous)[k] == b;
    SortMembers(BranchKey, AllBranches(s, trunk, atoms, previous), b);
  }

  /** Each branch by itself: distinct leaves, none lost, alive as it should be. */
  ghost predicate BranchKept(s: Scheme, trunk: nat, atoms: seq<Atom>, previous: seq<Branch>, b: Branch) {
    && Distinct(LeafKey, b.leaves)
    && (forall was :: was in previous && was.id == b.id ==> LeafIds(was.leaves) <= LeafIds(b.leaves))
    && (b.alive ==> exists k ::
        0 <= k < |atoms| && b.id == IdAt(s, trunk, atoms, k) && b.sourceHash == atoms[k].contentHash
                             && AliveLeafIds(b.leaves) == LeafIds(CurrentLeaves(s, trunk, b.id, atoms[k].tokens)))
    && (!b.alive ==> AliveLeafIds(b.leaves) == {} && exists was :: was in previous && b == DeadBranch(was))
    && (!b.alive ==> b.id in BranchIds(previous) - BranchIds(CurrentBranches(s, trunk, atoms, previous)))
  }

  lemma LiveBranchKept(s: Scheme, trunk: nat, atoms: seq<Atom>, previous: seq<Branch>, k: nat)
    requires Sound(s) && Distinct(BranchKey, previous) && k < |atoms|
    requires forall b :: b in previous ==> Distinct(LeafKey, b.leaves)
    ensures BranchKept(s, trunk, atoms, previous, BranchAt(s, trunk, atoms, previous, k))
  {
    var b := BranchAt(s, trunk, atoms, previous, k);
    LeavesOfBranch(s, trunk, atoms, previous, k);
    forall was | was in previous && was.id == b.id
      ensures LeafIds(was.leaves) <= LeafIds(b.leaves)
    {
      DistinctMembers(BranchKey, previous, was, FindBranch(previous, b.id).value);
    }
    hide LeavesAt, Distinct, LeafIds, AliveLeafIds, CurrentLeaves, BranchIds;
  }

  lemma DeadBranchKept(s: Scheme, trunk: nat, atoms: seq<Atom>, previous: seq<Branch>, was: Branch)
    requires Distinct(BranchKey, previous) && was in previous && Distinct(LeafKey, was.leaves)
    requires was.id !in BranchIds(CurrentBranches(s, trunk, atoms, previous))
    ensures BranchKept(s, trunk, atoms, previous, DeadBranch(was))
  {
    var b := DeadBranch(was);
    DeadKeepsIds(was.leaves);
    forall other | other in previous && other.id == b.id
      ensures LeafIds(other.leaves) <= LeafIds(b.leaves)
    {
      DistinctMembers(BranchKey, previous, was, other);
    }
  }

  lemma EveryBranchKept(s: Scheme, trunk: nat, atoms: seq<Atom>, previous: seq<Branch>, b: Branch)
    requires Sound(s) && Distinct(BranchKey, previous)
    requires forall x :: x in previous ==> Distinct(LeafKey, x.leaves)
    requires b in Sort(BranchKey, AllBranches(s, trunk, atoms, previous))
    ensures BranchKept(s, trunk, atoms, previous, b)
  {
    BranchKinds(s, trunk, atoms, previous, b);
    hide BranchKept, BranchAt, DeadBranch, AllBranches, Sort;
    if k :| 0 <= k < |atoms| && b == BranchAt(s, trunk, atoms, previous, k) {
      LiveBranchKept(s, trunk, atoms, previous, k);
    } else {
      var was :| was in previous && b == DeadBranch(was)
          && was.id !in BranchIds(CurrentBranches(s, trunk, atoms, previous));
      DeadBranchKept(s, trunk, atoms, previous, was);
    }
  }

  /** Extraction from a valid tree, or from none, yields a valid tree that keeps every
      identity, and whose alive branches and leaves are those of the current atoms. */
  lemma ExtractKeeps(s: Scheme, newId: nat, path: string, atoms: seq<Atom>, previous: Option<SemanticTrunk>)
    requires Sound(s) && (previous.Some? ==> ValidTrunk(previous.value))
    ensures
      var id := TrunkId(previous, newId);
      var t, current := Extracted(s, newId, path, atoms, previous),
          CurrentBranches(s, id, atoms, OldBranches(previous));
      && ValidTrunk(t) && Ordered(BranchKey, t.branches)
      && (previous.Some? ==> Grows(previous.value, t))
      && AliveBranchIds(t) == BranchIds(current)
      && BranchIds(t.branches) == BranchIds(current) + BranchIds(OldBranches(previous))
      && forall b :: b in t.branches ==> BranchKept(s, id, atoms, OldBranches(previous), b)
  {
    var id, was := TrunkId(previous, newId), OldBranches(previous);
    var t, current := Extracted(s, newId, path, atoms, previous), CurrentBranches(s, id, atoms, was);
    assert Distinct(BranchKey, was);
    assert t.branches == Sort(BranchKey, AllBranches(s, id, atoms, was));
    AllBranchIds(s, id, atoms, was);
    SortKeeps(BranchKey, AllBranches(s, id, atoms, was));
    SortOrders(BranchKey, AllBranches(s, id, atoms, was));
    forall b | b in t.branches
      ensures BranchKept(s, id, atoms, was, b)
    {
      EveryBranchKept(s, id, atoms, was, b);
    }
    AliveAreCurrent(s, id, atoms, was, t);
    hide Sort, AllBranches, CurrentBranches, GoneBranches, Distinct, BranchIds, LeafIds, AliveLeafIds;
  }

  lemma AliveAreCurrent(s: Scheme, trunk: nat, atoms: seq<Atom>, previous: seq<Branch>, t: SemanticTrunk)
    requires t.branches == Sort(BranchKey, AllBranches(s, trunk, atoms, previous))
    requires forall b :: b in t.branches ==> BranchKept(s, trunk, atoms, previous, b)
    ensures AliveBranchIds(t) == BranchIds(CurrentBranches(s, trunk, atoms, previous))
  {
    var current := CurrentBranches(s, trunk, atoms, previous);
    forall b | b in t.branches && b.alive
      ensures b.id in BranchIds(current)
    {
      var k :| 0 <= k < |atoms| && b.id == IdAt(s, trunk, atoms, k);
      HasBranch(s, trunk, atoms, previous, k);
    }
    forall id | id in BranchIds(current)
      ensures id in AliveBranchIds(t)
    {
      var k :| 0 <= k < |current| && BranchKey(current[k]) == id;
      HasBranch(s, trunk, atoms, previous, k);
      assert BranchAt(s, trunk, atoms, previous, k).alive;
    }
  }

  // ----- deletion -----

  /** Deletion keeps every identity and leaves nothing alive. */
  lemma DeleteKeeps(t: SemanticTrunk, stillRequired: bool)
    requires ValidTrunk(t)
    ensures
      var d := Deleted(t, stillRequired);
      && ValidTrunk(d) && Grows(t, d) && BranchIds(d.branches) == BranchIds(t.branches)
      && AliveBranchIds(d) == {} && forall b :: b in d.branches ==> AliveLeafIds(b.leaves) == {}
  {
    var d := Deleted(t, stillRequired);
    assert forall i :: 0 <= i < |t.branches| ==> BranchKey(d.branches[i]) == BranchKey(t.branches[i]);
    forall b | b in d.branches
      ensures exists was :: was in t.branches && b == DeadBranch(was)
    {
      var i :| 0 <= i < |d.branches| && d.branches[i] == b;
      assert t.branches[i] in t.branches;
    }
    forall was | was in t.branches
      ensures LeafIds(DeadBranch(was).leaves) == LeafIds(was.leaves) && Distinct(LeafKey, DeadBranch(was).leaves)
      ensures AliveLeafIds(DeadBranch(was).leaves) == {}
    {
      DeadKeepsIds(was.leaves);
    }
    forall x, y | x in t.branches && y in d.branches && x.id == y.id
      ensures LeafIds(x.leaves) <= LeafIds(y.leaves)
    {
      var was :| was in t.branches && y == DeadBranch(was);
      DistinctMembers(BranchKey, t.branches, x, was);
    }
  }

  // ----- runs -----

  datatype Step =
    | ExtractStep(newId: nat, path: string, atoms: seq<Atom>)
    | DeleteStep(stillRequired: bool)

  function After(s: Scheme, t: SemanticTrunk, step: Step): SemanticTrunk {
    match step
    case ExtractStep(newId, path, atoms) => Extracted(s, newId, path, atoms, Some(t))
    case DeleteStep(stillRequired) => Deleted(t, stillRequired)
  }

  function Run(s: Scheme, t: SemanticTrunk, steps: seq<Step>): SemanticTrunk {
    if steps == [] then t else After(s, Run(s, t, steps[..|steps| - 1]), steps[|steps| - 1])
  }

  lemma GrowsTransitive(a: SemanticTrunk, b: SemanticTrunk, c: SemanticTrunk)
    requires Grows(a, b) && Grows(b, c)
    ensures Grows(a, c)
  {
    forall x, z | x in a.branches && z in c.branches && x.id == z.id
      ensures LeafIds(x.leaves) <= LeafIds(z.leaves)
    {
      var y := InKeys(BranchKey, b.branches, x.id);
    }
  }

  lemma StepKeeps(s: Scheme, t: SemanticTrunk, step: Step)
    requires Sound(s) && ValidTrunk(t)
    ensures ValidTrunk(After(s, t, step)) && Grows(t, After(s, t, step))
  {
    hide Extracted, Deleted, ValidTrunk, Grows, AliveBranchIds, BranchKept;
    match step
    case ExtractStep(newId, path, atoms) => ExtractKeeps(s, newId, path, atoms, Some(t));
    case DeleteStep(stillRequired) => DeleteKeeps(t, stillRequired);
  }

  /** Over any run of extractions and deletions on one file the identity is fixed and
      paths, branches and the leaves of each branch only grow; identities stay unique. */
  lemma {:induction false} RunKeeps(s: Scheme, t: SemanticTrunk, steps: seq<Step>)
    requires Sound(s) && ValidTrunk(t)
    ensures ValidTrunk(Run(s, t, steps)) && Grows(t, Run(s, t, steps))
    decreases |steps|
  {
    if steps == [] {
    } else {
      var init := Run(s, t, steps[..|steps| - 1]);
      RunKeeps(s, t, steps[..|steps| - 1]);
      StepKeeps(s, init, steps[|steps| - 1]);
      GrowsTransitive(t, init, Run(s, t, steps));
    }
  }
}
