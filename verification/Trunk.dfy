/** The semantic tree of a file, Trunk over Branch over Leaf: what extraction and
    deletion do to it and what every run of them keeps.
 */
module Trunk {
  import opened Wrappers
  import opened KeyedLists

  datatype TrunkState = TrunkAlive | TrunkDeleted | TrunkZombie

  datatype Leaf = Leaf(id: nat, alive: bool, textHash: nat)

  datatype Branch = Branch(id: nat, alive: bool, sourceHash: nat, leaves: seq<Leaf>)

  datatype SemanticTrunk = SemanticTrunk(id: nat, state: TrunkState, paths: set<string>, branches: seq<Branch>)

  /** What extraction uses of a change atom: its kind and symbol, the words of its
      source, and the hash of its content. */
  datatype Atom = Atom(kind: string, symbol: string, tokens: seq<string>, contentHash: nat)

  /** The digests of `from_stable_parts`, one for each kind of node, and of texts. */
  datatype Scheme = Scheme(
    branchId: (nat, string, string, nat) -> nat,
    leafId: (nat, nat, nat, nat) -> nat,
    textHash: string -> nat)

  ghost predicate Sound(s: Scheme) {
    && (forall t, k, y, n, t', k', y', n' :: s.branchId(t, k, y, n) == s.branchId(t', k', y', n') ==>
        k == k' && y == y' && n == n')
    && (forall t, b, n, h, t', b', n', h' :: s.leafId(t, b, n, h) == s.leafId(t', b', n', h') ==> n == n')
  }

  function LeafKey(l: Leaf): nat {
    l.id
  }

  function BranchKey(b: Branch): nat {
    b.id
  }

  function LeafIds(leaves: seq<Leaf>): set<nat> {
    Keys(LeafKey, leaves)
  }

  function BranchIds(branches: seq<Branch>): set<nat> {
    Keys(BranchKey, branches)
  }

  /** What `SemanticTrunk::validate` demands. */
  ghost predicate ValidTrunk(t: SemanticTrunk) {
    && t.paths != {} && Distinct(BranchKey, t.branches)
    && forall b :: b in t.branches ==> Distinct(LeafKey, b.leaves)
  }

  // ----- extraction -----

  /** How many earlier atoms have this kind and symbol. */
  function Count(atoms: seq<Atom>, kind: string, symbol: string): nat {
    if atoms == [] then 0
    else
      var last := atoms[|atoms| - 1];
      Count(atoms[..|atoms| - 1], kind, symbol) + (if last.kind == kind && last.symbol == symbol then 1 else 0)
  }

  function IdAt(s: Scheme, trunk: nat, atoms: seq<Atom>, k: nat): nat
    requires k < |atoms|
  {
    s.branchId(trunk, atoms[k].kind, atoms[k].symbol, Count(atoms[..k], atoms[k].kind, atoms[k].symbol))
  }

  function CurrentLeaves(s: Scheme, trunk: nat, branch: nat, tokens: seq<string>): seq<Leaf> {
    seq(|tokens|, i requires 0 <= i < |tokens| =>
      Leaf(s.leafId(trunk, branch, i, s.textHash(tokens[i])), true, s.textHash(tokens[i])))
  }

  function DeadLeaf(l: Leaf): Leaf {
    l.(alive := false)
  }

  /** The leaves that are not current, as tombstones. */
  function GoneLeaves(leaves: seq<Leaf>, current: set<nat>): seq<Leaf> {
    if leaves == [] then []
    else (if leaves[0].id in current then [] else [DeadLeaf(leaves[0])]) + GoneLeaves(leaves[1..], current)
  }

  function DeadLeaves(leaves: seq<Leaf>): seq<Leaf> {
    seq(|leaves|, i requires 0 <= i < |leaves| => DeadLeaf(leaves[i]))
  }

  function DeadBranch(b: Branch): Branch {
    b.(alive := false, leaves := DeadLeaves(b.leaves))
  }

  function GoneBranches(branches: seq<Branch>, current: set<nat>): seq<Branch> {
    if branches == [] then []
    else (if branches[0].id in current then [] else [DeadBranch(branches[0])]) + GoneBranches(branches[1..], current)
  }

  /** The first branch with an identifier. */
  function FindBranch(branches: seq<Branch>, id: nat): (r: Option<Branch>)
    ensures r.Some? ==> r.value in branches && r.value.id == id
    ensures r.None? ==> id !in BranchIds(branches)
  {
    if branches == [] then None
    else if branches[0].id == id then Some(branches[0])
    else FindBranch(branches[1..], id)
  }

  function OldBranches(previous: Option<SemanticTrunk>): seq<Branch> {
    match previous
    case None => []
    case Some(trunk) => trunk.branches
  }

  function LeavesAt(s: Scheme, trunk: nat, atoms: seq<Atom>, previous: seq<Branch>, k: nat): seq<Leaf>
    requires k < |atoms|
  {
    var id := IdAt(s, trunk, atoms, k);
    var leaves := CurrentLeaves(s, trunk, id, atoms[k].tokens);
    match FindBranch(previous, id)
    case None => leaves
    case Some(branch) => leaves + GoneLeaves(branch.leaves, LeafIds(leaves))
  }

  function BranchAt(s: Scheme, trunk: nat, atoms: seq<Atom>, previous: seq<Branch>, k: nat): Branch
    requires k < |atoms|
  {
    Branch(IdAt(s, trunk, atoms, k), true, atoms[k].contentHash, LeavesAt(s, trunk, atoms, previous, k))
  }

  function CurrentBranches(s: Scheme, trunk: nat, atoms: seq<Atom>, previous: seq<Branch>): seq<Branch> {
    seq(|atoms|, k requires 0 <= k < |atoms| => BranchAt(s, trunk, atoms, previous, k))
  }

  function TrunkId(previous: Option<SemanticTrunk>, newId: nat): nat {
    match previous
    case None => newId
    case Some(trunk) => trunk.id
  }

  function Extracted(s: Scheme, newId: nat, path: string, atoms: seq<Atom>,
                     previous: Option<SemanticTrunk>): SemanticTrunk {
    var id := TrunkId(previous, newId);
    var current := CurrentBranches(s, id, atoms, OldBranches(previous));
    SemanticTrunk(
      id, TrunkAlive,
      (match previous case None => {} case Some(trunk) => trunk.paths) + {path},
      Sort(BranchKey, current + GoneBranches(OldBranches(previous), BranchIds(current))))
  }

  /** The counters of the extraction loop. */
  ghost predicate Counts(occurrences: map<(string, string), nat>, atoms: seq<Atom>) {
    forall kind, symbol ::
      Count(atoms, kind, symbol) == if (kind, symbol) in occurrences then occurrences[(kind, symbol)] else 0
  }

  lemma CountStep(occurrences: map<(string, string), nat>, atoms: seq<Atom>, atom: Atom)
    requires Counts(occurrences, atoms)
    ensures Counts(occurrences[(atom.kind, atom.symbol) := Count(atoms, atom.kind, atom.symbol) + 1], atoms + [atom])
  {
    assert (atoms + [atom])[..|atoms|] == atoms;
  }

  /** `newId` is the digest of the repository, path and blob that a new file gets. */
  method ExtractTrunk(s: Scheme, newId: nat, path: string, atoms: seq<Atom>,
                      previous: Option<SemanticTrunk>) returns (trunk: SemanticTrunk)
    ensures trunk == Extracted(s, newId, path, atoms, previous)
    ensures trunk.state == TrunkAlive
    ensures previous.None? ==> trunk.id == newId && trunk.paths == {path}
    ensures previous.Some? ==> trunk.id == previous.value.id && trunk.paths == previous.value.paths + {path}
  {
    hide Count, Counts;
    var id := if previous.Some? then previous.value.id else newId;
    var paths := (if previous.Some? then previous.value.paths else {}) + {path};
    var branches: seq<Branch> := [];
    var occurrences: map<(string, string), nat> := map[];
    NothingCounted();
    assert atoms[..0] == [];
    for k := 0 to |atoms|
      invariant branches == CurrentBranches(s, id, atoms, OldBranches(previous))[..k]
      invariant Counts(occurrences, atoms[..k])
    {
      var atom := atoms[k];
      var occurrence := if (atom.kind, atom.symbol) in occurrences then occurrences[(atom.kind, atom.symbol)] else 0;
      Counted(occurrences, atoms[..k], atom);
      CountStep(occurrences, atoms[..k], atom);
      assert atoms[..k + 1] == atoms[..k] + [atom];
      occurrences := occurrences[(atom.kind, atom.symbol) := occurrence + 1];
      var branchId := s.branchId(id, atom.kind, atom.symbol, occurrence);
      var leaves := CurrentLeaves(s, id, branchId, atom.tokens);
      var oldBranch := FindBranch(OldBranches(previous), branchId);
      if oldBranch.Some? {
        leaves := leaves + GoneLeaves(oldBranch.value.leaves, LeafIds(leaves));
      }
      branches := branches + [Branch(branchId, true, atom.contentHash, leaves)];
    }
    assert branches == CurrentBranches(s, id, atoms, OldBranches(previous));
    if previous.Some? {
      branches := branches + GoneBranches(previous.value.branches, BranchIds(branches));
    } else {
      assert branches + GoneBranches([], BranchIds(branches)) == branches;
    }
    trunk := SemanticTrunk(id, TrunkAlive, paths, Sort(BranchKey, branches));
  }

  lemma NothingCounted()
    ensures Counts(map[], [])
  {
  }

  lemma Counted(occurrences: map<(string, string), nat>, atoms: seq<Atom>, atom: Atom)
    requires Counts(occurrences, atoms)
    ensures Count(atoms, atom.kind, atom.symbol)
         == if (atom.kind, atom.symbol) in occurrences then occurrences[(atom.kind, atom.symbol)] else 0
  {
  }

  // ----- deletion -----

  function Deleted(t: SemanticTrunk, stillRequired: bool): SemanticTrunk {
    t.(state := if stillRequired then TrunkZombie else TrunkDeleted,
       branches := seq(|t.branches|, i requires 0 <= i < |t.branches| => DeadBranch(t.branches[i])))
  }

  /** The branch as it was, but it and its leaves are dead. */
  ghost predicate Died(was: Branch, b: Branch) {
    && b.id == was.id && !b.alive && b.sourceHash == was.sourceHash && |b.leaves| == |was.leaves|
    && forall i :: 0 <= i < |b.leaves| ==> b.leaves[i] == Leaf(was.leaves[i].id, false, was.leaves[i].textHash)
  }

  /** Files that are still required leave a zombie. */
  method DeleteTrunk(trunk: SemanticTrunk, stillRequired: bool) returns (deleted: SemanticTrunk)
    ensures deleted == Deleted(trunk, stillRequired)
    ensures deleted.id == trunk.id && deleted.paths == trunk.paths
    ensures deleted.state.TrunkZombie? <==> stillRequired
    ensures deleted.state.TrunkDeleted? <==> !stillRequired
    ensures |deleted.branches| == |trunk.branches|
    ensures forall i :: 0 <= i < |trunk.branches| ==> Died(trunk.branches[i], deleted.branches[i])
  {
    deleted := trunk.(state := if stillRequired then TrunkZombie else TrunkDeleted);
    var branches := deleted.branches;
    for i := 0 to |branches|
      invariant |branches| == |trunk.branches|
      invariant forall k :: 0 <= k < |branches| ==>
          branches[k] == if k < i then DeadBranch(trunk.branches[k]) else trunk.branches[k]
    {
      var branch := branches[i];
      var leaves := branch.leaves;
      for j := 0 to |leaves|
        invariant |leaves| == |branch.leaves|
        invariant forall k :: 0 <= k < |leaves| ==>
            leaves[k] == if k < j then DeadLeaf(branch.leaves[k]) else branch.leaves[k]
      {
        leaves := leaves[j := leaves[j].(alive := false)];
      }
      assert leaves == DeadLeaves(branch.leaves);
      branches := branches[i := branch.(alive := false, leaves := leaves)];
    }
    deleted := deleted.(branches := branches);
  }

  // ----- validate -----

  method ValidateTrunk(t: SemanticTrunk) returns (result: Result<()>)
    ensures result == if ValidTrunk(t) then Ok(()) else Err(Invalid)
  {
    if t.paths == {} {
      return Err(Invalid);
    }
    var branchIds: set<nat> := {};
    for i := 0 to |t.branches|
      invariant branchIds == BranchIds(t.branches[..i]) && Distinct(BranchKey, t.branches[..i])
      invariant forall k :: 0 <= k < i ==> Distinct(LeafKey, t.branches[k].leaves)
    {
      var branch := t.branches[i];
      assert t.branches[..i + 1] == t.branches[..i] + [branch];
      Concat(BranchKey, t.branches[..i], [branch]);
      if branch.id in branchIds {
        return Err(Invalid);
      }
      branchIds := branchIds + {branch.id};
      var distinct := DistinctLeaves(branch.leaves);
      if !distinct {
        assert branch in t.branches;
        return Err(Invalid);
      }
    }
    assert t.branches[..|t.branches|] == t.branches;
    result := Ok(());
  }

  method DistinctLeaves(leaves: seq<Leaf>) returns (ok: bool)
    ensures ok <==> Distinct(LeafKey, leaves)
  {
    var leafIds: set<nat> := {};
    for i := 0 to |leaves|
      invariant leafIds == LeafIds(leaves[..i]) && Distinct(LeafKey, leaves[..i])
    {
      assert leaves[..i + 1] == leaves[..i] + [leaves[i]];
      Concat(LeafKey, leaves[..i], [leaves[i]]);
      if leaves[i].id in leafIds {
        return false;
      }
      leafIds := leafIds + {leaves[i].id};
    }
    assert leaves[..|leaves|] == leaves;
    ok := true;
  }

}
