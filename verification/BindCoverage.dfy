/** When `bind_patches` succeeds, and that its fragments account for every atom. */
module BindCoverage {
  import Lcs
  import opened Wrappers
  import opened Model
  import opened Text
  import opened PatchSearch
  import opened PatchBinding

  ghost function IdsIn(groups: seq<Group>): set<AtomId> {
    set g, a | g in groups && a in g.atoms :: a
  }

  ghost function IdsOn(atoms: seq<ChangeAtom>, path: string): set<AtomId> {
    set a | a in atoms && a.path == path :: a.id
  }

  lemma IdsConcat(a: seq<Group>, b: seq<Group>)
    ensures IdsIn(a + b) == IdsIn(a) + IdsIn(b)
  {
    assert forall g :: g in a + b <==> g in a || g in b;
  }

  lemma {:induction false} RangesHoldIds(atoms: seq<ChangeAtom>, path: string)
    ensures IdsIn(RangesOf(atoms, path)) == IdsOn(atoms, path)
    decreases |atoms|
  {
    if atoms != [] {
      var a, rest := atoms[0], atoms[1..];
      assert atoms == [a] + rest;
      RangesHoldIds(rest, path);
      if a.path == path {
        var g := Group(if a.startLine > 0 then a.startLine - 1 else 0, a.endLine, {a.id});
        IdsConcat([g], RangesOf(rest, path));
        assert IdsIn([g]) == {a.id};
        assert IdsOn(atoms, path) == {a.id} + IdsOn(rest, path);
      } else {
        assert IdsOn(atoms, path) == IdsOn(rest, path);
      }
    } else {
      assert IdsIn([]) == {} && IdsOn([], path) == {};
    }
  }

  lemma AddRangeIds(groups: seq<Group>, range: Group)
    ensures IdsIn(AddRange(groups, range)) == IdsIn(groups) + range.atoms
  {
    if groups != [] && range.start <= groups[|groups| - 1].end {
      var init, last := groups[..|groups| - 1], groups[|groups| - 1];
      var joined := Group(last.start, Lcs.Max(last.end, range.end), last.atoms + range.atoms);
      assert groups == init + [last] && AddRange(groups, range) == init + [joined];
      IdsConcat(init, [last]);
      IdsConcat(init, [joined]);
      assert IdsIn([last]) == last.atoms && IdsIn([joined]) == joined.atoms;
    } else {
      IdsConcat(groups, [range]);
      assert IdsIn([range]) == range.atoms;
    }
  }

  lemma {:induction false} AddRangesIds(groups: seq<Group>, ranges: seq<Group>)
    ensures IdsIn(AddRanges(groups, ranges)) == IdsIn(groups) + IdsIn(ranges)
    decreases |ranges|
  {
    if ranges == [] {
      assert IdsIn([]) == {};
    } else {
      AddRangeIds(groups, ranges[0]);
      AddRangesIds(AddRange(groups, ranges[0]), ranges[1..]);
      assert ranges == [ranges[0]] + ranges[1..];
      IdsConcat([ranges[0]], ranges[1..]);
      assert IdsIn([ranges[0]]) == ranges[0].atoms;
    }
  }

  /** The groups of a file hold its atoms and no others. */
  lemma GroupsHoldIds(atoms: seq<ChangeAtom>, path: string)
    ensures IdsIn(GroupsFor(atoms, path)) == IdsOn(atoms, path)
  {
    var ranges := RangesOf(atoms, path);
    AddRangesIds([], Sorted(ranges));
    SortedKeeps(ranges);
    RangesHoldIds(atoms, path);
    assert IdsIn([]) == {};
  }

  /** A group that names at least one line, all of which the file has. */
  ghost predicate Fits(group: Group, lines: nat) {
    group.start < group.end <= lines
  }

  lemma CoveredConcat(a: seq<PatchFragment>, b: seq<PatchFragment>)
    ensures CoveredAtoms(a + b) == CoveredAtoms(a) + CoveredAtoms(b)
  {
    assert forall p :: p in a + b <==> p in a || p in b;
  }

  lemma FragmentIff(path: string, was: seq<Line>, now: seq<Line>, aligned: Pairs, g: Group)
    requires Lcs.IsMatching(was, now, aligned)
    ensures
      var result := FragmentForRange(path, was, now, aligned, g);
      && (result.Ok? <==> Fits(g, |now|)) && (result.Err? ==> result == Err(Invalid))
      && (result.Ok? ==> result.value.path == path && CoveredAtoms([result.value]) == IdsIn([g]))
  {
    hide LastBefore, FirstFrom, OldStart, OldEnd, Concat;
    var result := FragmentForRange(path, was, now, aligned, g);
    if result.Ok? {
      assert result.value.atoms == g.atoms;
      assert CoveredAtoms([result.value]) == g.atoms && IdsIn([g]) == g.atoms;
    }
  }

  lemma {:induction false} BindGroupsIff(path: string, was: seq<Line>, now: seq<Line>, aligned: Pairs,
                                         groups: seq<Group>)
    requires Lcs.IsMatching(was, now, aligned)
    ensures
      var result := BindGroups(path, was, now, aligned, groups);
      && (result.Ok? <==> forall g :: g in groups ==> Fits(g, |now|))
      && (result.Err? ==> result == Err(Invalid))
      && (result.Ok? ==> CoveredAtoms(result.value) == IdsIn(groups) && forall p :: p in result.value ==>
          p.path == path)
    decreases |groups|
  {
    hide FragmentForRange, CoveredAtoms, IdsIn, Fits;
    if groups == [] {
      NoGroups();
    } else {
      var g, rest := groups[0], groups[1..];
      FragmentIff(path, was, now, aligned, g);
      BindGroupsIff(path, was, now, aligned, rest);
      assert groups == [g] + rest;
      var first, more := FragmentForRange(path, was, now, aligned, g), BindGroups(path, was, now, aligned, rest);
      if first.Ok? && more.Ok? {
        CoveredConcat([first.value], more.value);
        IdsConcat([g], rest);
      }
    }
  }

  lemma NoGroups()
    ensures CoveredAtoms([]) == IdsIn([])
  {
    assert IdsIn([]) == {};
  }

  /** Every group of the change fits its new text. */
  ghost predicate ChangeFits(atoms: seq<ChangeAtom>, change: FileChange) {
    forall g :: g in GroupsFor(atoms, change.path) ==> Fits(g, |SplitLines(change.newContent)|)
  }

  lemma BindChangeIff(atoms: seq<ChangeAtom>, change: FileChange)
    ensures
      var result := BindChange(atoms, change);
      && (result.Ok? <==> ChangeFits(atoms, change)) && (result.Err? ==> result == Err(Invalid))
      && (result.Ok? ==>
            && CoveredAtoms(result.value) == IdsOn(atoms, change.path)
            && forall p :: p in result.value ==> p.path == change.path)
  {
    var was, now := SplitLines(change.oldContent), SplitLines(change.newContent);
    Lcs.AlignmentIsLongest(was, now);
    hide Lcs.Alignment, SplitLines, BindGroups, CoveredAtoms, IdsIn;
    BindGroupsIff(change.path, was, now, Lcs.Alignment(was, now, 0, 0), GroupsFor(atoms, change.path));
    GroupsHoldIds(atoms, change.path);
  }

  /** The file of the atom is among the changes. */
  ghost predicate HasChange(changes: seq<FileChange>, a: ChangeAtom) {
    exists c :: c in changes && c.path == a.path
  }

  ghost function IdsAmong(atoms: seq<ChangeAtom>, changes: seq<FileChange>): set<AtomId> {
    set a | a in atoms && HasChange(changes, a) :: a.id
  }

  lemma {:induction false} BindChangesIff(atoms: seq<ChangeAtom>, changes: seq<FileChange>)
    ensures
      var result := BindChanges(atoms, changes);
      && (result.Ok? <==> forall c :: c in changes ==> ChangeFits(atoms, c))
      && (result.Err? ==> result == Err(Invalid))
      && (result.Ok? ==> CoveredAtoms(result.value) == IdsAmong(atoms, changes))
    decreases |changes|
  {
    hide BindChange, ChangeFits, CoveredAtoms;
    if changes == [] {
      NothingCovered(atoms);
    } else {
      var c, rest := changes[0], changes[1..];
      assert changes == [c] + rest;
      BindChangeIff(atoms, c);
      BindChangesIff(atoms, rest);
      AmongFirst(atoms, c, rest);
      var first, more := BindChange(atoms, c), BindChanges(atoms, rest);
      if first.Ok? && more.Ok? {
        CoveredConcat(first.value, more.value);
      }
    }
  }

  lemma NothingCovered(atoms: seq<ChangeAtom>)
    ensures CoveredAtoms([]) == IdsAmong(atoms, [])
  {
    assert IdsAmong(atoms, []) == {};
  }

  lemma AmongFirst(atoms: seq<ChangeAtom>, c: FileChange, rest: seq<FileChange>)
    ensures IdsAmong(atoms, [c] + rest) == IdsOn(atoms, c.path) + IdsAmong(atoms, rest)
  {
    forall a: ChangeAtom
      ensures HasChange([c] + rest, a) <==> c.path == a.path || HasChange(rest, a)
    {
      assert c in [c] + rest && forall x :: x in [c] + rest <==> x == c || x in rest;
    }
  }

  /** The identifier of the atom belongs to an atom on one of the changed files. */
  ghost predicate IsPlaced(atoms: seq<ChangeAtom>, changes: seq<FileChange>, a: ChangeAtom) {
    exists b :: b in atoms && b.id == a.id && HasChange(changes, b)
  }

  lemma AmongIff(atoms: seq<ChangeAtom>, changes: seq<FileChange>, a: ChangeAtom)
    requires a in atoms
    ensures a.id in IdsAmong(atoms, changes) <==> IsPlaced(atoms, changes, a)
  {
    hide HasChange;
  }

  lemma AllPlacedIff(atoms: seq<ChangeAtom>, changes: seq<FileChange>)
    ensures IdsAmong(atoms, changes) == AtomIds(atoms) <==> forall a :: a in atoms ==> IsPlaced(atoms, changes, a)
  {
    var among, all := IdsAmong(atoms, changes), AtomIds(atoms);
    assert among <= all;
    hide IdsAmong, IsPlaced;
    forall a | a in atoms
      ensures a.id in among <==> IsPlaced(atoms, changes, a)
    {
      AmongIff(atoms, changes, a);
    }
    if among == all {
      forall a | a in atoms
        ensures IsPlaced(atoms, changes, a)
      {
        assert a.id in all;
      }
    }
    if forall a :: a in atoms ==> IsPlaced(atoms, changes, a) {
      assert all <= among;
    }
  }

  /** Binding succeeds if and only if every group names lines that its file has and every
      atom is placed; the one error is that the input is invalid. */
  lemma BoundIff(atoms: seq<ChangeAtom>, changes: seq<FileChange>)
    ensures BindSpec(atoms, changes).Ok?
       <==> && (forall c :: c in changes ==> ChangeFits(atoms, c))
            && (forall a :: a in atoms ==> IsPlaced(atoms, changes, a))
    ensures BindSpec(atoms, changes).Err? ==> BindSpec(atoms, changes) == Err(Invalid)
  {
    BindChangesIff(atoms, changes);
    AllPlacedIff(atoms, changes);
    hide BindChanges, ChangeFits, IsPlaced, IdsAmong, AtomIds, CoveredAtoms;
  }

  /** Every atom is in some fragment, and every atom of a fragment is one of the input. */
  lemma BoundCovers(atoms: seq<ChangeAtom>, changes: seq<FileChange>)
    requires BindSpec(atoms, changes).Ok?
    ensures
      var patches := BindSpec(atoms, changes).value;
      && (forall a :: a in atoms ==> exists p :: p in patches && a.id in p.atoms)
      && (forall p, x :: p in patches && x in p.atoms ==> exists a :: a in atoms && a.id == x)
  {
    hide BindChanges;
    var patches := BindSpec(atoms, changes).value;
    forall a | a in atoms
      ensures exists p :: p in patches && a.id in p.atoms
    {
      assert a.id in CoveredAtoms(patches);
    }
    forall p, x | p in patches && x in p.atoms
      ensures exists a :: a in atoms && a.id == x
    {
      assert x in CoveredAtoms(patches);
    }
  }
}
