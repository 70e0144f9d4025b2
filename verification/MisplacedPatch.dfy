/** An input on which a fragment applies cleanly to the very text it was bound from,
    but in the wrong place: the scan steps over the bound place because it overlaps
    an earlier occurrence. Five empty lines become an empty line, a "B", and two
    empty lines; the second to third line are bound, the third to fourth replaced.
 */
module MisplacedPatch {
  import Lcs
  import opened Wrappers
  import opened Model
  import opened Text
  import opened PatchSearch
  import opened PatchBinding
  import opened PatchRoundTrip
  import opened BindRoundTrip

  const OLD := "\n\n\n\n\n"
  const NEW := "\nB\n\n\n"
  const WAS: seq<Line> := ["\n", "\n", "\n", "\n", "\n"]
  const NOW: seq<Line> := ["\n", "B\n", "\n", "\n"]
  const ALIGNED: Pairs := [(0, 0), (3, 2), (4, 3)]
  const ATOMS := [ChangeAtom(0, "f", 2, 2)]
  const PATCH := PatchFragment({0}, "f", "\n\n", "B\n", "\n", "\n")

  lemma Lines()
    ensures SplitLines(OLD) == WAS && SplitLines(NEW) == NOW
  {
    assert SplitLines("") == [];
    hide SplitLines;
    BlankFirst("", "\n");
    BlankFirst("\n", "\n\n");
    BlankFirst("\n\n", "\n\n\n");
    BlankFirst("\n\n\n", "\n\n\n\n");
    BlankFirst("\n\n\n\n", OLD);
    assert SplitLines("B\n\n\n") == ["B\n"] + SplitLines("\n\n") by {
      SplitFirst("B\n", "\n\n");
      assert "B\n" + "\n\n" == "B\n\n\n";
    }
    BlankFirst("B\n\n\n", NEW);
  }

  lemma BlankFirst(rest: string, content: string)
    requires |content| == |rest| + 1 && content[0] == '\n' && content[1..] == rest
    ensures SplitLines(content) == ["\n"] + SplitLines(rest)
  {
    SplitFirst("\n", rest);
    assert "\n" + rest == content;
  }

  lemma Lengths(i: nat)
    requires i <= 5
    decreases 5 - i
    ensures Lcs.Length(WAS, NOW, i, 3) == if i < 5 then 1 else 0
    ensures Lcs.Length(WAS, NOW, i, 2) == if i < 4 then 2 else 5 - i
    ensures Lcs.Length(WAS, NOW, i, 1) == Lcs.Length(WAS, NOW, i, 2)
  {
    if i < 5 {
      Lengths(i + 1);
      assert Lcs.Length(WAS, NOW, i, 4) == 0 && Lcs.Length(WAS, NOW, i + 1, 4) == 0;
      assert WAS[i] == "\n" && NOW[2] == NOW[3] == "\n" && NOW[1] == "B\n";
    }
  }

  lemma Aligns()
    ensures Lcs.Alignment(WAS, NOW, 0, 0) == ALIGNED
  {
    Lengths(1);
    Lengths(2);
    Lengths(3);
    assert Lcs.Alignment(WAS, NOW, 5, 4) == [] && Lcs.Alignment(WAS, NOW, 4, 3) == [(4, 3)];
    assert Lcs.Alignment(WAS, NOW, 3, 2) == [(3, 2), (4, 3)];
    assert Lcs.Alignment(WAS, NOW, 3, 1) == Lcs.Alignment(WAS, NOW, 3, 2);
    assert Lcs.Alignment(WAS, NOW, 2, 1) == Lcs.Alignment(WAS, NOW, 3, 1);
    assert Lcs.Alignment(WAS, NOW, 1, 1) == Lcs.Alignment(WAS, NOW, 2, 1);
  }

  lemma Ranges()
    ensures GroupsFor(ATOMS, "f") == [Group(1, 2, {0})]
    ensures LastBefore(ALIGNED, 1) == Some(0) && FirstFrom(ALIGNED, 2) == Some(3)
    ensures OldStart(ALIGNED, 1) == 1 && OldEnd(ALIGNED, 2, 5) == 3
  {
    assert RangesOf([], "f") == [];
    assert RangesOf(ATOMS, "f") == [Group(1, 2, {0})];
    assert Sorted([]) == [];
    assert Sorted([Group(1, 2, {0})]) == [Group(1, 2, {0})];
    assert AddRanges([], [Group(1, 2, {0})]) == AddRanges([Group(1, 2, {0})], []);
    assert ALIGNED[..2] == [(0, 0), (3, 2)] && ALIGNED[..2][..1] == [(0, 0)];
    assert LastBefore([(0, 0)], 1) == Some(0) && LastBefore(ALIGNED[..2], 1) == Some(0);
    assert ALIGNED[1..] == [(3, 2), (4, 3)] && FirstFrom(ALIGNED[1..], 2) == Some(3);
  }

  lemma BindsGroup()
    ensures Lcs.IsMatching(WAS, NOW, ALIGNED)
    ensures BindGroups("f", WAS, NOW, ALIGNED, [Group(1, 2, {0})]) == Ok([PATCH])
  {
    Aligns();
    Lcs.AlignmentIsLongest(WAS, NOW);
    Ranges();
    hide Lcs.Alignment, Lcs.Length, GroupsFor, LastBefore, FirstFrom;
    var group := Group(1, 2, {0});
    assert WAS[1..3] == ["\n"] + ["\n"] && NOW[1..2] == ["B\n"] && WAS[0..1] == ["\n"] && WAS[3..4] == ["\n"];
    ConcatSingle("\n");
    ConcatSingle("B\n");
    ConcatAppend(["\n"], ["\n"]);
    assert "\n" + "\n" == "\n\n";
    hide Concat;
    assert FragmentForRange("f", WAS, NOW, ALIGNED, group) == Ok(PATCH);
    assert BindGroups("f", WAS, NOW, ALIGNED, []) == Ok([]) && [group][1..] == [] && [PATCH] + [] == [PATCH];
  }

  lemma Binds()
    ensures BindSpec(ATOMS, [FileChange("f", OLD, NEW)]) == Ok([PATCH])
    ensures BindChange(ATOMS, FileChange("f", OLD, NEW)) == Ok([PATCH])
    ensures FullyCovered(ATOMS, FileChange("f", OLD, NEW))
  {
    Lines();
    Aligns();
    Ranges();
    BindsGroup();
    Covers();
    hide SplitLines, Lcs.Alignment, Lcs.Length, GroupsFor, BindGroups, Covered;
    var change := FileChange("f", OLD, NEW);
    assert BindChange(ATOMS, change) == Ok([PATCH]);
    assert BindChanges(ATOMS, []) == Ok([]) && [change][1..] == [] && [PATCH] + [] == [PATCH];
    assert CoveredAtoms([PATCH]) == {0} && AtomIds(ATOMS) == {0} by {
      assert PATCH in [PATCH] && ATOMS[0] in ATOMS;
    }
  }

  lemma Covers()
    ensures Covered(WAS, NOW, ALIGNED, [Group(1, 2, {0})], 0, 0)
  {
    Ranges();
    assert ALIGNED[0].1 == 0 && ALIGNED[1].1 == 2 && ALIGNED[2].1 == 3;
    assert ALIGNED[0].0 == 0 && ALIGNED[1].0 == 3 && ALIGNED[2].0 == 4;
    assert NewAligned(ALIGNED, 0) && NewAligned(ALIGNED, 2) && NewAligned(ALIGNED, 3);
    assert OldAligned(ALIGNED, 0) && OldAligned(ALIGNED, 3) && OldAligned(ALIGNED, 4);
    assert InRange([Group(1, 2, {0})], 1) by {
      assert [Group(1, 2, {0})][0].start <= 1 < [Group(1, 2, {0})][0].end;
    }
    assert |WAS| == 5 && |NOW| == 4;
    forall q | 1 <= q < 3
      ensures InOldRange(ALIGNED, [Group(1, 2, {0})], 5, q)
    {
      assert OldStart(ALIGNED, [Group(1, 2, {0})][0].start) <= q < OldEnd(ALIGNED, [Group(1, 2, {0})][0].end, 5);
    }
  }

  lemma Applies()
    ensures Patched(OLD, PATCH) == Ok("\n\nB\n\n")
  {
    hide FindFrom;
    assert OccursAt(OLD, "\n\n", 0) && OccursAt(OLD, "\n\n", 2) && !OccursAt(OLD, "\n\n", 4);
    assert FindFrom(OLD, "\n\n", 0) == Some(0) && FindFrom(OLD, "\n\n", 2) == Some(2);
    assert FindFrom(OLD, "\n\n", 4) == None;
    assert Visited(OLD, "\n\n", 4) == [];
    assert Visited(OLD, "\n\n", 2) == [2];
    assert Visited(OLD, "\n\n", 0) == [0, 2];
    assert !Matches(OLD, PATCH, 0) && Matches(OLD, PATCH, 2);
    assert Select(OLD, PATCH, []) == [] && Select(OLD, PATCH, [2]) == [2];
    assert Select(OLD, PATCH, [0, 2]) == [2] by {
      assert [0, 2][1..] == [2];
    }
    assert PATCH.before == "\n\n" && Candidates(OLD, PATCH) == [2];
    assert OLD[..2] == "\n\n" && OLD[4..] == "\n";
    assert "\n\n" + "B\n" + "\n" == "\n\nB\n\n";
  }

  /** Binding succeeds, the file is covered, the fragment applies to the old text, and
      yet the result is not the new text: the bound place is never considered. */
  lemma AppliesInWrongPlace()
    ensures
      var change := FileChange("f", OLD, NEW);
      && BindSpec(ATOMS, [change]) == Ok([PATCH])
      && FullyCovered(ATOMS, change)
      && ApplyAll(OLD, [PATCH]) == Ok("\n\nB\n\n")
      && "\n\nB\n\n" != NEW
  {
    Binds();
    Applies();
    hide Patched;
    assert ApplyAll("\n\nB\n\n", []) == Ok("\n\nB\n\n");
    assert "\n\nB\n\n"[1] != NEW[1];
  }
}
