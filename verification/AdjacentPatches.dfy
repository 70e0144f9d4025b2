/** Pull requests whose groups have no aligned line between them: what their fragments
    make of the file when both insert at one place, and two stacks on which the fold
    succeeds with another text than the new one.
 */
module AdjacentPatches {
  import opened Wrappers
  import opened Model
  import opened Text
  import opened PatchSearch
  import opened PatchBinding
  import opened Weave
  import opened PatchRoundTrip
  import opened BindRoundTrip
  import opened StackRoundTrip
  import opened SharedLines

  // ----- two insertions at one place -----

  /** Both fragments insert between front and back, with the same neighbours; only at
      the beginning of the text there is none in front, only at its end none behind. */
  ghost predicate InsertBetween(front: string, back: string, first: PatchFragment, second: PatchFragment) {
    && first.before == "" && second.before == "" && first.after != ""
    && first.beforeContext == second.beforeContext && first.afterContext == second.afterContext
    && EndsWith(front, first.beforeContext) && StartsWith(back, first.afterContext)
    && (first.beforeContext == "" ==> front == "") && (first.afterContext == "" ==> back == "")
  }

  /** The second fragment fits in front of the first one's text. */
  ghost predicate FitsInFront(back: string, first: PatchFragment, second: PatchFragment) {
    StartsWith(first.after + back, second.afterContext)
  }

  /** The second fragment fits behind the first one's text. */
  ghost predicate FitsBehind(front: string, first: PatchFragment, second: PatchFragment) {
    EndsWith(front + first.after, second.beforeContext) && (second.beforeContext != "" || second.afterContext != "")
  }

  /** The first fragment is refused or inserted in its place. */
  lemma InsertsFirst(front: string, back: string, first: PatchFragment, second: PatchFragment)
    requires InsertBetween(front, back, first, second)
    ensures
      var result := Patched(front + back, first);
      result == Err(Conflict) || result == Ok(front + first.after + back)
  {
    assert front + back == front + first.before + back;
    PlaceIff(front + back, front, back, first);
    hide Matches, EndsWith, StartsWith;
    assert Considered(front + back, first, |front|);
    AppliesWhereBound(front + back, first, |front|);
  }

  /** The second one's places next to the first one's text. */
  lemma PlacesOfSecond(front: string, back: string, first: PatchFragment, second: PatchFragment)
    requires InsertBetween(front, back, first, second)
    ensures
      var content, behind := front + first.after + back, |front + first.after|;
      && (OwnPlace(content, second, |front|) <==> FitsInFront(back, first, second))
      && (OwnPlace(content, second, behind) <==> FitsBehind(front, first, second))
      && |front| + |second.before| <= |content| && behind + |second.before| <= |content|
      && Splice(content, second, |front|) == front + second.after + first.after + back
      && Splice(content, second, behind) == front + first.after + second.after + back
  {
    hide Matches, EndsWith, StartsWith, Splice;
    var content := front + first.after + back;
    assert content == front + second.before + (first.after + back);
    assert content == (front + first.after) + second.before + back;
    PlaceIff(content, front, first.after + back, second);
    PlaceIff(content, front + first.after, back, second);
    assert front + second.after + (first.after + back) == front + second.after + first.after + back;
  }

  ghost predicate OwnPlace(content: string, patch: PatchFragment, p: nat) {
    Considered(content, patch, p) && Matches(content, patch, p)
  }

  /** What the two fragments make of the text, one after the other. */
  lemma InsertTwice(front: string, back: string, first: PatchFragment, second: PatchFragment)
    requires InsertBetween(front, back, first, second)
    ensures
      var result := ApplyAll(front + back, [first, second]);
      && (FitsInFront(back, first, second) ==>
            result == Err(Conflict) || result == Ok(front + second.after + first.after + back))
      && (FitsBehind(front, first, second) ==>
            result == Err(Conflict) || result == Ok(front + first.after + second.after + back))
      && (FitsInFront(back, first, second) && FitsBehind(front, first, second) ==> result == Err(Conflict))
      && (!FitsInFront(back, first, second) && !FitsBehind(front, first, second) && result.Ok? ==>
            exists p :: p != |front| && p != |front + first.after| && AppliedAt(front + first.after + back, second, p))
  {
    var content, behind := front + first.after + back, |front + first.after|;
    InsertsFirst(front, back, first, second);
    PlacesOfSecond(front, back, first, second);
    ApplyBoth(front + back, first, second);
    assert behind != |front|;
    hide InsertBetween, FitsInFront, FitsBehind, Splice, Matches, Considered, Patched, ApplyAll;
    SecondAt(content, second, |front|, behind);
  }

  lemma ApplyBoth(content: string, first: PatchFragment, second: PatchFragment)
    ensures ApplyAll(content, [first, second])
         == if Patched(content, first).Err? then Patched(content, first)
            else Patched(Patched(content, first).value, second)
  {
    hide Patched, ApplyAll;
    ApplyFirst(content, first, [second]);
    if Patched(content, first).Ok? {
      var next := Patched(content, first).value;
      ApplyFirst(next, second, []);
      if Patched(next, second).Ok? {
        NothingApplied(Patched(next, second).value, {});
      }
    }
    assert [first] + [second] == [first, second] && [second] + [] == [second];
  }

  /** Two places of which the search considers some and finds them fitting. */
  lemma SecondAt(content: string, patch: PatchFragment, p: nat, q: nat)
    requires p != q && p + |patch.before| <= |content| && q + |patch.before| <= |content|
    ensures OwnPlace(content, patch, p) ==>
        Patched(content, patch) == Err(Conflict) || Patched(content, patch) == Ok(Splice(content, patch, p))
    ensures OwnPlace(content, patch, q) ==>
        Patched(content, patch) == Err(Conflict) || Patched(content, patch) == Ok(Splice(content, patch, q))
    ensures OwnPlace(content, patch, p) && OwnPlace(content, patch, q) ==> Patched(content, patch) == Err(Conflict)
    ensures !OwnPlace(content, patch, p) && !OwnPlace(content, patch, q) && Patched(content, patch).Ok? ==>
        exists r :: r != p && r != q && AppliedAt(content, patch, r)
  {
    var c := Candidates(content, patch);
    CandidatesAre(content, patch);
    AppliesAtIff(content, patch, p);
    AppliesAtIff(content, patch, q);
    if Patched(content, patch).Ok? {
      AppliesAtIff(content, patch, c[0]);
      assert c[0] in c && OwnPlace(content, patch, c[0]) && AppliedAt(content, patch, c[0]);
    }
    CandidatesMatch(content, patch);
    hide Considered, Matches, Splice, Candidates, AppliedAt;
    assert |c| == 1 ==> forall r :: r in c ==> r == c[0];
  }

  // ----- two groups with one empty old range -----

  /** The old range of the group is empty and lies in front of old line o. */
  ghost predicate InsertsAt(change: FileChange, group: Group, o: nat) {
    && OldStart(AlignedLines(change), group.start) == o
    && OldEnd(AlignedLines(change), group.end, |OldLines(change)|) == o
  }

  ghost function FragmentOf(change: FileChange, group: Group): PatchFragment
    requires group.start < group.end <= |NewLines(change)|
  {
    Bound(change.path, OldLines(change), NewLines(change), AlignedLines(change), group)
  }

  lemma InsertionFacts(change: FileChange, group: Group, o: nat)
    requires group.start < group.end <= |NewLines(change)| && InsertsAt(change, group, o)
    ensures o <= |OldLines(change)|
    ensures
      var was, patch := OldLines(change), FragmentOf(change, group);
      && patch.before == "" && patch.after != ""
      && patch.beforeContext == LineBefore(was, o) && patch.afterContext == LineFrom(was, o)
  {
    var was, now := OldLines(change), NewLines(change);
    BoundWith(change.path, was, now, AlignedLines(change), group);
    JoinSplit(change.newContent);
    LinesHaveLength(now[group.start..group.end]);
    hide Bound, EndsWith, StartsWith;
    assert was[o..o] == [];
  }

  /** Every place of a file stands between its two neighbouring lines. */
  lemma BetweenLines(change: FileChange, o: nat)
    requires o <= |OldLines(change)|
    ensures
      var was := OldLines(change);
      var front, back := Concat(was[..o]), Concat(was[o..]);
      && change.oldContent == front + back
      && EndsWith(front, LineBefore(was, o)) && StartsWith(back, LineFrom(was, o))
      && (LineBefore(was, o) == "" ==> front == "") && (LineFrom(was, o) == "" ==> back == "")
  {
    var was := OldLines(change);
    JoinSplit(change.oldContent);
    hide EndsWith, StartsWith, Concat;
    ContextsAround(was, 0, o);
    ContextsAround(was, o, |was|);
    assert was[0..o] == was[..o] && was[o..|was|] == was[o..];
    assert was == was[..o] + was[o..];
    ConcatAppend(was[..o], was[o..]);
  }

  lemma InsertionsMeet(change: FileChange, first: Group, second: Group, o: nat)
    requires InFile([first, second], |NewLines(change)|)
    requires InsertsAt(change, first, o) && InsertsAt(change, second, o)
    ensures first.start < first.end <= |NewLines(change)| && second.start < second.end <= |NewLines(change)|
    ensures o <= |OldLines(change)|
    ensures
      var was := OldLines(change);
      && change.oldContent == Concat(was[..o]) + Concat(was[o..])
      && InsertBetween(Concat(was[..o]), Concat(was[o..]), FragmentOf(change, first), FragmentOf(change, second))
  {
    assert [first, second][0] == first && [first, second][1] == second;
    hide InsertsAt, FragmentOf, EndsWith, StartsWith, Concat, OldLines, NewLines, LineBefore, LineFrom;
    InsertionFacts(change, first, o);
    InsertionFacts(change, second, o);
    BetweenLines(change, o);
  }

  /** What the new file is when two groups insert at one place. */
  lemma NewOfInsertions(change: FileChange, one: Group, other: Group, o: nat)
    requires Rows([one, other], |NewLines(change)|) && InsertsAt(change, one, o) && InsertsAt(change, other, o)
    requires Covered(OldLines(change), NewLines(change), AlignedLines(change), [one, other], 0, 0)
    ensures one.start < one.end <= |NewLines(change)| && other.start < other.end <= |NewLines(change)|
    ensures o <= |OldLines(change)|
    ensures
      var was := OldLines(change);
      change.newContent
      == Concat(was[..o]) + FragmentOf(change, one).after + FragmentOf(change, other).after + Concat(was[o..])
  {
    var was, now, aligned := OldLines(change), NewLines(change), AlignedLines(change);
    var groups := [one, other];
    assert groups[0] == one && groups[1] == other;
    InsertionFacts(change, one, o);
    OrderedIff(was, now, aligned, groups, 0);
    FragmentsWeaveFile(change, groups);
    GapsOfTwo(was, aligned, one, other, o);
    AftersOfTwo(change, one, other);
    hide InsertsAt, FileGaps, FragmentsOf, Covered, Rows, FragmentOf, Ordered, InFile;
    WovenOfTwo(Concat(was[..o]), Concat(was[o..]), FragmentOf(change, one).after, FragmentOf(change, other).after);
  }

  lemma GapsOfTwo(was: seq<Line>, aligned: Pairs, one: Group, other: Group, o: nat)
    requires Ordered(aligned, [one, other], |was|, 0) && o <= |was|
    requires OldStart(aligned, one.start) == OldEnd(aligned, one.end, |was|) == o
    requires OldStart(aligned, other.start) == OldEnd(aligned, other.end, |was|) == o
    ensures GapsOf(was, aligned, [one, other], 0) == [Concat(was[..o]), "", Concat(was[o..])]
  {
    assert [one, other][1..] == [other] && [other][1..] == [];
    GapsOfFirst(was, aligned, [one, other], 0);
    GapsOfFirst(was, aligned, [other], o);
    hide Ordered, OldStart, OldEnd;
    assert was[0..o] == was[..o] && was[o..o] == [];
    assert Concat([]) == "";
  }

  lemma AftersOfTwo(change: FileChange, one: Group, other: Group)
    requires InFile([one, other], |NewLines(change)|)
    ensures one.start < one.end <= |NewLines(change)| && other.start < other.end <= |NewLines(change)|
    ensures FragmentsOf(change, [one, other]) == [FragmentOf(change, one), FragmentOf(change, other)]
    ensures Afters(FragmentsOf(change, [one, other]))
         == [FragmentOf(change, one).after, FragmentOf(change, other).after]
  {
    assert [one, other][0] == one && [one, other][1] == other;
    BoundAllAt(change.path, OldLines(change), NewLines(change), AlignedLines(change), [one, other], 0);
    BoundAllAt(change.path, OldLines(change), NewLines(change), AlignedLines(change), [one, other], 1);
  }

  lemma WovenOfTwo(front: string, back: string, a: string, b: string)
    ensures Woven([front, "", back], [a, b]) == front + a + b + back
  {
    assert [front, "", back][1..] == ["", back] && [a, b][1..] == [b];
    assert ["", back][1..] == [back] && [b][1..] == [];
    assert Woven([back], []) == back;
    assert Woven(["", back], [b]) == "" + b + back;
    assert front + a + ("" + b + back) == front + a + b + back;
  }

  /** A stack of two insertions at one place. */
  ghost predicate TwoInsertions(stack: seq<Atoms>, change: FileChange, first: Group, second: Group, o: nat) {
    && StackCovers(stack, change) && StackGroups(stack, change.path) == [first, second]
    && InsertsAt(change, first, o) && InsertsAt(change, second, o)
  }

  lemma TwoInsertionsFold(stack: seq<Atoms>, change: FileChange, first: Group, second: Group, o: nat)
    requires TwoInsertions(stack, change, first, second, o)
    ensures first.start < first.end <= |NewLines(change)| && second.start < second.end <= |NewLines(change)|
    ensures o <= |OldLines(change)|
    ensures
      var front, back := Concat(OldLines(change)[..o]), Concat(OldLines(change)[o..]);
      var a, b := FragmentOf(change, first), FragmentOf(change, second);
      && StackPatches(stack, change).value == [a, b]
      && InsertBetween(front, back, a, b) && change.oldContent == front + back
      && change.newContent
         == (if first.start < second.start then front + a.after + b.after + back else front + b.after + a.after + back)
  {
    TwoInsertionsBind(stack, change, first, second, o);
    InsertionsMeet(change, first, second, o);
    AftersOfTwo(change, first, second);
    hide TwoInsertions, FragmentOf, InsertBetween, Concat, FragmentsOf, InFile, InsertsAt, Rows, Covered;
    if first.start < second.start {
      NewOfInsertions(change, first, second, o);
    } else {
      NewOfInsertions(change, second, first, o);
    }
  }

  lemma TwoInsertionsBind(stack: seq<Atoms>, change: FileChange, first: Group, second: Group, o: nat)
    requires TwoInsertions(stack, change, first, second, o)
    ensures InFile([first, second], |NewLines(change)|)
    ensures InsertsAt(change, first, o) && InsertsAt(change, second, o)
    ensures StackPatches(stack, change).value == FragmentsOf(change, [first, second])
    ensures
      var inFile := if first.start < second.start then [first, second] else [second, first];
      && Rows(inFile, |NewLines(change)|)
      && Covered(OldLines(change), NewLines(change), AlignedLines(change), inFile, 0, 0)
  {
    StackIsWoven(stack, change);
    hide InsertsAt, Sorted, Positions, FragmentsOf, Covered, Rows, InFile, PairwiseDisjoint;
    RowsOfTwo(first, second, |NewLines(change)|);
    SameMembersCover(OldLines(change), NewLines(change), AlignedLines(change), [first, second], [second, first]);
  }

  lemma RowsOfTwo(first: Group, second: Group, newLines: nat)
    requires InFile([first, second], newLines) && PairwiseDisjoint([first, second])
    ensures Rows(if first.start < second.start then [first, second] else [second, first], newLines)
    ensures first.start != second.start
  {
    var groups := [first, second];
    assert groups[0] == first && groups[1] == second;
    assert Disjoint(groups[0], groups[1]);
  }

  /** What a stack of two insertions at one place gives: the later one is put in front
      of the earlier one's text when that begins like the line behind, and behind it
      when that ends like the line in front; both make a conflict. */
  lemma AdjacentInsertions(stack: seq<Atoms>, change: FileChange, first: Group, second: Group, o: nat)
    requires TwoInsertions(stack, change, first, second, o)
    ensures first.start < first.end <= |NewLines(change)| && second.start < second.end <= |NewLines(change)|
    ensures o <= |OldLines(change)|
    ensures
      var front, back := Concat(OldLines(change)[..o]), Concat(OldLines(change)[o..]);
      var a, b := FragmentOf(change, first), FragmentOf(change, second);
      var result := ApplyAll(change.oldContent, StackPatches(stack, change).value);
      && (FitsInFront(back, a, b) ==> result == Err(Conflict) || result == Ok(front + b.after + a.after + back))
      && (FitsBehind(front, a, b) ==> result == Err(Conflict) || result == Ok(front + a.after + b.after + back))
      && (FitsInFront(back, a, b) && FitsBehind(front, a, b) ==> result == Err(Conflict))
      && (!FitsInFront(back, a, b) && !FitsBehind(front, a, b) && result.Ok? ==>
            exists p :: p != |front| && p != |front + a.after| && AppliedAt(front + a.after + back, b, p))
      && change.newContent
         == (if first.start < second.start then front + a.after + b.after + back else front + b.after + a.after + back)
  {
    TwoInsertionsFold(stack, change, first, second, o);
    hide TwoInsertions, FragmentOf, InsertBetween, Concat;
    InsertTwice(Concat(OldLines(change)[..o]), Concat(OldLines(change)[o..]),
                FragmentOf(change, first), FragmentOf(change, second));
  }

  /** At the end of the file the later fragment comes in front of the earlier one. So a
      fold that succeeds gives the new text exactly when the stack lists the groups
      against the order of the file, or their texts commute. */
  lemma AppendsInReverse(stack: seq<Atoms>, change: FileChange, first: Group, second: Group)
    requires TwoInsertions(stack, change, first, second, |OldLines(change)|)
    ensures first.start < first.end <= |NewLines(change)| && second.start < second.end <= |NewLines(change)|
    ensures
      var a, b := FragmentOf(change, first).after, FragmentOf(change, second).after;
      var result := ApplyAll(change.oldContent, StackPatches(stack, change).value);
      && (result == Err(Conflict) || result == Ok(change.oldContent + b + a))
      && (result.Ok? ==> (result == Ok(change.newContent) <==> second.start < first.start || a + b == b + a))
  {
    var was := OldLines(change);
    TwoInsertionsFold(stack, change, first, second, |was|);
    AdjacentInsertions(stack, change, first, second, |was|);
    var a, b := FragmentOf(change, first), FragmentOf(change, second);
    EndOfFile(change);
    EmptyContext(a.after + "");
    assert FitsInFront("", a, b);
    StackIsWoven(stack, change);
    RowsOfTwo(first, second, |NewLines(change)|);
    hide *;
    Cancel(change.oldContent, a.after + b.after, b.after + a.after);
    Regrouped(change.oldContent, a.after, b.after);
    Regrouped(change.oldContent, b.after, a.after);
  }

  lemma EndOfFile(change: FileChange)
    ensures
      var was := OldLines(change);
      Concat(was[..|was|]) == change.oldContent && Concat(was[|was|..]) == "" && LineFrom(was, |was|) == ""
  {
    var was := OldLines(change);
    assert was[|was|..] == [] && was[..|was|] == was;
    JoinSplit(change.oldContent);
  }

  lemma Regrouped(front: string, a: string, b: string)
    ensures front + a + b + "" == front + (a + b) == front + a + b
  {
  }

  lemma Cancel(front: string, a: string, b: string)
    ensures front + a == front + b <==> a == b
  {
    assert (front + a)[|front|..] == a && (front + b)[|front|..] == b;
  }
}
