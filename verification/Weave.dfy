/** A text made of fixed gaps and replaceable pieces between them, and fragments that
    replace the pieces one after the other, in any order.
 */
module Weave {
  import opened Wrappers
  import opened Text
  import opened PatchSearch

  function Woven(gaps: seq<string>, pieces: seq<string>): string
    requires |gaps| == |pieces| + 1
  {
    if pieces == [] then gaps[0] else gaps[0] + pieces[0] + Woven(gaps[1..], pieces[1..])
  }

  function Front(gaps: seq<string>, pieces: seq<string>, i: nat): string
    requires |gaps| == |pieces| + 1 && i < |pieces|
  {
    Woven(gaps[..i + 1], pieces[..i])
  }

  function Back(gaps: seq<string>, pieces: seq<string>, i: nat): string
    requires |gaps| == |pieces| + 1 && i < |pieces|
  {
    Woven(gaps[i + 1..], pieces[i + 1..])
  }

  lemma {:induction false} WovenAround(gaps: seq<string>, pieces: seq<string>, i: nat)
    requires |gaps| == |pieces| + 1 && i < |pieces|
    ensures Woven(gaps, pieces) == Front(gaps, pieces, i) + pieces[i] + Back(gaps, pieces, i)
    ensures EndsWith(Front(gaps, pieces, i), gaps[i]) && StartsWith(Back(gaps, pieces, i), gaps[i + 1])
  {
    BackStarts(gaps[i + 1..], pieces[i + 1..]);
    hide EndsWith, StartsWith;
    if i == 0 {
      EndsWithItself("", gaps[0]);
      assert "" + gaps[0] == gaps[0];
    } else {
      var rest, more := gaps[1..], pieces[1..];
      WovenAround(rest, more, i - 1);
      assert gaps[..i + 1][1..] == rest[..i] && pieces[..i][1..] == more[..i - 1];
      assert gaps[i + 1..] == rest[i..] && pieces[i + 1..] == more[i..];
      BehindEndsWith(gaps[0] + pieces[0], Front(rest, more, i - 1), gaps[i]);
      Regroup(gaps[0] + pieces[0], Front(rest, more, i - 1), pieces[i], Back(gaps, pieces, i));
    }
  }

  lemma Regroup(a: string, b: string, c: string, d: string)
    ensures a + (b + c + d) == a + b + c + d
  {
  }

  lemma EndsWithItself(a: string, b: string)
    ensures EndsWith(a + b, b)
  {
  }

  lemma BehindEndsWith(a: string, b: string, suffix: string)
    requires EndsWith(b, suffix)
    ensures EndsWith(a + b, suffix)
  {
    assert (a + b)[|a + b| - |suffix|..] == b[|b| - |suffix|..];
  }

  lemma BackStarts(gaps: seq<string>, pieces: seq<string>)
    requires |gaps| == |pieces| + 1
    ensures StartsWith(Woven(gaps, pieces), gaps[0])
  {
  }

  lemma EndsWithin(a: string, b: string, c: string)
    requires EndsWith(a, b) && EndsWith(b, c)
    ensures EndsWith(a, c)
  {
    assert a[|a| - |b|..][|b| - |c|..] == a[|a| - |c|..];
  }

  lemma StartsWithin(a: string, b: string, c: string)
    requires StartsWith(a, b) && StartsWith(b, c)
    ensures StartsWith(a, c)
  {
    assert a[..|b|][..|c|] == a[..|c|];
  }

  /** The gaps hold the neighbours that the fragments were bound with; only a fragment
      at the beginning of the text may lack the one in front. */
  ghost predicate Hosted(gaps: seq<string>, patches: seq<PatchFragment>) {
    && |gaps| == |patches| + 1
    && (forall i :: 0 <= i < |patches| ==>
          && EndsWith(gaps[i], patches[i].beforeContext) && StartsWith(gaps[i + 1], patches[i].afterContext)
          && (patches[i].beforeContext == "" ==> i == 0 && gaps[0] == ""))
  }

  /** Each piece before or after its fragment has been applied. */
  function Pieces(patches: seq<PatchFragment>, done: set<nat>): (pieces: seq<string>)
    ensures |pieces| == |patches|
    ensures forall i :: 0 <= i < |patches| ==> pieces[i] == if i in done then patches[i].after else patches[i].before
  {
    seq(|patches|, i requires 0 <= i < |patches| => if i in done then patches[i].after else patches[i].before)
  }

  /** The text in which some of the fragments have been applied. */
  function Partly(gaps: seq<string>, patches: seq<PatchFragment>, done: set<nat>): string
    requires |gaps| == |patches| + 1
  {
    Woven(gaps, Pieces(patches, done))
  }

  function PlaceOf(gaps: seq<string>, patches: seq<PatchFragment>, done: set<nat>, i: nat): nat
    requires |gaps| == |patches| + 1 && i < |patches|
  {
    |Front(gaps, Pieces(patches, done), i)|
  }

  lemma PlaceIff(content: string, front: string, back: string, patch: PatchFragment)
    requires content == front + patch.before + back
    ensures OccursAt(content, patch.before, |front|)
    ensures Matches(content, patch, |front|)
       <==> EndsWith(front, patch.beforeContext) && StartsWith(back, patch.afterContext)
    ensures Splice(content, patch, |front|) == front + patch.after + back
  {
    var end := |front| + |patch.before|;
    assert content[..|front|] == front && content[end..] == back;
    assert content[|front|..end] == patch.before;
  }

  /** Whichever fragments have been applied already, the region of another one stands
      at its own piece, and putting it there applies exactly this one. It matches there
      when its neighbours stand around the piece at this stage. */
  lemma StandsInPlace(gaps: seq<string>, patches: seq<PatchFragment>, done: set<nat>, i: nat)
    requires |gaps| == |patches| + 1 && i < |patches| && i !in done
    ensures
      var content, p := Partly(gaps, patches, done), PlaceOf(gaps, patches, done, i);
      var pieces := Pieces(patches, done);
      && OccursAt(content, patches[i].before, p)
      && Splice(content, patches[i], p) == Partly(gaps, patches, done + {i})
      && (Matches(content, patches[i], p)
          <==> && EndsWith(Front(gaps, pieces, i), patches[i].beforeContext)
               && StartsWith(Back(gaps, pieces, i), patches[i].afterContext))
  {
    hide EndsWith, StartsWith, Woven, Matches, Splice;
    var was, now := Pieces(patches, done), Pieces(patches, done + {i});
    WovenAround(gaps, was, i);
    WovenAround(gaps, now, i);
    assert was[..i] == now[..i] && was[i + 1..] == now[i + 1..];
    PlaceIff(Partly(gaps, patches, done), Front(gaps, was, i), Back(gaps, was, i), patches[i]);
  }

  /** When the gaps hold the neighbours, a fragment matches at its own piece at every
      stage. */
  lemma FitsInPlace(gaps: seq<string>, patches: seq<PatchFragment>, done: set<nat>, i: nat)
    requires Hosted(gaps, patches) && i < |patches| && i !in done
    ensures
      var content, p := Partly(gaps, patches, done), PlaceOf(gaps, patches, done, i);
      && Matches(content, patches[i], p)
      && Splice(content, patches[i], p) == Partly(gaps, patches, done + {i})
      && (patches[i].beforeContext == "" ==> p == 0)
  {
    hide EndsWith, StartsWith, Woven, Matches, Splice;
    var pieces := Pieces(patches, done);
    StandsInPlace(gaps, patches, done, i);
    WovenAround(gaps, pieces, i);
    EndsWithin(Front(gaps, pieces, i), gaps[i], patches[i].beforeContext);
    StartsWithin(Back(gaps, pieces, i), gaps[i + 1], patches[i].afterContext);
    FrontOfFirst(gaps, pieces);
  }

  lemma FrontOfFirst(gaps: seq<string>, pieces: seq<string>)
    requires |gaps| == |pieces| + 1 && pieces != []
    ensures Front(gaps, pieces, 0) == gaps[0]
  {
  }

  // ----- one fragment after the other -----

  /** Each fragment is still to be applied, and none twice. */
  ghost predicate Fresh(order: seq<nat>, count: nat, done: set<nat>) {
    && (forall k :: 0 <= k < |order| ==> order[k] < count && order[k] !in done)
    && (forall k, l :: 0 <= k < l < |order| ==> order[k] != order[l])
  }

  lemma FreshRest(order: seq<nat>, count: nat, done: set<nat>)
    requires Fresh(order, count, done) && order != []
    ensures Fresh(order[1..], count, done + {order[0]})
  {
  }

  function Members(order: seq<nat>): set<nat> {
    set k | k in order
  }

  function InOrder(patches: seq<PatchFragment>, order: seq<nat>): seq<PatchFragment>
    requires forall k :: 0 <= k < |order| ==> order[k] < |patches|
  {
    if order == [] then [] else [patches[order[0]]] + InOrder(patches, order[1..])
  }

  /** At its turn each fragment matches at its own piece, and the scan reaches it there. */
  ghost predicate InPlace(gaps: seq<string>, patches: seq<PatchFragment>, order: seq<nat>, done: set<nat>)
    requires |gaps| == |patches| + 1 && Fresh(order, |patches|, done)
    decreases |order|
  {
    order == [] ||
    var i := order[0];
    var content, p := Partly(gaps, patches, done), PlaceOf(gaps, patches, done, i);
    FreshRest(order, |patches|, done);
    && Considered(content, patches[i], p) && Matches(content, patches[i], p)
    && InPlace(gaps, patches, order[1..], done + {i})
  }

  lemma AppliesNext(gaps: seq<string>, patches: seq<PatchFragment>, done: set<nat>, i: nat)
    requires |gaps| == |patches| + 1 && i < |patches| && i !in done
    requires
      var content, p := Partly(gaps, patches, done), PlaceOf(gaps, patches, done, i);
      Considered(content, patches[i], p) && Matches(content, patches[i], p)
    ensures
      var next := Patched(Partly(gaps, patches, done), patches[i]);
      next == Err(Conflict) || next == Ok(Partly(gaps, patches, done + {i}))
  {
    var content, p := Partly(gaps, patches, done), PlaceOf(gaps, patches, done, i);
    StandsInPlace(gaps, patches, done, i);
    hide Partly, PlaceOf, Splice, Patched, Candidates, OccursAt, ContextsFit, Matches, Considered;
    AppliesWhereBound(content, patches[i], p);
  }

  lemma ApplyFirst(content: string, first: PatchFragment, rest: seq<PatchFragment>)
    ensures ApplyAll(content, [first] + rest)
         == if Patched(content, first).Err? then Patched(content, first)
            else ApplyAll(Patched(content, first).value, rest)
  {
    hide Patched;
    assert ([first] + rest)[1..] == rest;
  }

  lemma NothingApplied(content: string, done: set<nat>)
    ensures ApplyAll(content, []) == Ok(content) && done + Members([]) == done
  {
  }

  lemma OneMoreDone(done: set<nat>, order: seq<nat>)
    requires order != []
    ensures done + Members(order) == done + {order[0]} + Members(order[1..])
  {
    assert order == [order[0]] + order[1..];
  }

  /** Searching for the fragments one after the other, in any order, is refused at
      some fragment or ends with exactly their pieces replaced. */
  lemma {:induction false} AppliesInAnyOrder(gaps: seq<string>, patches: seq<PatchFragment>, order: seq<nat>,
                                             done: set<nat>)
    requires |gaps| == |patches| + 1 && Fresh(order, |patches|, done) && InPlace(gaps, patches, order, done)
    ensures
      var result := ApplyAll(Partly(gaps, patches, done), InOrder(patches, order));
      result == Err(Conflict) || result == Ok(Partly(gaps, patches, done + Members(order)))
    decreases |order|
  {
    if order == [] {
      NothingApplied(Partly(gaps, patches, done), done);
    } else {
      hide Partly, PlaceOf, Considered, Matches, Patched, Members, ApplyAll;
      var i, rest := order[0], order[1..];
      FreshRest(order, |patches|, done);
      AppliesNext(gaps, patches, done, i);
      AppliesInAnyOrder(gaps, patches, rest, done + {i});
      OneMoreDone(done, order);
      ApplyFirst(Partly(gaps, patches, done), patches[i], InOrder(patches, rest));
    }
  }

  /** The scan reaches the place where each fragment belongs, at the stage where it
      is searched for. */
  ghost predicate Reached(gaps: seq<string>, patches: seq<PatchFragment>, order: seq<nat>, done: set<nat>)
    requires |gaps| == |patches| + 1 && Fresh(order, |patches|, done)
    decreases |order|
  {
    order == [] ||
    var i := order[0];
    FreshRest(order, |patches|, done);
    && (patches[i].before == "" || Considered(Partly(gaps, patches, done), patches[i], PlaceOf(gaps, patches, done, i)))
    && Reached(gaps, patches, order[1..], done + {i})
  }

  /** When the gaps hold the neighbours, to be reached is all that a fragment needs. */
  lemma {:induction false} HostedInPlace(gaps: seq<string>, patches: seq<PatchFragment>, order: seq<nat>,
                                         done: set<nat>)
    requires Hosted(gaps, patches) && Fresh(order, |patches|, done) && Reached(gaps, patches, order, done)
    ensures InPlace(gaps, patches, order, done)
    decreases |order|
  {
    if order != [] {
      FreshRest(order, |patches|, done);
      FitsInPlace(gaps, patches, done, order[0]);
      HostedInPlace(gaps, patches, order[1..], done + {order[0]});
    }
  }

  /** A fragment whose region cannot overlap itself is reached at every stage. */
  lemma {:induction false} UnborderedReached(gaps: seq<string>, patches: seq<PatchFragment>, order: seq<nat>,
                                             done: set<nat>)
    requires |gaps| == |patches| + 1 && Fresh(order, |patches|, done)
    requires forall i :: 0 <= i < |patches| ==> Unbordered(patches[i].before)
    ensures Reached(gaps, patches, order, done)
    decreases |order|
  {
    if order != [] {
      var i := order[0];
      FreshRest(order, |patches|, done);
      StandsInPlace(gaps, patches, done, i);
      if patches[i].before != "" {
        UnborderedIsConsidered(Partly(gaps, patches, done), patches[i], PlaceOf(gaps, patches, done, i));
      }
      UnborderedReached(gaps, patches, order[1..], done + {i});
    }
  }

  lemma AllReplaced(gaps: seq<string>, patches: seq<PatchFragment>, done: set<nat>)
    requires |gaps| == |patches| + 1 && forall i :: 0 <= i < |patches| ==> i in done
    ensures Partly(gaps, patches, done) == Woven(gaps, Afters(patches))
    ensures Partly(gaps, patches, {}) == Woven(gaps, Befores(patches))
  {
    assert Pieces(patches, done) == Afters(patches);
    assert Pieces(patches, {}) == Befores(patches);
  }

  /** All of them, from the text with every `before` to the one with every `after`. */
  lemma AppliesAll(gaps: seq<string>, patches: seq<PatchFragment>, order: seq<nat>)
    requires |gaps| == |patches| + 1 && Fresh(order, |patches|, {}) && InPlace(gaps, patches, order, {})
    requires forall i :: 0 <= i < |patches| ==> i in Members(order)
    ensures
      var result := ApplyAll(Woven(gaps, Befores(patches)), InOrder(patches, order));
      result == Err(Conflict) || result == Ok(Woven(gaps, Afters(patches)))
  {
    hide Woven, InPlace, InOrder, ApplyAll, Befores, Afters;
    AppliesInAnyOrder(gaps, patches, order, {});
    AllReplaced(gaps, patches, {} + Members(order));
  }

  function Befores(patches: seq<PatchFragment>): (s: seq<string>)
    ensures |s| == |patches| && forall i :: 0 <= i < |s| ==> s[i] == patches[i].before
  {
    if patches == [] then [] else [patches[0].before] + Befores(patches[1..])
  }

  function Afters(patches: seq<PatchFragment>): (s: seq<string>)
    ensures |s| == |patches| && forall i :: 0 <= i < |s| ==> s[i] == patches[i].after
  {
    if patches == [] then [] else [patches[0].after] + Afters(patches[1..])
  }
}
