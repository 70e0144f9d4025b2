/** When the text of a successful merge still consists of the tokens that were
    merged, that is, when no two tokens are glued together.
 */
module TokenSeams {
  import opened Wrappers
  import opened Text
  import opened Tokenizer
  import opened EditScripts
  import opened TokenMerge
  import opened TokenFrames
  import opened MergeText

  /** One side appends at the end of the base while the other rewrites a stretch
      that ends there. */
  ghost predicate MeetAtEnd(left: seq<TokenEdit>, right: seq<TokenEdit>, n: nat) {
    exists e, a :: e in left + right && a in left + right && e.start < e.end == n && a.start == n
  }

  /** The edits in front of the last one. */
  ghost function Init(u: seq<TokenEdit>): seq<TokenEdit>
    requires u != []
  {
    u[..|u| - 1]
  }

  lemma InitFits(u: seq<TokenEdit>, lo: nat, n: nat)
    requires u != [] && Fits(u, lo, n)
    ensures Fits(Init(u), lo, n) && Init(u) + [u[|u| - 1]] == u
  {
    assert forall k :: 0 <= k < |u| - 1 ==> Init(u)[k] == u[k];
  }

  predicate SameClass(t: Token, u: Token, isWord: char -> bool) {
    t != "" && u != "" && Class(t, isWord) == Class(u, isWord)
  }

  ghost predicate SameClassMeets(front: seq<Token>, appended: seq<Token>, isWord: char -> bool) {
    front != [] && appended != [] && SameClass(front[|front| - 1], appended[0], isWord)
  }

  /** No edit touches base token k. */
  ghost predicate Untouched(edits: seq<TokenEdit>, k: nat) {
    forall e :: e in edits ==> !(e.start <= k < e.end)
  }

  /** In front of base token `stop` something is left: an untouched base token, or
      what an edit puts there. */
  ghost predicate SomethingBefore(edits: seq<TokenEdit>, stop: nat) {
    || (exists k :: 0 <= k < stop && Untouched(edits, k))
    || (exists e :: e in edits && e.start < stop && e.replacement != [])
  }

  /** Edit e rewrites a stretch that ends with the base, edit a appends there, and they
      glue: the last token that e puts there has the class of the first appended one;
      or e only deletes, something is left in front of it, and the first token that it
      deletes has the other class. */
  ghost predicate Glue(base: seq<Token>, edits: seq<TokenEdit>, e: TokenEdit, a: TokenEdit, isWord: char -> bool) {
    && e in edits && a in edits && e.start < e.end == |base| == a.start && a.replacement != []
    && if e.replacement != [] then SameClass(e.replacement[|e.replacement| - 1], a.replacement[0], isWord)
       else SomethingBefore(edits, e.start) && !SameClass(base[e.start], a.replacement[0], isWord)
  }

  /** Two of the edits glue. */
  ghost predicate Glues(base: seq<Token>, left: seq<TokenEdit>, right: seq<TokenEdit>, isWord: char -> bool) {
    exists e, a :: Glue(base, left + right, e, a, isWord)
  }

  lemma InUnion(base: seq<Token>, left: seq<TokenEdit>, right: seq<TokenEdit>, isWord: char -> bool)
    requires IsScript(left, |base|) && IsScript(right, |base|) && !Conflicting(left, right)
    ensures IsUnion(Union(left, right), left, right, 0, |base|)
    ensures forall e :: e in Union(left, right) <==> e in left + right
    ensures Alternates(base, isWord) && AllFramed(base, left, isWord) && AllFramed(base, right, isWord) ==>
        AllFramed(base, Union(left, right), isWord)
    ensures forall e :: e in Union(left, right) ==> e.start < e.end || e.replacement != []
  {
    var u := Union(left, right);
    UnionIsUnion(left, right, 0, |base|);
    forall e
      ensures e in u <==> e in left + right
    {
      assert e in u <==> e in Members(u);
      assert e in left <==> e in Members(left);
      assert e in right <==> e in Members(right);
    }
    hide Fits;
    forall k | 0 <= k < |u|
      ensures u[k] in left || u[k] in right
    {
      assert u[k] in left + right;
    }
  }

  /** Where the two meet, the append is the last edit of the union. */
  lemma AppendIsLast(left: seq<TokenEdit>, right: seq<TokenEdit>, u: seq<TokenEdit>, n: nat)
    requires MeetAtEnd(left, right, n) && Fits(u, 0, n) && Increasing(u)
    requires forall e :: e in u <==> e in left + right
    ensures u != [] && u[|u| - 1].start == n && TailLast(Init(u), n)
  {
    var e, a :| e in left + right && a in left + right && e.start < e.end == n && a.start == n;
    assert a in u;
    var k :| 0 <= k < |u| && u[k] == a;
    var last := |u| - 1;
    var end := u[last];
    assert end.start <= n && k == last;
    forall i | 0 <= i < |Init(u)| - 1
      ensures Init(u)[i].end < n
    {
      var next := u[i + 1];
      assert u[i].end <= next.start && next.start < u[last].start;
    }
  }

  lemma InitAlternates(base: seq<Token>, u: seq<TokenEdit>, isWord: char -> bool)
    requires u != [] && Fits(u, 0, |base|) && Increasing(u) && TailLast(Init(u), |base|)
    requires Alternates(base, isWord) && AllFramed(base, u, isWord)
    ensures Fits(Init(u), 0, |base|) && Alternates(Apply(base, Init(u), 0), isWord)
  {
    InitFits(u, 0, |base|);
    assert forall k :: 0 <= k < |u| - 1 ==> Init(u)[k] == u[k];
    FramedEditsAlternate(base, Init(u), isWord);
  }

  lemma ApplyAppendOnly(base: seq<Token>, a: TokenEdit, pos: nat)
    requires pos <= |base| && Fits([a], pos, |base|) && a.start == |base|
    ensures Fits([], pos, |base|) && Apply(base, [a], pos) == Apply(base, [], pos) + a.replacement
  {
    assert [a] + [] == [a];
    ApplyCons(base, a, [], pos);
    assert base[a.end..] == [] && base[pos..a.start] == base[pos..];
  }

  lemma ApplyLastStep(base: seq<Token>, e: TokenEdit, rest: seq<TokenEdit>, a: TokenEdit, pos: nat)
    requires pos <= |base| && Fits([e] + rest, pos, |base|) && Fits([e] + (rest + [a]), pos, |base|)
    requires e.end <= |base| && Fits(rest, e.end, |base|) && Fits(rest + [a], e.end, |base|)
    requires Apply(base, rest + [a], e.end) == Apply(base, rest, e.end) + a.replacement
    ensures Apply(base, [e] + (rest + [a]), pos) == Apply(base, [e] + rest, pos) + a.replacement
  {
    hide Fits, Apply;
    ApplyCons(base, e, rest + [a], pos);
    ApplyCons(base, e, rest, pos);
    var kept, tail := base[pos..e.start] + e.replacement, Apply(base, rest, e.end);
    assert kept + (tail + a.replacement) == kept + tail + a.replacement;
  }

  lemma {:induction false} ApplyLast(base: seq<Token>, edits: seq<TokenEdit>, a: TokenEdit, pos: nat)
    requires pos <= |base| && Fits(edits + [a], pos, |base|) && a.start == |base|
    ensures Fits(edits, pos, |base|)
    ensures Apply(base, edits + [a], pos) == Apply(base, edits, pos) + a.replacement
    decreases |edits|
  {
    hide Fits, Apply;
    assert Init(edits + [a]) == edits;
    InitFits(edits + [a], pos, |base|);
    if edits == [] {
      assert edits + [a] == [a];
      ApplyAppendOnly(base, a, pos);
    } else {
      var e, rest := edits[0], edits[1..];
      assert edits == [e] + rest && edits + [a] == [e] + (rest + [a]);
      ApplyCons(base, e, rest + [a], pos);
      ApplyLast(base, rest, a, e.end);
      ApplyLastStep(base, e, rest, a, pos);
    }
  }

  lemma JoinIff(front: seq<Token>, appended: seq<Token>, isWord: char -> bool)
    requires Alternates(front, isWord) && Alternates(appended, isWord) && appended != []
    ensures Alternates(front + appended, isWord) <==> !SameClassMeets(front, appended, isWord)
  {
    AlternatesJoin(front, appended, isWord);
  }

  lemma MeetingAlternatesIff(base: seq<Token>, u: seq<TokenEdit>, isWord: char -> bool)
    requires u != [] && Fits(u, 0, |base|) && Increasing(u) && TailLast(Init(u), |base|)
    requires u[|u| - 1].start == |base| && u[|u| - 1].replacement != []
    requires Alternates(base, isWord) && AllFramed(base, u, isWord)
    ensures Fits(Init(u), 0, |base|)
    ensures Alternates(Apply(base, u, 0), isWord)
       <==> !SameClassMeets(Apply(base, Init(u), 0), u[|u| - 1].replacement, isWord)
  {
    var a := u[|u| - 1];
    assert Alternates(a.replacement, isWord) by {
      FrameFacts(base, a, isWord);
    }
    InitAlternates(base, u, isWord);
    hide Apply, AllFramed, Increasing, TailLast, Alternates, SameClassMeets, Fits;
    InitFits(u, 0, |base|);
    ApplyLast(base, Init(u), a, 0);
    JoinIff(Apply(base, Init(u), 0), a.replacement, isWord);
  }

  // ----- what stands in front of the append -----

  lemma {:induction false} ApplyCut(base: seq<Token>, edits: seq<TokenEdit>, pos: nat, stop: nat)
    requires pos <= stop <= |base| && Fits(edits, pos, stop)
    ensures Fits(edits, pos, |base|)
    ensures Apply(base, edits, pos) == Apply(base[..stop], edits, pos) + base[stop..]
    decreases |edits|
  {
    if edits == [] {
      CutRest(base, pos, stop);
    } else {
      var e, rest := edits[0], edits[1..];
      assert edits == [e] + rest;
      ApplyCons(base[..stop], e, rest, pos);
      ApplyCut(base, rest, e.end, stop);
      CutFits(edits, pos, stop, |base|);
      ApplyCons(base, e, rest, pos);
      hide Fits, Apply;
      CutSlice(base, stop, pos, e.start);
      var kept, tail := base[pos..e.start] + e.replacement, Apply(base[..stop], rest, e.end);
      assert kept + (tail + base[stop..]) == kept + tail + base[stop..];
    }
  }

  lemma CutFits(edits: seq<TokenEdit>, pos: nat, stop: nat, n: nat)
    requires Fits(edits, pos, stop) && stop <= n
    ensures Fits(edits, pos, n)
  {
  }

  lemma CutRest(base: seq<Token>, pos: nat, stop: nat)
    requires pos <= stop <= |base|
    ensures base[pos..] == base[..stop][pos..] + base[stop..]
  {
  }

  /** An edit that ends with the base comes last. */
  lemma {:induction false} ApplyEnd(base: seq<Token>, edits: seq<TokenEdit>, e: TokenEdit, pos: nat)
    requires pos <= |base| && Fits(edits + [e], pos, |base|) && e.end == |base|
    ensures pos <= e.start <= |base| && Fits(edits, pos, e.start)
    ensures Apply(base, edits + [e], pos) == Apply(base[..e.start], edits, pos) + e.replacement
    decreases |edits|
  {
    hide Fits, Apply;
    EndFits(edits, e, pos, |base|);
    if edits == [] {
      assert [e] == edits + [e];
      ApplyEndOnly(base, e, pos);
    } else {
      var f, rest := edits[0], edits[1..];
      assert edits == [f] + rest && edits + [e] == [f] + (rest + [e]);
      ApplyCons(base, f, rest + [e], pos);
      ApplyEnd(base, rest, e, f.end);
      ApplyEndStep(base, f, rest, e, pos);
    }
  }

  lemma ApplyEndOnly(base: seq<Token>, e: TokenEdit, pos: nat)
    requires pos <= e.start <= e.end == |base| && Fits([e], pos, |base|) && Fits([], pos, e.start)
    ensures Apply(base, [e], pos) == Apply(base[..e.start], [], pos) + e.replacement
  {
    assert [e] == [e] + [];
    ApplyCons(base, e, [], pos);
    CutSlice(base, e.start, pos, e.start);
    assert base[pos..e.start] + e.replacement + [] == base[pos..e.start] + e.replacement;
  }

  lemma ApplyEndStep(base: seq<Token>, f: TokenEdit, rest: seq<TokenEdit>, e: TokenEdit, pos: nat)
    requires pos <= |base| && Fits([f] + (rest + [e]), pos, |base|) && f.end <= e.start <= |base|
    requires Fits(rest + [e], f.end, |base|) && Fits(rest, f.end, e.start)
    requires pos <= e.start && Fits([f] + rest, pos, e.start)
    requires Apply(base, rest + [e], f.end) == Apply(base[..e.start], rest, f.end) + e.replacement
    ensures Apply(base, [f] + (rest + [e]), pos) == Apply(base[..e.start], [f] + rest, pos) + e.replacement
  {
    hide Fits, Apply;
    ApplyCons(base, f, rest + [e], pos);
    ApplyCons(base[..e.start], f, rest, pos);
    CutSlice(base, e.start, pos, f.start);
    var kept, tail := base[pos..f.start] + f.replacement, Apply(base[..e.start], rest, f.end);
    assert kept + (tail + e.replacement) == kept + tail + e.replacement;
  }

  lemma CutSlice(base: seq<Token>, stop: nat, i: nat, j: nat)
    requires i <= j <= stop <= |base|
    ensures base[..stop][i..j] == base[i..j]
  {
  }

  lemma EndFits(edits: seq<TokenEdit>, e: TokenEdit, pos: nat, n: nat)
    requires Fits(edits + [e], pos, n)
    ensures pos <= e.start <= e.end <= n && Fits(edits, pos, e.start)
  {
    var all := edits + [e];
    assert all[|edits|] == e && forall k :: 0 <= k < |edits| ==> all[k] == edits[k];
  }

  /** Something is left of a stretch exactly when one of its tokens is untouched or an
      edit puts something there. */
  lemma {:induction false} SomethingLeft(base: seq<Token>, edits: seq<TokenEdit>, pos: nat)
    requires pos <= |base| && Fits(edits, pos, |base|)
    ensures Apply(base, edits, pos) != []
       <==> (exists k :: pos <= k < |base| && Untouched(edits, k)) || (exists e :: e in edits && e.replacement != [])
    decreases |edits|
  {
    if edits == [] {
      assert pos < |base| ==> Untouched(edits, pos);
    } else {
      var e, rest := edits[0], edits[1..];
      assert edits == [e] + rest;
      ApplyCons(base, e, rest, pos);
      SomethingLeft(base, rest, e.end);
      UntouchedFrom(edits, pos, |base|);
      hide Fits, Untouched;
      assert forall x :: x in edits <==> x == e || x in rest;
      assert |base[pos..e.start]| == e.start - pos;
    }
  }

  lemma UntouchedFrom(edits: seq<TokenEdit>, pos: nat, n: nat)
    requires edits != [] && Fits(edits, pos, n)
    ensures (exists k :: pos <= k < n && Untouched(edits, k))
       <==> pos < edits[0].start || exists k :: edits[0].end <= k < n && Untouched(edits[1..], k)
  {
    var e, rest := edits[0], edits[1..];
    assert edits == [e] + rest;
    assert forall x :: x in rest ==> e.end <= x.start;
    assert forall x :: x in edits ==> e.start <= x.start;
    if pos < e.start {
      assert Untouched(edits, pos);
    }
    forall k: nat | e.end <= k < n
      ensures Untouched(edits, k) <==> Untouched(rest, k)
    {
    }
    forall k: nat | e.start <= k < e.end
      ensures !Untouched(edits, k)
    {
    }
  }

  /** The last two edits of a union that ends with an append behind a rewritten end. */
  ghost predicate EndsMeeting(u: seq<TokenEdit>, n: nat) {
    && |u| >= 2
    && u[|u| - 2].start < u[|u| - 2].end == n && u[|u| - 1].start == n && u[|u| - 1].replacement != []
  }

  lemma BeforeEnd(edits: seq<TokenEdit>, u: seq<TokenEdit>, n: nat)
    requires EndsMeeting(u, n) && Fits(u, 0, n) && Increasing(u) && forall x :: x in u <==> x in edits
    ensures
      var v, e := u[..|u| - 2], u[|u| - 2];
      SomethingBefore(edits, e.start)
      <==> (exists k :: 0 <= k < e.start && Untouched(v, k)) || (exists f :: f in v && f.replacement != [])
  {
    var v, e, a := u[..|u| - 2], u[|u| - 2], u[|u| - 1];
    EndsSplit(u, n);
    hide Fits, Increasing;
    SomethingInFront(edits, v, e, a);
  }

  lemma EndsSplit(u: seq<TokenEdit>, n: nat)
    requires |u| >= 2 && Fits(u, 0, n) && Increasing(u)
    ensures
      var v, e, a := u[..|u| - 2], u[|u| - 2], u[|u| - 1];
      && e.start < a.start && (forall x :: x in v ==> x.start < e.start)
      && forall x :: x in u <==> x in v || x == e || x == a
  {
    var v, e, a := u[..|u| - 2], u[|u| - 2], u[|u| - 1];
    assert u == v + [e, a];
    assert forall i :: 0 <= i < |v| ==> v[i] == u[i];
    hide Fits;
  }

  lemma SomethingInFront(edits: seq<TokenEdit>, v: seq<TokenEdit>, e: TokenEdit, a: TokenEdit)
    requires forall x :: x in edits <==> x in v || x == e || x == a
    requires e.start < a.start && forall x :: x in v ==> x.start < e.start
    ensures SomethingBefore(edits, e.start)
       <==> (exists k :: 0 <= k < e.start && Untouched(v, k)) || (exists f :: f in v && f.replacement != [])
  {
    forall k: nat | k < e.start
      ensures Untouched(edits, k) <==> Untouched(v, k)
    {
      UntouchedBefore(edits, v, e, a, k);
    }
    hide Untouched;
  }

  lemma UntouchedBefore(edits: seq<TokenEdit>, v: seq<TokenEdit>, e: TokenEdit, a: TokenEdit, k: nat)
    requires forall x :: x in edits <==> x in v || x == e || x == a
    requires k < e.start && k < a.start
    ensures Untouched(edits, k) <==> Untouched(v, k)
  {
  }

  /** With the other edits in front of e applied, what stands before base[e.start] has
      the other class. */
  lemma ClassBefore(base: seq<Token>, v: seq<TokenEdit>, stop: nat, isWord: char -> bool)
    requires stop < |base| && Fits(v, 0, stop) && Increasing(v) && Fits(v, 0, |base|)
    requires Alternates(base, isWord) && AllFramed(base, v, isWord)
    ensures
      var front := Apply(base[..stop], v, 0);
      && base[stop] != ""
      && (front != [] ==> front[|front| - 1] != "" && Class(front[|front| - 1], isWord) != Class(base[stop], isWord))
  {
    FramedEditsAlternate(base, v, isWord);
    ApplyCut(base, v, 0, stop);
    hide Apply, AllFramed, Fits;
    AlternatesJoin(Apply(base[..stop], v, 0), base[stop..], isWord);
  }

  lemma MeetsIff(base: seq<Token>, edits: seq<TokenEdit>, u: seq<TokenEdit>, isWord: char -> bool)
    requires EndsMeeting(u, |base|) && Fits(u, 0, |base|) && Increasing(u) && forall x :: x in u <==> x in edits
    requires Alternates(base, isWord) && AllFramed(base, u, isWord)
    ensures Fits(Init(u), 0, |base|)
    ensures SameClassMeets(Apply(base, Init(u), 0), u[|u| - 1].replacement, isWord)
       <==> Glue(base, edits, u[|u| - 2], u[|u| - 1], isWord)
  {
    hide Apply, Fits, Increasing, AllFramed, Alternates, SomethingBefore, Untouched, SameClass, SameClassMeets, Framed;
    var v, e, a := u[..|u| - 2], u[|u| - 2], u[|u| - 1];
    InitFits(u, 0, |base|);
    assert Init(u) == v + [e];
    EndFits(v, e, 0, |base|);
    ApplyEnd(base, v, e, 0);
    FramedInit(base, u, isWord);
    var front := Apply(base[..e.start], v, 0);
    BeforeEnd(edits, u, |base|);
    SomethingLeft(base[..e.start], v, 0);
    ClassBefore(base, v, e.start, isWord);
    AppendedToken(base, a, isWord);
    TurnClass(front, e.replacement, base[e.start], a.replacement, isWord);
    assert e in u && a in u;
  }

  lemma TurnClass(front: seq<Token>, replacement: seq<Token>, next: Token, appended: seq<Token>, isWord: char -> bool)
    requires next != "" && appended != [] && appended[0] != ""
    requires front != [] ==> front[|front| - 1] != "" && Class(front[|front| - 1], isWord) != Class(next, isWord)
    ensures SameClassMeets(front + replacement, appended, isWord)
       <==> if replacement != [] then SameClass(replacement[|replacement| - 1], appended[0], isWord)
            else front != [] && !SameClass(next, appended[0], isWord)
  {
    LastOfJoin(front, replacement);
  }

  lemma LastOfJoin(a: seq<Token>, b: seq<Token>)
    ensures b == [] ==> a + b == a
    ensures b != [] ==> (a + b)[|a + b| - 1] == b[|b| - 1]
  {
  }

  lemma AppendedToken(base: seq<Token>, a: TokenEdit, isWord: char -> bool)
    requires a.start <= a.end <= |base| && Alternates(base, isWord) && Alternates(Framed(base, a), isWord)
        && a.replacement != []
    ensures a.replacement[0] != ""
  {
    FrameFacts(base, a, isWord);
  }

  lemma FramedInit(base: seq<Token>, u: seq<TokenEdit>, isWord: char -> bool)
    requires |u| >= 2 && Fits(u, 0, |base|) && Increasing(u) && AllFramed(base, u, isWord)
    ensures
      var v := u[..|u| - 2];
      Fits(v, 0, |base|) && Increasing(v) && AllFramed(base, v, isWord)
    ensures u[|u| - 1].start <= u[|u| - 1].end <= |base| && Alternates(Framed(base, u[|u| - 1]), isWord)
  {
    var v := u[..|u| - 2];
    assert forall k :: 0 <= k < |v| ==> v[k] == u[k];
  }

  /** Where two edits meet at the end, they are the last two of the union. */
  lemma MeetingIsLast(left: seq<TokenEdit>, right: seq<TokenEdit>, u: seq<TokenEdit>, e: TokenEdit, a: TokenEdit,
                      n: nat)
    requires e in left + right && a in left + right && e.start < e.end == n == a.start && Fits(u, 0, n) && Increasing(u)
    requires forall x :: x in u <==> x in left + right
    ensures |u| >= 2 && u[|u| - 2] == e && u[|u| - 1] == a
  {
    var i :| 0 <= i < |u| && u[i] == e;
    var k :| 0 <= k < |u| && u[k] == a;
    LastPosition(u, k, n);
    SecondLastPosition(u, i, n);
  }

  lemma LastPosition(u: seq<TokenEdit>, k: nat, n: nat)
    requires Fits(u, 0, n) && Increasing(u) && k < |u| && u[k].start == n
    ensures k == |u| - 1
  {
    var last := |u| - 1;
    assert u[last].start <= n;
  }

  lemma SecondLastPosition(u: seq<TokenEdit>, i: nat, n: nat)
    requires Fits(u, 0, n) && Increasing(u) && i < |u| && u[i].start < u[i].end == n
    requires u[|u| - 1].start == n
    ensures i == |u| - 2
  {
    assert i != |u| - 1;
    var next := u[i + 1];
    assert u[i].end <= next.start <= n;
    LastPosition(u, i + 1, n);
  }

  /** The exact condition, on the two edits that meet: a merge keeps its tokens apart
      unless an append glues to a rewritten end. */
  lemma MergedAlternatesIff(base: seq<Token>, left: seq<TokenEdit>, right: seq<TokenEdit>, isWord: char -> bool)
    requires IsScript(left, |base|) && IsScript(right, |base|) && !Conflicting(left, right)
    requires Alternates(base, isWord) && AllFramed(base, left, isWord) && AllFramed(base, right, isWord)
    ensures Alternates(Merged(base, left, right).value, isWord) <==> !Glues(base, left, right, isWord)
  {
    var u := Union(left, right);
    InUnion(base, left, right, isWord);
    hide Conflicting, Fits, IsScript, Union, Alternates, Apply, SomethingBefore, SameClass, SameClassMeets, AllFramed;
    if MeetAtEnd(left, right, |base|) {
      var e, a :| e in left + right && a in left + right && e.start < e.end == |base| && a.start == |base|;
      MeetingIsLast(left, right, u, e, a, |base|);
      MeetingAlternates(base, left, right, u, isWord);
      forall x, y | Glue(base, left + right, x, y, isWord)
        ensures x == e && y == a
      {
        MeetingIsLast(left, right, u, x, y, |base|);
      }
    } else {
      ApartAtEnd(left, right, |base|);
      FramedEditsAlternate(base, u, isWord);
    }
  }

  lemma MeetingAlternates(base: seq<Token>, left: seq<TokenEdit>, right: seq<TokenEdit>, u: seq<TokenEdit>,
                          isWord: char -> bool)
    requires |u| >= 2 && u[|u| - 2].start < u[|u| - 2].end == |base| == u[|u| - 1].start
    requires Fits(u, 0, |base|) && Increasing(u) && forall x :: x in u <==> x in left + right
    requires forall e :: e in u ==> e.start < e.end || e.replacement != []
    requires Alternates(base, isWord) && AllFramed(base, u, isWord)
    ensures Alternates(Apply(base, u, 0), isWord) <==> !Glue(base, left + right, u[|u| - 2], u[|u| - 1], isWord)
  {
    var e, a := u[|u| - 2], u[|u| - 1];
    assert e in u && a in u && a.end == |base|;
    AppendIsLast(left, right, u, |base|);
    MeetsIff(base, left + right, u, isWord);
    MeetingAlternatesIff(base, u, isWord);
  }

  lemma ApartAtEnd(left: seq<TokenEdit>, right: seq<TokenEdit>, n: nat)
    requires IsScript(left, n) && IsScript(right, n) && !Conflicting(left, right) && !MeetAtEnd(left, right, n)
    ensures TailLast(Union(left, right), n)
  {
    var u := Union(left, right);
    UnionIsUnion(left, right, 0, n);
    forall k | 0 <= k < |u| - 1
      ensures !(u[k].start < u[k].end == n)
    {
      assert u[k] in Members(u) && u[k + 1] in Members(u);
      assert u[k].end <= u[k + 1].start <= u[k + 1].end <= n;
      assert u[k] in left + right && u[k + 1] in left + right;
    }
  }

  /** The scripts of two texts over a base text. */
  ghost function ScriptOf(base: string, side: string, isWord: char -> bool): (edits: seq<TokenEdit>)
    ensures IsScript(edits, |Tokens(base, isWord)|)
    ensures Alternates(Tokens(base, isWord), isWord) && AllFramed(Tokens(base, isWord), edits, isWord)
  {
    var b, s := Tokens(base, isWord), Tokens(side, isWord);
    EditScriptApplies(b, s);
    TokensAlternate(base, isWord);
    TokensAlternate(side, isWord);
    SideFramesEdits(b, EditScript(b, s), 0, isWord);
    EditScript(b, s)
  }

  /** Reading the merged text again gives exactly the merged tokens, unless the merge
      glues at the end of the base; and that takes an append on one side and a
      rewritten end on the other. */
  lemma MergeKeepsTokens(base: string, left: string, right: string, isWord: char -> bool)
    requires MergedTokens(base, left, right, isWord).Some?
    ensures
      var b, l, r := Tokens(base, isWord), ScriptOf(base, left, isWord), ScriptOf(base, right, isWord);
      var tokens := MergedTokens(base, left, right, isWord).value;
      && !Conflicting(l, r)
      && (Tokens(Merge(base, left, right, isWord).value, isWord) == tokens <==> !Glues(b, l, r, isWord))
      && (!MeetAtEnd(l, r, |b|) ==> Tokens(Merge(base, left, right, isWord).value, isWord) == tokens)
  {
    var b, l, r := Tokens(base, isWord), ScriptOf(base, left, isWord), ScriptOf(base, right, isWord);
    MergedAlternatesIff(b, l, r, isWord);
    AlternatingIsTokens(MergedTokens(base, left, right, isWord).value, isWord);
  }

  function LetterClass(c: char): bool {
    c != '\n'
  }

  lemma ScriptsOfExample()
    ensures EditScript(["x", "\n"], ["x"]) == [TokenEdit(1, 2, [])]
    ensures EditScript(["x", "\n"], ["x", "\n", "y"]) == [TokenEdit(2, 2, ["y"])]
  {
    var b, r := ["x", "\n"], ["x", "\n", "y"];
    assert Script(b, ["x"], 2, 1) == [] && Script(b, ["x"], 1, 1) == [TokenEdit(1, 2, [])];
    assert Script(b, r, 2, 3) == [] && Script(b, r, 2, 2) == [TokenEdit(2, 2, ["y"])];
    assert Script(b, r, 1, 1) == Script(b, r, 2, 2);
  }

  lemma TextsOfExample()
    ensures Concat(["x", "\n"]) == "x\n" && Concat(["x"]) == "x" && Concat(["xy"]) == "xy"
    ensures Concat(["x", "\n", "y"]) == "x\ny" && Concat(["x", "y"]) == "xy"
  {
    assert Concat(["x"]) == "x" && Concat(["xy"]) == "xy" && Concat(["x", "\n"]) == "x\n";
    assert ["x"] + ["y"] == ["x", "y"] && "x" + "y" == "xy";
    ConcatOne(["x"], "y");
    assert ["x", "\n"] + ["y"] == ["x", "\n", "y"] && "x\n" + "y" == "x\ny";
    ConcatOne(["x", "\n"], "y");
  }

  lemma TokensOfExample()
    ensures Tokens("x\n", LetterClass) == ["x", "\n"]
    ensures Tokens("x", LetterClass) == ["x"]
    ensures Tokens("x\ny", LetterClass) == ["x", "\n", "y"]
    ensures Tokens("xy", LetterClass) == ["xy"]
  {
    TextsOfExample();
    hide Concat, Tokens;
    AlternatingIsTokens(["x", "\n"], LetterClass);
    AlternatingIsTokens(["x"], LetterClass);
    AlternatingIsTokens(["x", "\n", "y"], LetterClass);
    AlternatingIsTokens(["xy"], LetterClass);
  }

  lemma MergeOfExample()
    ensures var dl, dr := TokenEdit(1, 2, []), TokenEdit(2, 2, ["y"]);
            IsScript([dl], 2) && IsScript([dr], 2) && Merged(["x", "\n"], [dl], [dr]) == Some(["x", "y"])
  {
    var b, dl, dr := ["x", "\n"], TokenEdit(1, 2, []), TokenEdit(2, 2, ["y"]);
    assert !Clash(dl, dr);
    UnionOfTwo(dl, dr);
    UnionIsUnion([dl], [dr], 0, 2);
    hide Union, Apply, Clash;
    ApplyCons(b, dl, [dr], 0);
    assert [dr] == [dr] + [];
    ApplyCons(b, dr, [], 2);
    EndOfBase(b);
    assert b[2..2] + ["y"] + [] == ["y"];
    assert b[0..1] + [] + ["y"] == ["x", "y"];
  }

  lemma UnionOfTwo(l: TokenEdit, r: TokenEdit)
    requires l.start < r.start
    ensures Union([l], [r]) == [l] + [r]
  {
    assert [l][1..] == [] && Union([], [r]) == [r];
  }

  lemma EndOfBase(base: seq<Token>)
    ensures Fits([], |base|, |base|) && Apply(base, [], |base|) == []
  {
  }

  /** Without the condition it fails: over "x\n", deleting the line feed on one side
      and adding a line on the other merges to "xy", a single token. */
  lemma GlueExample()
    ensures Merge("x\n", "x", "x\ny", LetterClass) == Some("xy")
    ensures MergedTokens("x\n", "x", "x\ny", LetterClass) == Some(["x", "y"])
    ensures Tokens("xy", LetterClass) == ["xy"]
  {
    TextsOfExample();
    TokensOfExample();
    ScriptsOfExample();
    MergeOfExample();
    hide Tokens, EditScript, Merged, Concat;
    assert MergedTokens("x\n", "x", "x\ny", LetterClass) == Some(["x", "y"]);
  }
}
