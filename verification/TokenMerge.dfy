/** The three-way token merge: two edit scripts over one base, walked together,
    that succeed only when no two edits compete.
 */
module TokenMerge {
  import opened Wrappers
  import opened EditScripts
  import opened Tokenizer

  /** Two edits compete when they begin at the same place without being the same
      edit, or when one begins strictly inside the other. */
  predicate Clash(l: TokenEdit, r: TokenEdit) {
    || (l.start == r.start && l != r)
    || l.start < r.start < l.end
    || r.start < l.start < r.end
  }

  predicate Conflicting(left: seq<TokenEdit>, right: seq<TokenEdit>) {
    exists l, r :: l in left && r in right && Clash(l, r)
  }

  /** Both scripts in base order, with an edit that both sides made listed once. */
  function Union(left: seq<TokenEdit>, right: seq<TokenEdit>): seq<TokenEdit>
    decreases |left| + |right|
  {
    if left == [] then right
    else if right == [] then left
    else if left[0].start == right[0].start then [left[0]] + Union(left[1..], right[1..])
    else if left[0].start < right[0].start then [left[0]] + Union(left[1..], right)
    else [right[0]] + Union(left, right[1..])
  }

  /** Edits in strictly increasing order of their starts. */
  ghost predicate Increasing(edits: seq<TokenEdit>) {
    forall k, l :: 0 <= k < l < |edits| ==> edits[k].start < edits[l].start
  }

  ghost function Members(edits: seq<TokenEdit>): set<TokenEdit> {
    set e | e in edits
  }

  /** A script in front of which nothing happens before lo. */
  ghost predicate Rest(edits: seq<TokenEdit>, lo: nat, n: nat) {
    IsScript(edits, n) && Fits(edits, lo, n)
  }

  lemma RestTail(edits: seq<TokenEdit>, lo: nat, n: nat)
    requires Rest(edits, lo, n) && edits != []
    ensures Rest(edits[1..], edits[0].end, n)
    ensures forall k :: 0 <= k < |edits[1..]| ==>
        edits[0].start < edits[1..][k].start && edits[0].end < edits[1..][k].start
  {
    assert forall k :: 0 <= k < |edits[1..]| ==> edits[1..][k] == edits[k + 1];
  }

  /** What the union is, for scripts that do not compete. */
  ghost predicate IsUnion(u: seq<TokenEdit>, left: seq<TokenEdit>, right: seq<TokenEdit>, lo: nat, n: nat) {
    && Fits(u, lo, n)
    && Increasing(u)
    && Members(u) == Members(left) + Members(right)
  }

  lemma MembersCons(e: TokenEdit, rest: seq<TokenEdit>)
    ensures Members([e] + rest) == {e} + Members(rest)
  {
    assert ([e] + rest)[0] == e;
    assert forall k :: 0 <= k < |rest| ==> ([e] + rest)[k + 1] == rest[k];
  }

  lemma UnionPrepend(e: TokenEdit, u: seq<TokenEdit>, left: seq<TokenEdit>, right: seq<TokenEdit>, lo: nat, n: nat)
    requires lo <= e.start <= e.end <= n
    requires IsUnion(u, left, right, e.end, n)
    requires forall x :: x in left || x in right ==> e.start < x.start
    ensures IsUnion([e] + u, [e] + left, right, lo, n) && IsUnion([e] + u, left, [e] + right, lo, n)
    ensures IsUnion([e] + u, [e] + left, [e] + right, lo, n)
  {
    MembersCons(e, u);
    MembersCons(e, left);
    MembersCons(e, right);
    forall k | 0 <= k < |u|
      ensures e.start < u[k].start
    {
      assert u[k] in Members(u);
    }
    IncreasingCons(e, u, lo, n);
  }

  lemma IncreasingCons(e: TokenEdit, u: seq<TokenEdit>, lo: nat, n: nat)
    requires lo <= e.start <= e.end <= n && Fits(u, e.end, n) && Increasing(u)
    requires forall k :: 0 <= k < |u| ==> e.start < u[k].start
    ensures Fits([e] + u, lo, n) && Increasing([e] + u)
  {
    var all := [e] + u;
    assert forall k :: 1 <= k < |all| ==> all[k] == u[k - 1];
  }

  lemma ConsumeLeft(left: seq<TokenEdit>, right: seq<TokenEdit>, lo: nat, n: nat)
    requires Rest(left, lo, n) && Rest(right, lo, n) && left != []
    requires right != [] ==> left[0].start < right[0].start && left[0].end <= right[0].start
    ensures Rest(right, left[0].end, n)
    ensures Conflicting(left, right) <==> Conflicting(left[1..], right)
    ensures Conflicting(right, left) <==> Conflicting(right, left[1..])
  {
    RestTail(left, lo, n);
    StartsFrom(right, lo, n);
    HeadBounds(left, lo, n);
    assert forall r :: r in right ==> !Clash(left[0], r) && !Clash(r, left[0]);
    assert Rest(right, left[0].end, n);
    hide Rest, Clash;
    assert left == [left[0]] + left[1..];
  }

  lemma StartsFrom(edits: seq<TokenEdit>, lo: nat, n: nat)
    requires Rest(edits, lo, n)
    ensures forall e :: e in edits ==> edits[0].start <= e.start
  {
    forall k | 0 <= k < |edits|
      ensures edits[0].start <= edits[k].start
    {
      assert 0 < k ==> edits[0].end < edits[k].start;
    }
  }

  lemma HeadBounds(edits: seq<TokenEdit>, lo: nat, n: nat)
    requires Rest(edits, lo, n) && edits != []
    ensures lo <= edits[0].start <= edits[0].end <= n
  {
  }

  lemma UnionWithNothing(left: seq<TokenEdit>, right: seq<TokenEdit>, lo: nat, n: nat)
    requires Rest(left, lo, n) && Rest(right, lo, n) && (left == [] || right == [])
    ensures IsUnion(Union(left, right), left, right, lo, n)
  {
    assert Members(Union(left, right)) == Members(left) + Members(right);
  }

  lemma {:induction false} UnionIsUnion(left: seq<TokenEdit>, right: seq<TokenEdit>, lo: nat, n: nat)
    requires Rest(left, lo, n) && Rest(right, lo, n) && !Conflicting(left, right)
    ensures IsUnion(Union(left, right), left, right, lo, n)
    decreases |left| + |right|
  {
    hide Fits, IsScript, IsUnion;
    if left == [] || right == [] {
      UnionWithNothing(left, right, lo, n);
    } else {
      var l, r := left[0], right[0];
      assert !Clash(l, r);
      HeadBounds(left, lo, n);
      HeadBounds(right, lo, n);
      RestTail(left, lo, n);
      RestTail(right, lo, n);
      assert left == [l] + left[1..] && right == [r] + right[1..];
      if l.start == r.start {
        UnionIsUnion(left[1..], right[1..], l.end, n);
        UnionPrepend(l, Union(left[1..], right[1..]), left[1..], right[1..], lo, n);
      } else if l.start < r.start {
        ConsumeLeft(left, right, lo, n);
        UnionIsUnion(left[1..], right, l.end, n);
        UnionPrepend(l, Union(left[1..], right), left[1..], right, lo, n);
      } else {
        ConsumeLeft(right, left, lo, n);
        UnionIsUnion(left, right[1..], r.end, n);
        UnionPrepend(r, Union(left, right[1..]), left, right[1..], lo, n);
      }
    }
  }

  /** Edits that stand in one list do not compete. */
  lemma NoClashInUnion(u: seq<TokenEdit>, left: seq<TokenEdit>, right: seq<TokenEdit>, n: nat, l: TokenEdit,
                       r: TokenEdit)
    requires IsUnion(u, left, right, 0, n) && l in left && r in right
    ensures !Clash(l, r)
  {
    assert l in Members(u) && r in Members(u);
    var i :| 0 <= i < |u| && u[i] == l;
    var j :| 0 <= j < |u| && u[j] == r;
    assert i < j ==> u[i].end <= u[j].start && u[i].start < u[j].start;
    assert j < i ==> u[j].end <= u[i].start && u[j].start < u[i].start;
  }

  /** The scripts conflict exactly when no list of edits that follow one another, at
      different places, holds the edits of both. */
  lemma ConflictIff(left: seq<TokenEdit>, right: seq<TokenEdit>, n: nat)
    requires IsScript(left, n) && IsScript(right, n)
    ensures Conflicting(left, right) <==> forall u :: !IsUnion(u, left, right, 0, n)
  {
    hide Clash, IsUnion, IsScript;
    forall u, l, r | IsUnion(u, left, right, 0, n) && l in left && r in right
      ensures !Clash(l, r)
    {
      NoClashInUnion(u, left, right, n, l, r);
    }
    if !Conflicting(left, right) {
      ScriptsRest(left, right, n);
      UnionIsUnion(left, right, 0, n);
    }
  }

  lemma ScriptsRest(left: seq<TokenEdit>, right: seq<TokenEdit>, n: nat)
    requires IsScript(left, n) && IsScript(right, n)
    ensures Rest(left, 0, n) && Rest(right, 0, n)
  {
  }

  /** A strictly increasing list is determined by its members. */
  lemma {:induction false} IncreasingIsUnique(u: seq<TokenEdit>, v: seq<TokenEdit>)
    requires Increasing(u) && Increasing(v) && Members(u) == Members(v)
    ensures u == v
    decreases |u|
  {
    assert v != [] ==> v[0] in Members(v);
    if u != [] {
      assert u[0] in Members(v);
      var k :| 0 <= k < |v| && v[k] == u[0];
      assert v[0] in Members(u);
      var l :| 0 <= l < |u| && u[l] == v[0];
      assert k == 0 && l == 0;
      assert u == [u[0]] + u[1..] && v == [v[0]] + v[1..];
      assert u[0] !in Members(u[1..]) && u[0] !in Members(v[1..]);
      MembersCons(u[0], u[1..]);
      MembersCons(v[0], v[1..]);
      assert Members(u[1..]) == Members(v[1..]);
      IncreasingIsUnique(u[1..], v[1..]);
    }
  }

  /** Merging is symmetric: neither side is preferred. */
  lemma UnionIsSymmetric(left: seq<TokenEdit>, right: seq<TokenEdit>, n: nat)
    requires IsScript(left, n) && IsScript(right, n)
    ensures Conflicting(left, right) <==> Conflicting(right, left)
    ensures !Conflicting(left, right) ==> Union(left, right) == Union(right, left)
  {
    hide Fits, Union;
    if !Conflicting(left, right) {
      UnionIsUnion(left, right, 0, n);
      UnionIsUnion(right, left, 0, n);
      IncreasingIsUnique(Union(left, right), Union(right, left));
    }
  }

  /** The specification of the merge of two scripts. */
  ghost function Merged(base: seq<Token>, left: seq<TokenEdit>, right: seq<TokenEdit>): Option<seq<Token>>
    requires IsScript(left, |base|) && IsScript(right, |base|)
  {
    if Conflicting(left, right) then None
    else
      UnionIsUnion(left, right, 0, |base|);
      Some(Apply(base, Union(left, right), 0))
  }

  /** What the loop still has to append. */
  ghost function Remaining(base: seq<Token>, left: seq<TokenEdit>, right: seq<TokenEdit>, position: nat): seq<Token>
    requires position <= |base| && Rest(left, position, |base|) && Rest(right, position, |base|)
    requires !Conflicting(left, right)
  {
    UnionIsUnion(left, right, position, |base|);
    Apply(base, Union(left, right), position)
  }

  /** One turn of the loop that consumes edit e and leaves left' and right'. */
  ghost predicate Consumes(base: seq<Token>, left: seq<TokenEdit>, right: seq<TokenEdit>, position: nat,
                           e: TokenEdit, left': seq<TokenEdit>, right': seq<TokenEdit>)
    requires position <= |base| && Rest(left, position, |base|) && Rest(right, position, |base|)
  {
    && position <= e.start <= e.end <= |base|
    && Rest(left', e.end, |base|) && Rest(right', e.end, |base|)
    && (Conflicting(left, right) <==> Conflicting(left', right'))
    && (!Conflicting(left, right) ==>
          Remaining(base, left, right, position)
          == base[position..e.start] + e.replacement + Remaining(base, left', right', e.end))
  }

  lemma TakeBoth(base: seq<Token>, left: seq<TokenEdit>, right: seq<TokenEdit>, position: nat)
    requires position <= |base| && Rest(left, position, |base|) && Rest(right, position, |base|)
    requires left != [] && right != [] && left[0] == right[0]
    ensures Consumes(base, left, right, position, left[0], left[1..], right[1..])
  {
    RestTail(left, position, |base|);
    RestTail(right, position, |base|);
    if !Conflicting(left, right) {
      UnionIsUnion(left, right, position, |base|);
      ApplyCons(base, left[0], Union(left[1..], right[1..]), position);
    }
  }

  lemma TakeLeft(base: seq<Token>, left: seq<TokenEdit>, right: seq<TokenEdit>, position: nat)
    requires position <= |base| && Rest(left, position, |base|) && Rest(right, position, |base|)
    requires left != [] && (right != [] ==> left[0].start < right[0].start && left[0].end <= right[0].start)
    ensures Consumes(base, left, right, position, left[0], left[1..], right)
    ensures Consumes(base, right, left, position, left[0], right, left[1..])
  {
    ConsumeLeft(left, right, position, |base|);
    RestTail(left, position, |base|);
    if !Conflicting(left, right) {
      UnionIsUnion(left, right, position, |base|);
      UnionIsSymmetric(left, right, |base|);
      UnionIsSymmetric(left[1..], right, |base|);
      assert Union(left, right) == [left[0]] + Union(left[1..], right);
      ApplyCons(base, left[0], Union(left[1..], right), position);
    }
    UnionIsSymmetric(left, right, |base|);
  }

  /** The loop invariant: `output` and what remains make up the goal, and an edit
      already consumed competes with nothing that is left. */
  ghost predicate OnTrack(base: seq<Token>, left: seq<TokenEdit>, right: seq<TokenEdit>, position: nat,
                          output: seq<Token>, goal: Option<seq<Token>>)
    requires position <= |base| && Rest(left, position, |base|) && Rest(right, position, |base|)
  {
    if Conflicting(left, right) then goal == None
    else goal == Some(output + Remaining(base, left, right, position))
  }

  lemma StartsOnTrack(base: seq<Token>, left: seq<TokenEdit>, right: seq<TokenEdit>)
    requires IsScript(left, |base|) && IsScript(right, |base|)
    ensures OnTrack(base, left, right, 0, [], Merged(base, left, right))
  {
    if !Conflicting(left, right) {
      var all := Remaining(base, left, right, 0);
      assert [] + all == all;
    }
  }

  lemma Refuses(base: seq<Token>, left: seq<TokenEdit>, right: seq<TokenEdit>, position: nat,
                output: seq<Token>, goal: Option<seq<Token>>)
    requires position <= |base| && Rest(left, position, |base|) && Rest(right, position, |base|)
    requires left != [] && right != [] && Clash(left[0], right[0])
    requires OnTrack(base, left, right, position, output, goal)
    ensures goal == None
  {
    assert left[0] in left && right[0] in right;
  }

  lemma Ends(base: seq<Token>, position: nat, output: seq<Token>, goal: Option<seq<Token>>)
    requires position <= |base| && OnTrack(base, [], [], position, output, goal)
    ensures goal == Some(output + base[position..])
  {
  }

  lemma Advance(base: seq<Token>, left: seq<TokenEdit>, right: seq<TokenEdit>, position: nat,
                e: TokenEdit, left': seq<TokenEdit>, right': seq<TokenEdit>, output: seq<Token>,
                goal: Option<seq<Token>>)
    requires position <= |base| && Rest(left, position, |base|) && Rest(right, position, |base|)
    requires Consumes(base, left, right, position, e, left', right')
    requires OnTrack(base, left, right, position, output, goal)
    ensures OnTrack(base, left', right', e.end, output + (base[position..e.start] + e.replacement), goal)
  {
    hide Fits, Apply, Union;
    if !Conflicting(left, right) {
      var x, rest := base[position..e.start] + e.replacement, Remaining(base, left', right', e.end);
      assert output + (x + rest) == output + x + rest;
    }
  }

  method MergeTokenEdits(base: seq<Token>, left: seq<TokenEdit>, right: seq<TokenEdit>)
    returns (result: Option<seq<Token>>)
    requires IsScript(left, |base|) && IsScript(right, |base|)
    ensures result == Merged(base, left, right)
  {
    hide Fits, Apply, Union, OnTrack;
    var output: seq<Token> := [];
    var position: nat, li: nat, ri: nat := 0, 0, 0;
    ghost var ls, rs := left, right;
    ghost var goal := Merged(base, left, right);
    StartsOnTrack(base, left, right);
    while li < |left| || ri < |right|
      invariant li <= |left| && ri <= |right| && position <= |base|
      invariant ls == left[li..] && rs == right[ri..]
      invariant Rest(ls, position, |base|) && Rest(rs, position, |base|)
      invariant OnTrack(base, ls, rs, position, output, goal)
      decreases |left| - li + |right| - ri
    {
      if li < |left| && ri < |right| && left[li].start == right[ri].start {
        if left[li] != right[ri] {
          Refuses(base, ls, rs, position, output, goal);
          return None;
        }
        TakeBoth(base, ls, rs, position);
        Advance(base, ls, rs, position, left[li], ls[1..], rs[1..], output, goal);
        output := output + (base[position..left[li].start] + left[li].replacement);
        position := left[li].end;
        ls, rs := ls[1..], rs[1..];
        li, ri := li + 1, ri + 1;
      } else if li < |left| && (ri == |right| || left[li].start < right[ri].start) {
        if ri < |right| && right[ri].start < left[li].end {
          Refuses(base, ls, rs, position, output, goal);
          return None;
        }
        TakeLeft(base, ls, rs, position);
        Advance(base, ls, rs, position, left[li], ls[1..], rs, output, goal);
        output := output + (base[position..left[li].start] + left[li].replacement);
        position := left[li].end;
        ls := ls[1..];
        li := li + 1;
      } else {
        if li < |left| && left[li].start < right[ri].end {
          Refuses(base, ls, rs, position, output, goal);
          return None;
        }
        TakeLeft(base, rs, ls, position);
        Advance(base, ls, rs, position, right[ri], ls, rs[1..], output, goal);
        output := output + (base[position..right[ri].start] + right[ri].replacement);
        position := right[ri].end;
        rs := rs[1..];
        ri := ri + 1;
      }
    }
    Ends(base, position, output, goal);
    output := output + base[position..];
    result := Some(output);
  }
}
