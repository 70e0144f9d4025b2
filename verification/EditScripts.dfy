/** Edit scripts between two token lists: what `token_edits` computes, what
    applying a script means, and why the computed script is minimal.
 */
module EditScripts {
  import Lcs
  import Tokenizer
  import opened Wrappers

  type Token = Tokenizer.Token

  /** Replace base[start..end] by `replacement`. */
  datatype TokenEdit = TokenEdit(start: nat, end: nat, replacement: seq<Token>)

  /** Edits in base order, inside base[lo..n], that do not overlap. */
  ghost predicate Fits(edits: seq<TokenEdit>, lo: nat, n: nat) {
    && (forall k :: 0 <= k < |edits| ==> lo <= edits[k].start <= edits[k].end <= n)
    && (forall k, l :: 0 <= k < l < |edits| ==> edits[k].end <= edits[l].start)
  }

  /** A script: no edit is empty and between two edits at least one base token is kept. */
  ghost predicate IsScript(edits: seq<TokenEdit>, n: nat) {
    && Fits(edits, 0, n)
    && (forall k :: 0 <= k < |edits| ==> edits[k].start < edits[k].end || edits[k].replacement != [])
    && (forall k, l :: 0 <= k < l < |edits| ==> edits[k].end < edits[l].start)
  }

  /** The meaning of a list of edits on base[pos..]. */
  ghost function Apply(base: seq<Token>, edits: seq<TokenEdit>, pos: nat): seq<Token>
    requires pos <= |base| && Fits(edits, pos, |base|)
  {
    if edits == [] then base[pos..]
    else
      var e := edits[0];
      base[pos..e.start] + e.replacement + Apply(base, edits[1..], e.end)
  }

  /** How many tokens of base[pos..] the edits leave in place. */
  ghost function Kept(edits: seq<TokenEdit>, pos: nat, n: nat): nat
    requires pos <= n && Fits(edits, pos, n)
  {
    if edits == [] then n - pos
    else edits[0].start - pos + Kept(edits[1..], edits[0].end, n)
  }

  /** Replace base[start..end] by `tokens` in front of edits that begin at or after
      `end`; an edit that begins exactly there is the same stretch of change. */
  function Prepend(start: nat, end: nat, tokens: seq<Token>, edits: seq<TokenEdit>): seq<TokenEdit> {
    if edits != [] && edits[0].start == end then
      [TokenEdit(start, edits[0].end, tokens + edits[0].replacement)] + edits[1..]
    else [TokenEdit(start, end, tokens)] + edits
  }

  /** The edits of the walk from base[i..] and side[j..]: equal tokens are kept, on
      a tie the base token is deleted, and neighbouring changes form one edit. */
  function Script(base: seq<Token>, side: seq<Token>, i: nat, j: nat): seq<TokenEdit>
    requires i <= |base| && j <= |side|
    decreases |base| - i + |side| - j
  {
    if i == |base| && j == |side| then []
    else if i < |base| && j < |side| && base[i] == side[j] then Script(base, side, i + 1, j + 1)
    else if i < |base| && (j == |side| || Lcs.Length(base, side, i + 1, j) >= Lcs.Length(base, side, i, j + 1)) then
      Prepend(i, i + 1, [], Script(base, side, i + 1, j))
    else
      Prepend(i, i, [side[j]], Script(base, side, i, j + 1))
  }

  function EditScript(base: seq<Token>, side: seq<Token>): seq<TokenEdit> {
    Script(base, side, 0, 0)
  }

  function OpenAt(active: Option<TokenEdit>, i: nat): TokenEdit {
    if active.Some? then active.value else TokenEdit(i, i, [])
  }

  /** An edit that is still open, joined to the edits that are still to come. */
  ghost function Join(active: Option<TokenEdit>, rest: seq<TokenEdit>): seq<TokenEdit> {
    if active.Some? then Prepend(active.value.start, active.value.end, active.value.replacement, rest) else rest
  }

  /** The loop invariant of `TokenEdits`: what it has emitted, what it has open and
      what the walk will still emit make up the script. */
  ghost predicate OnWalk(base: seq<Token>, side: seq<Token>, i: nat, j: nat, active: Option<TokenEdit>,
                         edits: seq<TokenEdit>)
    requires i <= |base| && j <= |side|
  {
    && (active.Some? ==> active.value.end == i)
    && edits + Join(active, Script(base, side, i, j)) == EditScript(base, side)
  }

  method TokenEdits(base: seq<Token>, side: seq<Token>) returns (edits: seq<TokenEdit>)
    ensures edits == EditScript(base, side)
  {
    hide OnWalk, Script;
    var lcs := Lcs.FillTable(base, side);
    edits := [];
    var i: nat, j: nat := 0, 0;
    var active: Option<TokenEdit> := None;
    WalkStarts(base, side);
    while i < |base| || j < |side|
      invariant i <= |base| && j <= |side|
      invariant forall k :: 0 <= k <= |base| ==> Lcs.RowFilled(lcs, base, side, k, 0)
      invariant OnWalk(base, side, i, j, active, edits)
      decreases |base| - i + |side| - j
    {
      assert Lcs.RowFilled(lcs, base, side, i, 0);
      assert i < |base| ==> Lcs.RowFilled(lcs, base, side, i + 1, 0);
      if i < |base| && j < |side| && base[i] == side[j] {
        WalkKeeps(base, side, i, j, active, edits);
        if active.Some? {
          edits := edits + [active.value];
        }
        active := None;
        i, j := i + 1, j + 1;
      } else if i < |base| && (j == |side| || lcs[i + 1, j] >= lcs[i, j + 1]) {
        WalkDeletes(base, side, i, j, active, edits);
        var e := OpenAt(active, i);
        active := Some(e.(end := e.end + 1));
        i := i + 1;
      } else {
        WalkInserts(base, side, i, j, active, edits);
        var e := OpenAt(active, i);
        active := Some(e.(replacement := e.replacement + [side[j]]));
        j := j + 1;
      }
    }
    WalkEnds(base, side, active, edits);
    if active.Some? {
      edits := edits + [active.value];
    }
  }

  lemma WalkStarts(base: seq<Token>, side: seq<Token>)
    ensures OnWalk(base, side, 0, 0, None, [])
  {
    var all := EditScript(base, side);
    assert [] + all == all;
  }

  lemma WalkEnds(base: seq<Token>, side: seq<Token>, active: Option<TokenEdit>, edits: seq<TokenEdit>)
    requires OnWalk(base, side, |base|, |side|, active, edits)
    ensures EditScript(base, side) == if active.Some? then edits + [active.value] else edits
  {
  }

  /** A kept token closes the open edit. */
  lemma WalkKeeps(base: seq<Token>, side: seq<Token>, i: nat, j: nat, active: Option<TokenEdit>, edits: seq<TokenEdit>)
    requires i < |base| && j < |side| && base[i] == side[j] && OnWalk(base, side, i, j, active, edits)
    ensures OnWalk(base, side, i + 1, j + 1, None, if active.Some? then edits + [active.value] else edits)
  {
    var rest := Script(base, side, i + 1, j + 1);
    if active.Some? {
      ScriptIsScript(base, side, i + 1, j + 1);
      assert Join(active, rest) == [active.value] + rest;
      assert edits + ([active.value] + rest) == edits + [active.value] + rest;
    }
  }

  lemma WalkDeletes(base: seq<Token>, side: seq<Token>, i: nat, j: nat, active: Option<TokenEdit>,
                    edits: seq<TokenEdit>)
    requires i < |base| && j <= |side| && OnWalk(base, side, i, j, active, edits)
    requires j < |side| ==> base[i] != side[j] && Lcs.Length(base, side, i + 1, j) >= Lcs.Length(base, side, i, j + 1)
    ensures
      var e := OpenAt(active, i);
      OnWalk(base, side, i + 1, j, Some(e.(end := e.end + 1)), edits)
  {
    JoinStep(active, i, i + 1, [], Script(base, side, i + 1, j));
    var e := OpenAt(active, i);
    assert e.replacement + [] == e.replacement;
  }

  lemma WalkInserts(base: seq<Token>, side: seq<Token>, i: nat, j: nat, active: Option<TokenEdit>,
                    edits: seq<TokenEdit>)
    requires i <= |base| && j < |side| && OnWalk(base, side, i, j, active, edits)
    requires i < |base| ==> base[i] != side[j] && Lcs.Length(base, side, i + 1, j) < Lcs.Length(base, side, i, j + 1)
    ensures
      var e := OpenAt(active, i);
      OnWalk(base, side, i, j + 1, Some(e.(replacement := e.replacement + [side[j]])), edits)
  {
    JoinStep(active, i, i, [side[j]], Script(base, side, i, j + 1));
  }

  /** A deletion or an insertion extends the open edit, or opens one. */
  lemma JoinStep(active: Option<TokenEdit>, i: nat, end: nat, tokens: seq<Token>, rest: seq<TokenEdit>)
    requires active.Some? ==> active.value.end == i
    ensures
      var e := OpenAt(active, i);
      Join(active, Prepend(i, end, tokens, rest)) == Join(Some(TokenEdit(e.start, end, e.replacement + tokens)), rest)
  {
    var e := OpenAt(active, i);
    if rest != [] && rest[0].start == end {
      assert e.replacement + tokens + rest[0].replacement == e.replacement + (tokens + rest[0].replacement);
    }
    assert [] + tokens == tokens;
  }

  lemma ScriptCons(e: TokenEdit, rest: seq<TokenEdit>, n: nat)
    requires e.start <= e.end <= n && (e.start < e.end || e.replacement != [])
    requires IsScript(rest, n) && Fits(rest, e.end, n) && (rest != [] ==> e.end < rest[0].start)
    ensures IsScript([e] + rest, n) && Fits([e] + rest, e.start, n)
  {
    var all := [e] + rest;
    HeadStartsFirst(rest, n);
    forall k | 0 <= k < |all|
      ensures e.start <= all[k].start <= all[k].end <= n && (all[k].start < all[k].end || all[k].replacement != [])
    {
      assert 0 < k ==> all[k] == rest[k - 1];
    }
    forall k, l | 0 <= k < l < |all|
      ensures all[k].end < all[l].start
    {
      assert all[l] == rest[l - 1] && (0 < k ==> all[k] == rest[k - 1]);
    }
  }

  lemma HeadStartsFirst(edits: seq<TokenEdit>, n: nat)
    requires IsScript(edits, n)
    ensures forall k :: 0 <= k < |edits| ==> edits[0].start <= edits[k].start
  {
    assert forall k :: 0 < k < |edits| ==> edits[0].end < edits[k].start;
  }

  lemma ScriptTail(edits: seq<TokenEdit>, n: nat)
    requires IsScript(edits, n) && edits != []
    ensures IsScript(edits[1..], n) && Fits(edits[1..], edits[0].end, n)
    ensures edits[1..] != [] ==> edits[0].end < edits[1..][0].start
  {
    var rest := edits[1..];
    assert forall k :: 0 <= k < |rest| ==> rest[k] == edits[k + 1];
  }

  lemma PrependFits(start: nat, end: nat, tokens: seq<Token>, edits: seq<TokenEdit>, n: nat)
    requires start <= end <= n && (start < end || tokens != [])
    requires IsScript(edits, n) && Fits(edits, end, n)
    ensures IsScript(Prepend(start, end, tokens, edits), n) && Fits(Prepend(start, end, tokens, edits), start, n)
  {
    if edits != [] && edits[0].start == end {
      ScriptTail(edits, n);
      ScriptCons(TokenEdit(start, edits[0].end, tokens + edits[0].replacement), edits[1..], n);
    } else {
      ScriptCons(TokenEdit(start, end, tokens), edits, n);
    }
  }

  lemma JoinApplies(base: seq<Token>, start: nat, tokens: seq<Token>, e: TokenEdit, rest: seq<TokenEdit>)
    requires start <= e.start <= e.end <= |base| && Fits([e] + rest, e.start, |base|)
    requires Fits([TokenEdit(start, e.end, tokens + e.replacement)] + rest, start, |base|)
    ensures Apply(base, [TokenEdit(start, e.end, tokens + e.replacement)] + rest, start)
        == tokens + Apply(base, [e] + rest, e.start)
    ensures Kept([TokenEdit(start, e.end, tokens + e.replacement)] + rest, start, |base|)
        == Kept([e] + rest, e.start, |base|)
  {
    hide Fits;
    ApplyCons(base, TokenEdit(start, e.end, tokens + e.replacement), rest, start);
    ApplyCons(base, e, rest, e.start);
    hide Apply, Kept;
    Regroup(base[start..start], base[e.start..e.start], tokens, e.replacement, Apply(base, rest, e.end));
  }

  lemma Regroup(none: seq<Token>, nothing: seq<Token>, a: seq<Token>, b: seq<Token>, c: seq<Token>)
    requires none == [] && nothing == []
    ensures none + (a + b) + c == a + (nothing + b + c)
  {
    assert none + (a + b) == a + b && nothing + b == b;
    assert a + (b + c) == a + b + c;
  }

  lemma PrependApplies(base: seq<Token>, start: nat, end: nat, tokens: seq<Token>, edits: seq<TokenEdit>)
    requires start <= end <= |base| && (start < end || tokens != [])
    requires IsScript(edits, |base|) && Fits(edits, end, |base|)
    ensures Fits(Prepend(start, end, tokens, edits), start, |base|)
    ensures Apply(base, Prepend(start, end, tokens, edits), start) == tokens + Apply(base, edits, end)
    ensures Kept(Prepend(start, end, tokens, edits), start, |base|) == Kept(edits, end, |base|)
  {
    PrependFits(start, end, tokens, edits, |base|);
    hide Fits, Apply, Kept, IsScript;
    if edits != [] && edits[0].start == end {
      var e, rest := edits[0], edits[1..];
      assert edits == [e] + rest;
      FitsHead(edits, end, |base|);
      JoinApplies(base, start, tokens, e, rest);
    } else {
      OpenApplies(base, TokenEdit(start, end, tokens), edits);
    }
  }

  lemma OpenApplies(base: seq<Token>, e: TokenEdit, rest: seq<TokenEdit>)
    requires e.start <= e.end <= |base| && Fits([e] + rest, e.start, |base|) && Fits(rest, e.end, |base|)
    ensures Apply(base, [e] + rest, e.start) == e.replacement + Apply(base, rest, e.end)
    ensures Kept([e] + rest, e.start, |base|) == Kept(rest, e.end, |base|)
  {
    ApplyCons(base, e, rest, e.start);
    hide Fits, Apply, Kept;
    assert base[e.start..e.start] + e.replacement == e.replacement;
  }

  lemma FitsHead(edits: seq<TokenEdit>, lo: nat, n: nat)
    requires Fits(edits, lo, n) && edits != []
    ensures lo <= edits[0].start <= edits[0].end <= n && Fits(edits, edits[0].start, n)
  {
    assert forall k :: 0 <= k < |edits| ==> edits[0].start <= edits[k].start;
  }

  lemma {:induction false} ScriptIsScript(base: seq<Token>, side: seq<Token>, i: nat, j: nat)
    requires i <= |base| && j <= |side|
    ensures IsScript(Script(base, side, i, j), |base|) && Fits(Script(base, side, i, j), i, |base|)
    decreases |base| - i + |side| - j
  {
    hide IsScript, Prepend, Lcs.Length;
    if i == |base| && j == |side| {
      NoEditsFit(i, |base|);
    } else if i < |base| && j < |side| && base[i] == side[j] {
      ScriptIsScript(base, side, i + 1, j + 1);
    } else if i < |base| && (j == |side| || Lcs.Length(base, side, i + 1, j) >= Lcs.Length(base, side, i, j + 1)) {
      ScriptIsScript(base, side, i + 1, j);
      PrependFits(i, i + 1, [], Script(base, side, i + 1, j), |base|);
    } else {
      ScriptIsScript(base, side, i, j + 1);
      PrependFits(i, i, [side[j]], Script(base, side, i, j + 1), |base|);
    }
  }

  lemma NoEditsFit(i: nat, n: nat)
    ensures IsScript([], n) && Fits([], i, n)
  {
  }

  lemma NothingLeft(base: seq<Token>, side: seq<Token>)
    ensures Script(base, side, |base|, |side|) == [] && Fits([], |base|, |base|)
    ensures Apply(base, [], |base|) == side[|side|..] && Kept([], |base|, |base|)
        == Lcs.Length(base, side, |base|, |side|)
  {
  }

  /** Applying the script rebuilds what is left of the side, and the kept tokens are
      a longest common subsequence of what is left of both. */
  lemma {:induction false} ScriptRebuilds(base: seq<Token>, side: seq<Token>, i: nat, j: nat)
    requires i <= |base| && j <= |side|
    ensures Fits(Script(base, side, i, j), i, |base|)
    ensures Apply(base, Script(base, side, i, j), i) == side[j..]
    ensures Kept(Script(base, side, i, j), i, |base|) == Lcs.Length(base, side, i, j)
    decreases |base| - i + |side| - j
  {
    hide IsScript, Fits, Prepend, Apply, Kept;
    ScriptIsScript(base, side, i, j);
    if i == |base| && j == |side| {
      NothingLeft(base, side);
    } else if i < |base| && j < |side| && base[i] == side[j] {
      ScriptRebuilds(base, side, i + 1, j + 1);
      ApplyShift(base, Script(base, side, i + 1, j + 1), i);
      assert [base[i]] + side[j + 1..] == side[j..];
    } else if i < |base| && (j == |side| || Lcs.Length(base, side, i + 1, j) >= Lcs.Length(base, side, i, j + 1)) {
      ScriptRebuilds(base, side, i + 1, j);
      ScriptIsScript(base, side, i + 1, j);
      PrependApplies(base, i, i + 1, [], Script(base, side, i + 1, j));
      assert [] + side[j..] == side[j..];
    } else {
      ScriptRebuilds(base, side, i, j + 1);
      ScriptIsScript(base, side, i, j + 1);
      PrependApplies(base, i, i, [side[j]], Script(base, side, i, j + 1));
      assert [side[j]] + side[j + 1..] == side[j..];
    }
  }

  /** The two recursive meanings, unfolded once. */
  lemma ApplyCons(base: seq<Token>, e: TokenEdit, rest: seq<TokenEdit>, pos: nat)
    requires pos <= |base| && Fits([e] + rest, pos, |base|)
    ensures pos <= e.start <= e.end <= |base| && Fits(rest, e.end, |base|)
    ensures Apply(base, [e] + rest, pos) == base[pos..e.start] + e.replacement + Apply(base, rest, e.end)
    ensures Kept([e] + rest, pos, |base|) == e.start - pos + Kept(rest, e.end, |base|)
  {
    var all := [e] + rest;
    assert all[0] == e && all[1..] == rest;
    assert forall k :: 0 <= k < |rest| ==> rest[k] == all[k + 1];
  }

  /** A token in front of the first edit is kept. */
  lemma ApplyShift(base: seq<Token>, edits: seq<TokenEdit>, pos: nat)
    requires pos < |base| && Fits(edits, pos + 1, |base|)
    ensures Fits(edits, pos, |base|)
    ensures Apply(base, edits, pos) == [base[pos]] + Apply(base, edits, pos + 1)
    ensures Kept(edits, pos, |base|) == 1 + Kept(edits, pos + 1, |base|)
  {
    if edits != [] {
      assert base[pos..edits[0].start] == [base[pos]] + base[pos + 1..edits[0].start];
    }
  }

  /** The computed list is a script and applying it to base gives side. */
  lemma EditScriptApplies(base: seq<Token>, side: seq<Token>)
    ensures IsScript(EditScript(base, side), |base|)
    ensures Apply(base, EditScript(base, side), 0) == side
    ensures Kept(EditScript(base, side), 0, |base|) == Lcs.Length(base, side, 0, 0)
  {
    ScriptIsScript(base, side, 0, 0);
    ScriptRebuilds(base, side, 0, 0);
  }

  lemma {:induction false} CommonRun(a: seq<Token>, b: seq<Token>, i: nat, j: nat, k: nat)
    requires i + k <= |a| && j + k <= |b| && a[i..i + k] == b[j..j + k]
    ensures Lcs.Length(a, b, i, j) == k + Lcs.Length(a, b, i + k, j + k)
    decreases k
  {
    if k > 0 {
      assert a[i] == a[i..i + k][0] && b[j] == b[j..j + k][0];
      assert a[i + 1..i + k] == a[i..i + k][1..] && b[j + 1..j + k] == b[j..j + k][1..];
      CommonRun(a, b, i + 1, j + 1, k - 1);
    }
  }

  /** Whatever edits turn base[pos..] into side[j..] keep at most a longest
      common subsequence of the two. */
  lemma {:induction false} KeptAtMostLength(base: seq<Token>, side: seq<Token>, edits: seq<TokenEdit>, pos: nat, j: nat)
    requires pos <= |base| && j <= |side| && Fits(edits, pos, |base|)
    requires Apply(base, edits, pos) == side[j..]
    ensures Kept(edits, pos, |base|) <= Lcs.Length(base, side, pos, j)
    decreases |edits|
  {
    hide Lcs.Length;
    if edits == [] {
      var k := |base| - pos;
      assert base[pos..pos + k] == side[j..j + k];
      CommonRun(base, side, pos, j, k);
    } else {
      var e := edits[0];
      var k := e.start - pos;
      var rest := Apply(base, edits[1..], e.end);
      var j' := j + k + |e.replacement|;
      assert side[j..][..k] == base[pos..e.start] && side[j..][k + |e.replacement|..] == rest;
      assert side[j..j + k] == base[pos..pos + k] && side[j'..] == rest;
      CommonRun(base, side, pos, j, k);
      Lcs.LengthMonotone(base, side, e.start, j + k, e.end, j');
      KeptAtMostLength(base, side, edits[1..], e.end, j');
    }
  }

  /** The computed script keeps at least as many base tokens as any other list of
      edits with the same effect, so it deletes and inserts as little as possible. */
  lemma EditScriptIsMinimal(base: seq<Token>, side: seq<Token>, other: seq<TokenEdit>)
    requires Fits(other, 0, |base|) && Apply(base, other, 0) == side
    ensures IsScript(EditScript(base, side), |base|)
    ensures Kept(other, 0, |base|) <= Kept(EditScript(base, side), 0, |base|)
  {
    EditScriptApplies(base, side);
    assert side[0..] == side;
    KeptAtMostLength(base, side, other, 0, 0);
  }

  /** The script is empty exactly when the side is the base. */
  lemma {:induction false} ScriptOfEqual(base: seq<Token>, i: nat)
    requires i <= |base|
    ensures Script(base, base, i, i) == []
    decreases |base| - i
  {
    if i < |base| {
      ScriptOfEqual(base, i + 1);
    }
  }
}
