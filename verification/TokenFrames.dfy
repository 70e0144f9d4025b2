/** Edits with the kept base tokens around them, and why edits of two sides, applied
    together, keep the tokens alternating.
 */
module TokenFrames {
  import opened Tokenizer
  import opened EditScripts
  import opened TokenMerge

  lemma AlternatesSlice(a: seq<Token>, i: nat, j: nat, isWord: char -> bool)
    requires i <= j <= |a| && Alternates(a, isWord)
    ensures Alternates(a[i..j], isWord)
  {
    var s := a[i..j];
    assert forall k :: 0 <= k < |s| ==> s[k] == a[i + k];
  }

  lemma AlternatesJoin(a: seq<Token>, b: seq<Token>, isWord: char -> bool)
    ensures Alternates(a + b, isWord) <==>
        && Alternates(a, isWord) && Alternates(b, isWord)
        && (a != [] && b != [] ==> Class(a[|a| - 1], isWord) != Class(b[0], isWord))
  {
    var all := a + b;
    assert all[..|a|] == a && all[|a|..] == b;
    if Alternates(all, isWord) {
      AlternatesSlice(all, 0, |a|, isWord);
      AlternatesSlice(all, |a|, |all|, isWord);
      assert a != [] && b != [] ==> all[|a| - 1] == a[|a| - 1] && all[|a|] == b[0];
    } else {
      assert forall k :: 0 <= k < |b| ==> all[|a| + k] == b[k];
    }
  }

  /** An edit together with the base tokens that stand directly around it. */
  ghost function Framed(base: seq<Token>, e: TokenEdit): seq<Token>
    requires e.start <= e.end <= |base|
  {
    (if e.start > 0 then [base[e.start - 1]] else [])
    + (e.replacement
       + if e.end < |base| then [base[e.end]] else [])
  }

  lemma FrameFacts(base: seq<Token>, e: TokenEdit, isWord: char -> bool)
    requires e.start <= e.end <= |base| && Alternates(base, isWord) && Alternates(Framed(base, e), isWord)
    ensures Alternates(e.replacement, isWord)
    ensures e.start > 0 && e.replacement != [] ==> Class(e.replacement[0], isWord) != Class(base[e.start - 1], isWord)
    ensures e.end < |base| && e.replacement != [] ==>
        Class(e.replacement[|e.replacement| - 1], isWord) != Class(base[e.end], isWord)
    ensures e.start > 0 && e.end < |base| && e.replacement == [] ==>
        Class(base[e.start - 1], isWord) != Class(base[e.end], isWord)
  {
    var before := if e.start > 0 then [base[e.start - 1]] else [];
    var after := if e.end < |base| then [base[e.end]] else [];
    AlternatesJoin(before, e.replacement + after, isWord);
    AlternatesJoin(e.replacement, after, isWord);
  }

  lemma ApplyKeepsFirst(base: seq<Token>, edits: seq<TokenEdit>, pos: nat)
    requires pos < |base| && Fits(edits, pos, |base|) && (edits != [] ==> pos < edits[0].start)
    ensures Apply(base, edits, pos) != [] && Apply(base, edits, pos)[0] == base[pos]
  {
  }

  ghost predicate AllFramed(base: seq<Token>, edits: seq<TokenEdit>, isWord: char -> bool)
    requires Fits(edits, 0, |base|)
  {
    forall k :: 0 <= k < |edits| ==> Alternates(Framed(base, edits[k]), isWord)
  }

  /** Where the frame of e lies in base[pos..e.start] + e.replacement + tail. */
  lemma FrameInSide(base: seq<Token>, e: TokenEdit, pos: nat, tail: seq<Token>)
    returns (front: seq<Token>, back: seq<Token>)
    requires pos <= e.start <= e.end <= |base| && (pos > 0 ==> pos < e.start)
    requires e.end < |base| ==> tail != [] && tail[0] == base[e.end]
    ensures base[pos..e.start] + e.replacement + tail == front + (Framed(base, e) + back)
  {
    var before, after: seq<Token>;
    if e.start > 0 {
      front, before := base[pos..e.start - 1], [base[e.start - 1]];
    } else {
      front, before := [], [];
    }
    if e.end < |base| {
      after, back := [base[e.end]], tail[1..];
    } else {
      after, back := [], tail;
    }
    assert front + before == base[pos..e.start] && after + back == tail;
    assert Framed(base, e) == before + (e.replacement + after);
    hide Framed;
    RegroupFrame(front, before, e.replacement, after, back);
  }

  lemma RegroupFrame(front: seq<Token>, before: seq<Token>, replacement: seq<Token>, after: seq<Token>,
                     back: seq<Token>)
    ensures (front + before) + replacement + (after + back) == front + (before + (replacement + after) + back)
  {
  }

  /** In its own side an edit stands between kept base tokens, so its frame is a
      stretch of the side. */
  lemma {:induction false} SideFramesEdits(base: seq<Token>, edits: seq<TokenEdit>, pos: nat, isWord: char -> bool)
    requires pos <= |base| && IsScript(edits, |base|) && Fits(edits, pos, |base|)
    requires pos > 0 && edits != [] ==> pos < edits[0].start
    requires Alternates(Apply(base, edits, pos), isWord)
    ensures AllFramed(base, edits, isWord)
    decreases |edits|
  {
    hide Apply, Alternates, Framed;
    if edits != [] {
      var e, rest := edits[0], edits[1..];
      assert edits == [e] + rest;
      ScriptTail(edits, |base|);
      FirstFramed(base, e, rest, pos, isWord);
      SideFramesEdits(base, rest, e.end, isWord);
    }
  }

  lemma FirstFramed(base: seq<Token>, e: TokenEdit, rest: seq<TokenEdit>, pos: nat, isWord: char -> bool)
    requires pos <= |base| && Fits([e] + rest, pos, |base|) && (pos > 0 ==> pos < e.start)
    requires pos <= e.start <= e.end <= |base| && Fits(rest, e.end, |base|) && (rest != [] ==> e.end < rest[0].start)
    requires Alternates(Apply(base, [e] + rest, pos), isWord)
    ensures Alternates(Framed(base, e), isWord) && Alternates(Apply(base, rest, e.end), isWord)
  {
    var side, tail := Apply(base, [e] + rest, pos), Apply(base, rest, e.end);
    ApplyCons(base, e, rest, pos);
    if e.end < |base| {
      ApplyKeepsFirst(base, rest, e.end);
    }
    hide Apply, Alternates, Framed, Fits;
    var front, back := FrameInSide(base, e, pos, tail);
    AlternatesJoin(front, Framed(base, e) + back, isWord);
    AlternatesJoin(Framed(base, e), back, isWord);
    AlternatesJoin(base[pos..e.start] + e.replacement, tail, isWord);
  }

  /** Only the last edit may rewrite a stretch that ends with the base. */
  ghost predicate TailLast(edits: seq<TokenEdit>, n: nat) {
    forall k :: 0 <= k < |edits| - 1 ==> !(edits[k].start < edits[k].end == n)
  }

  ghost predicate Follows(base: seq<Token>, pos: nat, tokens: seq<Token>, isWord: char -> bool)
    requires 0 < pos <= |base| && Alternates(base, isWord)
  {
    && Alternates(tokens, isWord)
    && (tokens != [] ==> Class(base[pos - 1], isWord) != Class(tokens[0], isWord))
  }

  lemma FollowsEdit(base: seq<Token>, e: TokenEdit, tail: seq<Token>, isWord: char -> bool)
    requires 0 < e.start <= e.end <= |base| && Alternates(base, isWord) && Alternates(Framed(base, e), isWord)
    requires Follows(base, e.end, tail, isWord) && (e.end == |base| ==> tail == [])
    ensures Follows(base, e.start, e.replacement + tail, isWord)
  {
    FrameFacts(base, e, isWord);
    AlternatesJoin(e.replacement, tail, isWord);
    assert e.end < |base| ==> Class(base[e.end - 1], isWord) != Class(base[e.end], isWord);
  }

  lemma FollowsKept(base: seq<Token>, pos: nat, start: nat, tail: seq<Token>, isWord: char -> bool)
    requires 0 < pos <= start <= |base| && Alternates(base, isWord) && Follows(base, start, tail, isWord)
    ensures Follows(base, pos, base[pos..start] + tail, isWord)
  {
    AlternatesSlice(base, pos, start, isWord);
    AlternatesJoin(base[pos..start], tail, isWord);
    assert base[pos..start] + [] == base[pos..start];
  }

  /** Framed edits compose: behind a kept token the merged tokens alternate on. */
  lemma {:induction false} FramedEditsCompose(base: seq<Token>, edits: seq<TokenEdit>, pos: nat, isWord: char -> bool)
    requires 0 < pos <= |base| && Fits(edits, pos, |base|) && Increasing(edits) && TailLast(edits, |base|)
    requires Alternates(base, isWord)
    requires Fits(edits, 0, |base|) && AllFramed(base, edits, isWord)
    ensures Follows(base, pos, Apply(base, edits, pos), isWord)
    decreases |edits|
  {
    hide Follows, TailLast, Increasing, AllFramed, Alternates, Fits;
    if edits == [] {
      FollowsNothing(base, isWord);
      FollowsKept(base, pos, |base|, [], isWord);
      assert base[pos..|base|] + [] == base[pos..];
    } else {
      var e, rest := edits[0], edits[1..];
      assert edits == [e] + rest;
      ApplyCons(base, e, rest, pos);
      RestFacts(base, edits, isWord);
      FramedEditsCompose(base, rest, e.end, isWord);
      ComposeStep(base, e, Apply(base, rest, e.end), pos, isWord);
    }
  }

  lemma ComposeStep(base: seq<Token>, e: TokenEdit, tail: seq<Token>, pos: nat, isWord: char -> bool)
    requires 0 < pos <= e.start <= e.end <= |base| && Alternates(base, isWord) && Alternates(Framed(base, e), isWord)
    requires Follows(base, e.end, tail, isWord) && (e.end == |base| ==> tail == [])
    ensures Follows(base, pos, base[pos..e.start] + e.replacement + tail, isWord)
  {
    hide Follows, Alternates;
    FollowsEdit(base, e, tail, isWord);
    FollowsKept(base, pos, e.start, e.replacement + tail, isWord);
    assert base[pos..e.start] + e.replacement + tail == base[pos..e.start] + (e.replacement + tail);
  }

  lemma FollowsNothing(base: seq<Token>, isWord: char -> bool)
    requires base != [] && Alternates(base, isWord)
    ensures Follows(base, |base|, [], isWord)
  {
  }

  lemma RestFacts(base: seq<Token>, edits: seq<TokenEdit>, isWord: char -> bool)
    requires Fits(edits, 0, |base|) && Increasing(edits) && TailLast(edits, |base|) && AllFramed(base, edits, isWord)
    requires edits != []
    ensures
      var rest := edits[1..];
      && Fits(rest, edits[0].end, |base|) && Fits(rest, 0, |base|) && Increasing(rest) && TailLast(rest, |base|)
      && AllFramed(base, rest, isWord)
    ensures Alternates(Framed(base, edits[0]), isWord)
    ensures edits[0].end == |base| ==> edits[1..] == []
  {
    var rest := edits[1..];
    assert forall k :: 0 <= k < |rest| ==> rest[k] == edits[k + 1];
    assert rest != [] ==> edits[0].start < rest[0].start <= rest[0].end;
  }

  /** The same from the beginning of the base, where nothing constrains the first token. */
  lemma FramedEditsAlternate(base: seq<Token>, edits: seq<TokenEdit>, isWord: char -> bool)
    requires Fits(edits, 0, |base|) && Increasing(edits) && TailLast(edits, |base|)
    requires Alternates(base, isWord) && AllFramed(base, edits, isWord)
    ensures Alternates(Apply(base, edits, 0), isWord)
    decreases |edits|, 1
  {
    if edits == [] {
      assert base[0..] == base;
    } else {
      var e, rest := edits[0], edits[1..];
      assert edits == [e] + rest;
      ApplyCons(base, e, rest, 0);
      RestFacts(base, edits, isWord);
      FrameFacts(base, e, isWord);
      if e.end > 0 {
        FramedEditsCompose(base, rest, e.end, isWord);
      }
      hide TailLast, Increasing, AllFramed;
      var tail := Apply(base, rest, e.end);
      if e.start > 0 {
        ComposeFromStart(base, e, tail, isWord);
      } else if e.end > 0 {
        InsteadOfStart(base, e, tail, isWord);
      } else {
        InsertAtStart(base, e, rest, isWord);
      }
    }
  }

  lemma ComposeFromStart(base: seq<Token>, e: TokenEdit, tail: seq<Token>, isWord: char -> bool)
    requires 0 < e.start <= e.end <= |base| && Alternates(base, isWord) && Alternates(Framed(base, e), isWord)
    requires Follows(base, e.end, tail, isWord) && (e.end == |base| ==> tail == [])
    ensures Alternates(base[0..e.start] + e.replacement + tail, isWord)
  {
    FollowsEdit(base, e, tail, isWord);
    AlternatesSlice(base, 0, e.start, isWord);
    AlternatesJoin(base[0..e.start], e.replacement + tail, isWord);
    assert base[0..e.start] + e.replacement + tail == base[0..e.start] + (e.replacement + tail);
  }

  lemma InsteadOfStart(base: seq<Token>, e: TokenEdit, tail: seq<Token>, isWord: char -> bool)
    requires 0 == e.start < e.end <= |base| && Alternates(base, isWord) && Alternates(Framed(base, e), isWord)
    requires Follows(base, e.end, tail, isWord) && (e.end == |base| ==> tail == [])
    ensures Alternates(base[0..e.start] + e.replacement + tail, isWord)
  {
    FrameFacts(base, e, isWord);
    AlternatesJoin(e.replacement, tail, isWord);
    assert e.end < |base| ==> Class(base[e.end - 1], isWord) != Class(base[e.end], isWord);
    assert base[0..e.start] + e.replacement + tail == e.replacement + tail;
  }

  lemma InsertAtStart(base: seq<Token>, e: TokenEdit, rest: seq<TokenEdit>, isWord: char -> bool)
    requires 0 == e.start == e.end && Fits([e] + rest, 0, |base|) && Increasing([e] + rest)
        && TailLast([e] + rest, |base|)
    requires Alternates(base, isWord) && AllFramed(base, [e] + rest, isWord)
    requires Fits(rest, 0, |base|)
    ensures Alternates(base[0..e.start] + e.replacement + Apply(base, rest, 0), isWord)
    decreases |rest| + 1, 0
  {
    var edits := [e] + rest;
    assert edits[0] == e && edits[1..] == rest;
    RestFacts(base, edits, isWord);
    FrameFacts(base, e, isWord);
    assert rest != [] ==> edits[1].start > 0;
    FramedEditsAlternate(base, rest, isWord);
    if base != [] {
      ApplyKeepsFirst(base, rest, 0);
    }
    InsertInFront(base, e, Apply(base, rest, 0), isWord);
  }

  lemma InsertInFront(base: seq<Token>, e: TokenEdit, tail: seq<Token>, isWord: char -> bool)
    requires 0 == e.start == e.end && Alternates(e.replacement, isWord) && Alternates(tail, isWord)
    requires if base == [] then tail == [] else tail != [] && tail[0] == base[0]
    requires base != [] && e.replacement != [] && base[0] != "" ==>
        Class(e.replacement[|e.replacement| - 1], isWord) != Class(base[0], isWord)
    ensures Alternates(base[0..e.start] + e.replacement + tail, isWord)
  {
    AlternatesJoin(e.replacement, tail, isWord);
    assert base[0..e.start] + e.replacement + tail == e.replacement + tail;
  }
}
