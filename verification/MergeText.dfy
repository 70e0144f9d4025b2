/** `merge_token_text`: the merge of whole texts and its three early returns. */
module MergeText {
  import opened Wrappers
  import opened Text
  import opened Tokenizer
  import opened EditScripts
  import opened TokenMerge

  /** The merged token list on the general path, without the early returns. */
  ghost function MergedTokens(base: string, left: string, right: string, isWord: char -> bool): Option<seq<Token>> {
    var b, l, r := Tokens(base, isWord), Tokens(left, isWord), Tokens(right, isWord);
    EditScriptApplies(b, l);
    EditScriptApplies(b, r);
    Merged(b, EditScript(b, l), EditScript(b, r))
  }

  ghost function Merge(base: string, left: string, right: string, isWord: char -> bool): Option<string> {
    var tokens := MergedTokens(base, left, right, isWord);
    if tokens.Some? then Some(Concat(tokens.value)) else None
  }

  method MergeTokenText(base: string, left: string, right: string, isWord: char -> bool)
    returns (result: Option<string>)
    ensures result == Merge(base, left, right, isWord)
  {
    EarlyReturnsAgree(base, left, right, isWord);
    if left == right {
      return Some(left);
    }
    if left == base {
      return Some(right);
    }
    if right == base {
      return Some(left);
    }
    var b := LexicalTokens(base, isWord);
    var l := LexicalTokens(left, isWord);
    var r := LexicalTokens(right, isWord);
    var leftEdits := TokenEdits(b, l);
    var rightEdits := TokenEdits(b, r);
    EditScriptApplies(b, l);
    EditScriptApplies(b, r);
    var tokens := MergeTokenEdits(b, leftEdits, rightEdits);
    result := if tokens.Some? then Some(Concat(tokens.value)) else None;
  }

  lemma {:induction false} UnionOfSame(edits: seq<TokenEdit>)
    ensures Union(edits, edits) == edits
  {
    if edits != [] {
      UnionOfSame(edits[1..]);
    }
  }

  /** The early returns give what the general path would give. */
  lemma EarlyReturnsAgree(base: string, left: string, right: string, isWord: char -> bool)
    ensures left == right ==> Merge(base, left, right, isWord) == Some(left)
    ensures left == base ==> Merge(base, left, right, isWord) == Some(right)
    ensures right == base ==> Merge(base, left, right, isWord) == Some(left)
  {
    hide Apply, Union, EditScript, Tokens;
    if left == right {
      SameSides(base, left, isWord);
    }
    if left == base {
      OneSideUnchanged(base, right, isWord);
    }
    if right == base {
      OneSideUnchanged(base, left, isWord);
      MergeIsSymmetric(base, left, right, isWord);
    }
  }

  lemma SameSides(base: string, side: string, isWord: char -> bool)
    ensures Merge(base, side, side, isWord) == Some(side)
  {
    var b, t := Tokens(base, isWord), Tokens(side, isWord);
    EditScriptApplies(b, t);
    TokensAlternate(side, isWord);
    UnionOfSame(EditScript(b, t));
  }

  lemma OneSideUnchanged(base: string, side: string, isWord: char -> bool)
    ensures Merge(base, base, side, isWord) == Some(side)
  {
    var b, t := Tokens(base, isWord), Tokens(side, isWord);
    EditScriptApplies(b, t);
    TokensAlternate(side, isWord);
    ScriptOfEqual(b, 0);
    hide Script;
    assert Union([], EditScript(b, t)) == EditScript(b, t);
  }

  /** Swapping the two sides changes nothing. */
  lemma MergeIsSymmetric(base: string, left: string, right: string, isWord: char -> bool)
    ensures Merge(base, left, right, isWord) == Merge(base, right, left, isWord)
  {
    var b, l, r := Tokens(base, isWord), Tokens(left, isWord), Tokens(right, isWord);
    EditScriptApplies(b, l);
    EditScriptApplies(b, r);
    UnionIsSymmetric(EditScript(b, l), EditScript(b, r), |b|);
  }
}
