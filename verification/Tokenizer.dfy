/** The lexical tokens of the token merge: maximal runs of word characters and
    maximal runs of other characters. Which characters are word characters is a
    parameter (`char::is_alphanumeric` or an underscore in the program).
 */
module Tokenizer {
  import opened Text
  import opened Wrappers

  type Token = string

  ghost predicate Homogeneous(t: Token, isWord: char -> bool) {
    t != "" && forall k :: 0 <= k < |t| ==> isWord(t[k]) == isWord(t[0])
  }

  predicate Class(t: Token, isWord: char -> bool)
    requires t != ""
  {
    isWord(t[0])
  }

  /** Neighbouring tokens belong to different classes. */
  ghost predicate Alternates(tokens: seq<Token>, isWord: char -> bool) {
    && (forall k :: 0 <= k < |tokens| ==> Homogeneous(tokens[k], isWord))
    && (forall k :: 0 < k < |tokens| ==> Class(tokens[k - 1], isWord) != Class(tokens[k], isWord))
  }

  /** Length of the longest prefix whose characters all have class c. */
  function Run(text: string, c: bool, isWord: char -> bool): (n: nat)
    ensures n <= |text|
    ensures forall k :: 0 <= k < n ==> isWord(text[k]) == c
    ensures n < |text| ==> isWord(text[n]) != c
  {
    if text == "" || isWord(text[0]) != c then 0 else 1 + Run(text[1..], c, isWord)
  }

  function Tokens(text: string, isWord: char -> bool): seq<Token>
    decreases |text|
  {
    if text == "" then []
    else
      var n := Run(text, isWord(text[0]), isWord);
      [text[..n]] + Tokens(text[n..], isWord)
  }

  lemma AlternatesPrepend(t: Token, rest: seq<Token>, isWord: char -> bool)
    requires Homogeneous(t, isWord) && Alternates(rest, isWord)
    requires rest != [] ==> Class(rest[0], isWord) != Class(t, isWord)
    ensures Alternates([t] + rest, isWord)
  {
    var all := [t] + rest;
    assert forall k :: 1 <= k < |all| ==> all[k] == rest[k - 1];
  }

  /** The tokens of a text: they alternate, make up the text, and begin with it. */
  ghost predicate AreTokens(tokens: seq<Token>, text: string, isWord: char -> bool) {
    && Alternates(tokens, isWord) && Concat(tokens) == text
    && (text == "" <==> tokens == [])
    && (text != "" ==> tokens[0] != "" && tokens[0][0] == text[0])
  }

  lemma TokensFollow(t: Token, rest: seq<Token>, text: string, isWord: char -> bool)
    requires Homogeneous(t, isWord) && AreTokens(rest, text, isWord)
    requires text != "" ==> isWord(text[0]) != isWord(t[0])
    ensures AreTokens([t] + rest, t + text, isWord)
  {
    AlternatesPrepend(t, rest, isWord);
    ConcatCons(t, rest);
    hide Alternates, Homogeneous, Concat;
  }

  lemma {:induction false} TokensAlternate(text: string, isWord: char -> bool)
    ensures Alternates(Tokens(text, isWord), isWord)
    ensures Concat(Tokens(text, isWord)) == text
    ensures text != "" ==>
        Tokens(text, isWord) != [] && Tokens(text, isWord)[0] != "" && Tokens(text, isWord)[0][0] == text[0]
  {
    TokensAre(text, isWord);
    hide Alternates, Concat, Tokens;
  }

  lemma {:induction false} TokensAre(text: string, isWord: char -> bool)
    ensures AreTokens(Tokens(text, isWord), text, isWord)
    decreases |text|
  {
    if text != "" {
      hide AreTokens, Homogeneous, Tokens;
      var n := Run(text, isWord(text[0]), isWord);
      RunIsToken(text, isWord);
      TokensFirst(text, isWord);
      hide Run;
      TokensAre(text[n..], isWord);
      TokensFollow(text[..n], Tokens(text[n..], isWord), text[n..], isWord);
      assert text[..n] + text[n..] == text;
    }
  }

  lemma TokensFirst(text: string, isWord: char -> bool)
    requires text != ""
    ensures var n := Run(text, isWord(text[0]), isWord); Tokens(text, isWord) == [text[..n]] + Tokens(text[n..], isWord)
  {
  }

  lemma RunIsToken(text: string, isWord: char -> bool)
    requires text != ""
    ensures
      var n := Run(text, isWord(text[0]), isWord);
      && n > 0 && Homogeneous(text[..n], isWord) && text[..n][0] == text[0]
      && (text[n..] != "" ==> isWord(text[n..][0]) != isWord(text[0]))
  {
  }

  lemma ConcatCons(t: Token, rest: seq<Token>)
    ensures Concat([t] + rest) == t + Concat(rest)
  {
    assert ([t] + rest)[1..] == rest;
  }

  lemma RunOfToken(t: Token, rest: string, isWord: char -> bool)
    requires Homogeneous(t, isWord) && (rest != "" ==> isWord(rest[0]) != isWord(t[0]))
    ensures Run(t + rest, isWord(t[0]), isWord) == |t|
  {
    var n := Run(t + rest, isWord(t[0]), isWord);
    assert forall k :: 0 <= k < |t| ==> (t + rest)[k] == t[k];
    assert rest != "" ==> (t + rest)[|t|] == rest[0];
  }

  /** Alternating token lists are exactly the token lists of their own text: this
      is what "no two tokens are glued together" means. */
  lemma {:induction false} AlternatingIsTokens(tokens: seq<Token>, isWord: char -> bool)
    ensures Alternates(tokens, isWord) <==> Tokens(Concat(tokens), isWord) == tokens
  {
    TokensAlternate(Concat(tokens), isWord);
    if Alternates(tokens, isWord) && tokens != [] {
      var t, rest := tokens[0], tokens[1..];
      AlternatesRest(tokens, isWord);
      assert tokens == [t] + rest;
      hide Tokens, Alternates, Homogeneous;
      AlternatingIsTokens(rest, isWord);
      FirstToken(t, Concat(rest), isWord);
    }
  }

  lemma AlternatesRest(tokens: seq<Token>, isWord: char -> bool)
    requires Alternates(tokens, isWord) && tokens != []
    ensures Homogeneous(tokens[0], isWord) && Alternates(tokens[1..], isWord)
    ensures Concat(tokens[1..]) != "" ==> isWord(Concat(tokens[1..])[0]) != isWord(tokens[0][0])
  {
    var rest := tokens[1..];
    assert forall k :: 0 <= k < |rest| ==> rest[k] == tokens[k + 1];
    assert rest != [] ==> Concat(rest) == rest[0] + Concat(rest[1..]);
  }

  lemma FirstToken(t: Token, rest: string, isWord: char -> bool)
    requires Homogeneous(t, isWord) && (rest != "" ==> isWord(rest[0]) != isWord(t[0]))
    ensures Tokens(t + rest, isWord) == [t] + Tokens(rest, isWord)
  {
    RunOfToken(t, rest, isWord);
    var text := t + rest;
    assert text[..|t|] == t && text[|t|..] == rest && text[0] == t[0];
  }

  /** The loop invariant of `LexicalTokens` after it has read `done`. */
  ghost predicate Reading(tokens: seq<Token>, current: string, word: Option<bool>, done: string, isWord: char -> bool) {
    && Concat(tokens) + current == done
    && (word == None ==> tokens == [] && current == "")
    && (word.Some? ==>
        && Alternates(tokens, isWord) && Homogeneous(current, isWord) && Class(current, isWord) == word.value
        && (tokens != [] ==> Class(tokens[|tokens| - 1], isWord) != word.value))
  }

  lemma ReadingGrows(tokens: seq<Token>, current: string, word: Option<bool>, done: string, c: char,
                     isWord: char -> bool)
    requires Reading(tokens, current, word, done, isWord) && word == Some(isWord(c))
    ensures Reading(tokens, current + [c], word, done + [c], isWord)
  {
    assert Concat(tokens) + (current + [c]) == Concat(tokens) + current + [c];
  }

  lemma ReadingTurns(tokens: seq<Token>, current: string, word: Option<bool>, done: string, c: char,
                     isWord: char -> bool)
    requires Reading(tokens, current, word, done, isWord) && word != Some(isWord(c))
    ensures Reading(if current != "" then tokens + [current] else tokens, [c], Some(isWord(c)), done + [c], isWord)
  {
    if current != "" {
      ConcatOne(tokens, current);
    }
  }

  lemma ReadingEnds(tokens: seq<Token>, current: string, word: Option<bool>, done: string, isWord: char -> bool)
    requires Reading(tokens, current, word, done, isWord)
    ensures Tokens(done, isWord) == if current != "" then tokens + [current] else tokens
  {
    if current != "" {
      ConcatOne(tokens, current);
      AlternatingIsTokens(tokens + [current], isWord);
    }
  }

  method LexicalTokens(text: string, isWord: char -> bool) returns (tokens: seq<Token>)
    ensures tokens == Tokens(text, isWord)
  {
    tokens := [];
    var current := "";
    var word: Option<bool> := None;
    for i := 0 to |text|
      invariant Reading(tokens, current, word, text[..i], isWord)
    {
      var c := text[i];
      assert text[..i + 1] == text[..i] + [c];
      if word == Some(isWord(c)) {
        ReadingGrows(tokens, current, word, text[..i], c, isWord);
        current := current + [c];
      } else {
        ReadingTurns(tokens, current, word, text[..i], c, isWord);
        if current != "" {
          tokens := tokens + [current];
        }
        current := [c];
        word := Some(isWord(c));
      }
    }
    assert text[..|text|] == text;
    ReadingEnds(tokens, current, word, text, isWord);
    if current != "" {
      tokens := tokens + [current];
    }
  }
}
