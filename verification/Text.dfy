/** Concatenation of pieces of text, the cut of a text into lines that
    `split_inclusive('\n')` makes, and the search for a piece of text. */
module Text {
  import opened Wrappers

  function Concat(pieces: seq<string>): string {
    if pieces == [] then "" else pieces[0] + Concat(pieces[1..])
  }

  lemma {:induction false} ConcatAppend(a: seq<string>, b: seq<string>)
    ensures Concat(a + b) == Concat(a) + Concat(b)
  {
    if a == [] {
      assert a + b == b;
    } else {
      assert (a + b)[1..] == a[1..] + b;
      ConcatAppend(a[1..], b);
    }
  }

  lemma ConcatOne(a: seq<string>, s: string)
    ensures Concat(a + [s]) == Concat(a) + s
  {
    ConcatAppend(a, [s]);
    assert Concat([s]) == s + Concat([]) == s;
  }

  /** Where the first line of a non-empty text ends: after the first line feed, or
      at the end of the text. */
  function LineEnd(content: string): (n: nat)
    requires content != ""
    ensures 0 < n <= |content|
    ensures forall k :: 0 <= k < n - 1 ==> content[k] != '\n'
    ensures n < |content| ==> content[n - 1] == '\n'
  {
    if content[0] == '\n' || |content| == 1 then 1 else 1 + LineEnd(content[1..])
  }

  function SplitLines(content: string): seq<string> {
    if content == "" then [] else [content[..LineEnd(content)]] + SplitLines(content[LineEnd(content)..])
  }

  /** Splitting loses nothing, so two texts with the same lines are the same text. */
  lemma {:induction false} JoinSplit(content: string)
    ensures Concat(SplitLines(content)) == content
    ensures content != "" <==> SplitLines(content) != []
    ensures forall k :: 0 <= k < |SplitLines(content)| ==> SplitLines(content)[k] != ""
    decreases |content|
  {
    if content != "" {
      var n := LineEnd(content);
      JoinSplit(content[n..]);
      assert content[..n] + content[n..] == content;
      var all, rest := SplitLines(content), SplitLines(content[n..]);
      assert all[1..] == rest;
      assert forall k :: 1 <= k < |all| ==> all[k] == rest[k - 1];
    }
  }

  lemma SplitFirst(line: string, rest: string)
    requires line != "" && line[|line| - 1] == '\n' && forall k :: 0 <= k < |line| - 1 ==> line[k] != '\n'
    ensures SplitLines(line + rest) == [line] + SplitLines(rest)
  {
    var content := line + rest;
    var n := LineEnd(content);
    assert content[|line| - 1] == '\n' && forall k :: 0 <= k < |line| - 1 ==> content[k] != '\n';
    assert n == |line|;
    assert content[..n] == line && content[n..] == rest;
  }

  lemma SameLinesSameText(s: string, t: string)
    requires SplitLines(s) == SplitLines(t)
    ensures s == t
  {
    JoinSplit(s);
    JoinSplit(t);
  }

  // ----- searching -----

  predicate StartsWith(s: string, prefix: string) {
    |prefix| <= |s| && s[..|prefix|] == prefix
  }

  predicate EndsWith(s: string, suffix: string) {
    |suffix| <= |s| && s[|s| - |suffix|..] == suffix
  }

  /** `str::find`: the first occurrence of a pattern. */
  function Find(s: string, pattern: string): (r: Option<nat>)
    ensures r.Some? ==> r.value + |pattern| <= |s| && StartsWith(s[r.value..], pattern)
  {
    if StartsWith(s, pattern) then Some(0)
    else if s == "" then None
    else match Find(s[1..], pattern)
      case None => None
      case Some(i) => Some(i + 1)
  }

  /** The pattern occurs nowhere in front of the place that is found. */
  lemma {:induction false} FindIsFirst(s: string, pattern: string, q: nat)
    requires q <= |s| && (Find(s, pattern).Some? ==> q < Find(s, pattern).value)
    ensures !StartsWith(s[q..], pattern)
  {
    if q > 0 {
      FindIsFirst(s[1..], pattern, q - 1);
      assert s[1..][q - 1..] == s[q..];
    } else {
      assert s[0..] == s;
    }
  }
}
