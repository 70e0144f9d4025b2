/** The shell quoting of hook commands: the quoting, the reader that takes it apart, and
    the path that is read back out of an installed hook.
 */
module ShellQuoting {
  import opened Wrappers
  import opened Text

  const ESCAPED_QUOTE := "'\\''"
  const REOPEN := "\\''"
  const MARKER := "# orkia hook"
  const TEST := "[ -x "

  /** Every quote replaced by close, escaped quote, open. */
  function Escaped(text: string): string {
    if text == "" then "" else (if text[0] == '\'' then ESCAPED_QUOTE else [text[0]]) + Escaped(text[1..])
  }

  function Quoted(text: string): string {
    "'" + (Escaped(text) + "'")
  }

  function Command(executable: string, args: string): string {
    var exe := Quoted(executable);
    "sh -c " + Quoted(TEST + (exe + " ] || exit 0; exec " + exe + " " + args + " " + MARKER))
  }

  // ----- the reader -----

  type Reading = Option<(string, string)>

  function Prepend(word: string, reading: Reading): Reading {
    match reading
    case None => None
    case Some((more, rest)) => Some((word + more, rest))
  }

  /** The rest of a word whose quote is open, and what follows it. */
  function ReadOpen(text: string): Reading
    decreases |text|
  {
    match Find(text, "'")
    case None => None
    case Some(end) =>
      var rest := text[end + 1..];
      if StartsWith(rest, REOPEN) then Prepend(text[..end] + "'", ReadOpen(rest[3..])) else Some((text[..end], rest))
  }

  function Unquoted(text: string): Reading {
    if StartsWith(text, "'") then ReadOpen(text[1..]) else None
  }

  method ReadWord(text: string) returns (result: Reading)
    ensures result == Unquoted(text)
  {
    if !StartsWith(text, "'") {
      return None;
    }
    var rest := text[1..];
    var word := "";
    NothingPrepended(ReadOpen(rest));
    while true
      invariant Unquoted(text) == Prepend(word, ReadOpen(rest))
      decreases |rest|
    {
      var end := Find(rest, "'");
      if end.None? {
        return None;
      }
      ghost var was := rest;
      ghost var before := word;
      word := word + rest[..end.value];
      rest := rest[end.value + 1..];
      if !StartsWith(rest, REOPEN) {
        return Some((word, rest));
      }
      word := word + "'";
      rest := rest[3..];
      PrependTwice(before, was[..end.value] + "'", ReadOpen(rest));
      assert word == before + (was[..end.value] + "'");
    }
  }

  lemma NothingPrepended(reading: Reading)
    ensures Prepend("", reading) == reading
  {
    if reading.Some? {
      assert "" + reading.value.0 == reading.value.0;
    }
  }

  lemma PrependTwice(a: string, b: string, reading: Reading)
    ensures Prepend(a, Prepend(b, reading)) == Prepend(a + b, reading)
  {
    if reading.Some? {
      assert a + (b + reading.value.0) == a + b + reading.value.0;
    }
  }

  /** The piece after the first test, up to the second. */
  function SecondPiece(text: string): Option<string> {
    match Find(text, TEST)
    case None => None
    case Some(i) => Some(FirstPiece(text[i + |TEST|..]))
  }

  function FirstPiece(text: string): string {
    match Find(text, TEST)
    case None => text
    case Some(j) => text[..j]
  }

  function GuardedPath(command: string): Option<string> {
    if !StartsWith(command, "sh -c ") then None
    else match Unquoted(command[6..])
      case None => None
      case Some((script, _)) =>
        match SecondPiece(script)
        case None => None
        case Some(piece) =>
          match Unquoted(piece)
          case None => None
          case Some((path, _)) => Some(path)
  }

  // ----- the round trip -----

  lemma SkipPlain(c: char, text: string)
    requires c != '\''
    ensures Find([c] + text, "'") == match Find(text, "'") case None => None case Some(end) => Some(end + 1)
  {
    assert ([c] + text)[1..] == text && !StartsWith([c] + text, "'");
  }

  lemma PlainStep(c: char, text: string)
    requires c != '\''
    ensures ReadOpen([c] + text) == Prepend([c], ReadOpen(text))
  {
    var all := [c] + text;
    SkipPlain(c, text);
    hide Find, StartsWith;
    match Find(text, "'")
    case None =>
    case Some(end) =>
      assert all[..end + 1] == [c] + text[..end] && all[end + 2..] == text[end + 1..];
      var rest := text[end + 1..];
      if StartsWith(rest, REOPEN) {
        PrependTwice([c], text[..end] + "'", ReadOpen(rest[3..]));
        assert [c] + (text[..end] + "'") == [c] + text[..end] + "'";
      }
  }

  lemma QuoteStep(text: string)
    ensures ReadOpen(ESCAPED_QUOTE + text) == Prepend("'", ReadOpen(text))
  {
    var all := ESCAPED_QUOTE + text;
    assert StartsWith(all, "'") && Find(all, "'") == Some(0);
    assert all[1..] == REOPEN + text && (REOPEN + text)[3..] == text;
    assert all[..0] + "'" == "'";
  }

  /** Reading past escaped text gives back the text. */
  lemma {:induction false} ReadEscaped(text: string, rest: string)
    ensures ReadOpen(Escaped(text) + rest) == Prepend(text, ReadOpen(rest))
    decreases |text|
  {
    if text == "" {
      assert Escaped(text) + rest == rest;
      NothingPrepended(ReadOpen(rest));
    } else {
      hide ReadOpen, Prepend, Escaped;
      var more := Escaped(text[1..]) + rest;
      ReadEscaped(text[1..], rest);
      assert text == [text[0]] + text[1..];
      PrependTwice([text[0]], text[1..], ReadOpen(rest));
      EscapedFirst(text, rest);
      if text[0] == '\'' {
        QuoteStep(more);
      } else {
        PlainStep(text[0], more);
      }
    }
  }

  lemma EscapedFirst(text: string, rest: string)
    requires text != ""
    ensures Escaped(text) + rest == (if text[0] == '\'' then ESCAPED_QUOTE else [text[0]]) + (Escaped(text[1..]) + rest)
    ensures |Escaped(text)| == (if text[0] == '\'' then 4 else 1) + |Escaped(text[1..])|
  {
    JoinThree(if text[0] == '\'' then ESCAPED_QUOTE else [text[0]], Escaped(text[1..]), rest);
  }

  lemma JoinThree(a: string, b: string, c: string)
    ensures a + b + c == a + (b + c)
  {
  }

  /** A quoted word reads back, with what follows it, unless what follows would reopen it. */
  lemma QuotedRoundTrip(text: string, rest: string)
    ensures Unquoted(Quoted(text) + rest) == Some((text, rest)) <==> !StartsWith(rest, REOPEN)
  {
    var all := Quoted(text) + rest;
    assert all[1..] == Escaped(text) + ("'" + rest);
    ReadEscaped(text, "'" + rest);
    assert Find("'" + rest, "'") == Some(0) && ("'" + rest)[1..] == rest;
    assert ("'" + rest)[..0] + "'" == "'";
    hide ReadOpen;
    ClosedQuote(rest);
    assert text + "" == text;
  }

  lemma ClosedQuote(rest: string)
    ensures !StartsWith(rest, REOPEN) ==> ReadOpen("'" + rest) == Some(("", rest))
    ensures StartsWith(rest, REOPEN) && ReadOpen("'" + rest).Some? ==> ReadOpen("'" + rest).value.0 != ""
  {
    assert Find("'" + rest, "'") == Some(0) && ("'" + rest)[1..] == rest && ("'" + rest)[..0] == "";
  }

  // ----- the path of a hook -----

  ghost predicate Quoteless(pattern: string) {
    forall i :: 0 <= i < |pattern| ==> pattern[i] != '\''
  }

  lemma StartsWithStep(c: char, text: string, pattern: string)
    requires pattern != ""
    ensures StartsWith([c] + text, pattern) <==> c == pattern[0] && StartsWith(text, pattern[1..])
  {
    assert pattern == [pattern[0]] + pattern[1..];
    if |pattern| <= |text| + 1 {
      assert ([c] + text)[..|pattern|] == [c] + text[..|pattern| - 1];
      assert ([c] + text[..|pattern| - 1])[1..] == text[..|pattern| - 1];
    }
  }

  /** Escaping neither makes nor hides a beginning without quotes. */
  lemma {:induction false} EscapedStart(text: string, tail: string, pattern: string)
    requires Quoteless(pattern) && tail != "" && tail[0] == '\''
    ensures StartsWith(Escaped(text) + tail, pattern) <==> StartsWith(text, pattern)
    decreases |pattern|
  {
    if pattern != "" {
      if text == "" {
        assert Escaped(text) + tail == tail;
        assert tail == [tail[0]] + tail[1..];
        StartsWithStep(tail[0], tail[1..], pattern);
      } else {
        var u := text[1..];
        assert text == [text[0]] + u;
        StartsWithStep(text[0], u, pattern);
        if text[0] == '\'' {
          assert Escaped(text) + tail == ['\''] + (REOPEN + (Escaped(u) + tail));
          StartsWithStep('\'', REOPEN + (Escaped(u) + tail), pattern);
        } else {
          assert Escaped(text) + tail == [text[0]] + (Escaped(u) + tail);
          StartsWithStep(text[0], Escaped(u) + tail, pattern);
          EscapedStart(u, tail, pattern[1..]);
        }
      }
    }
  }

  function Shift(n: nat, r: Option<nat>): Option<nat> {
    match r
    case None => None
    case Some(i) => Some(i + n)
  }

  lemma SkipCharacter(c: char, text: string)
    requires c != '[' || !StartsWith([c] + text, TEST)
    ensures Find([c] + text, TEST) == Shift(1, Find(text, TEST))
  {
    StartsWithStep(c, text, TEST);
    assert ([c] + text)[1..] == text;
  }

  lemma SkipQuotes(more: string)
    ensures Find(ESCAPED_QUOTE + more, TEST) == Shift(4, Find(more, TEST))
  {
    hide StartsWith, Find;
    SkipCharacter('\'', more);
    SkipCharacter('\'', ['\''] + more);
    SkipCharacter('\\', ['\''] + (['\''] + more));
    SkipCharacter('\'', ['\\'] + (['\''] + (['\''] + more)));
    assert ESCAPED_QUOTE + more == ['\''] + (['\\'] + (['\''] + (['\''] + more)));
  }

  lemma ShiftTwice(m: nat, n: nat, r: Option<nat>)
    ensures Shift(m, Shift(n, r)) == Shift(m + n, r)
  {
  }

  /** How far escaping moves an occurrence. */
  function Moved(text: string, r: Option<nat>): Option<nat>
    requires r.Some? ==> r.value <= |text|
  {
    match r
    case None => None
    case Some(p) => Some(|Escaped(text[..p])|)
  }

  lemma MovedStep(text: string, r: Option<nat>)
    requires text != "" && (r.Some? ==> r.value < |text|)
    ensures Moved(text, Shift(1, r)) == Shift(if text[0] == '\'' then 4 else 1, Moved(text[1..], r))
  {
    if r.Some? {
      assert text[..r.value + 1][1..] == text[1..][..r.value];
    }
  }

  lemma FindAtStart(text: string)
    requires StartsWith(text, TEST)
    ensures Find(text, TEST) == Some(0)
  {
  }

  lemma EscapedEmpty(tail: string)
    ensures Escaped("") == "" && Escaped("") + tail == tail && Find("", TEST) == None
  {
  }

  lemma ShiftNothing(r: Option<nat>)
    ensures Shift(0, r) == r
  {
  }

  /** Where the test first occurs in escaped text that is followed by a quote. */
  lemma {:induction false} FindEscaped(text: string, tail: string)
    requires tail != "" && tail[0] == '\''
    ensures Find(text, TEST).Some? ==> Find(Escaped(text) + tail, TEST) == Moved(text, Find(text, TEST))
    ensures Find(text, TEST).None? ==> Find(Escaped(text) + tail, TEST) == Shift(|Escaped(text)|, Find(tail, TEST))
    decreases |text|
  {
    EscapedStart(text, tail, TEST);
    EscapedEmpty(tail);
    hide Find, StartsWith, Escaped, Moved, Shift;
    if StartsWith(text, TEST) {
      FindAtStart(text);
      FindAtStart(Escaped(text) + tail);
      MovedNothing(text);
    } else if text == "" {
      ShiftNothing(Find(tail, TEST));
    } else {
      FindEscaped(text[1..], tail);
      FindEscapedStep(text, tail);
    }
  }

  lemma FindEscapedStep(text: string, tail: string)
    requires text != "" && !StartsWith(text, TEST) && !StartsWith(Escaped(text) + tail, TEST)
    requires
      var u := text[1..];
      && (Find(u, TEST).Some? ==> Find(Escaped(u) + tail, TEST) == Moved(u, Find(u, TEST)))
      && (Find(u, TEST).None? ==> Find(Escaped(u) + tail, TEST) == Shift(|Escaped(u)|, Find(tail, TEST)))
    ensures Find(text, TEST).Some? ==> Find(Escaped(text) + tail, TEST) == Moved(text, Find(text, TEST))
    ensures Find(text, TEST).None? ==> Find(Escaped(text) + tail, TEST) == Shift(|Escaped(text)|, Find(tail, TEST))
  {
    hide Find, StartsWith, Escaped, Moved, Shift;
    var u := text[1..];
    EscapedStep(text, tail);
    SkipFirst(text);
    ShiftTwice(if text[0] == '\'' then 4 else 1, |Escaped(u)|, Find(tail, TEST));
    ShiftKeeps(1, Find(u, TEST));
    if Find(u, TEST).Some? {
      MovedStep(text, Find(u, TEST));
    }
  }

  lemma SkipFirst(text: string)
    requires text != "" && !StartsWith(text, TEST)
    ensures Find(text, TEST) == Shift(1, Find(text[1..], TEST))
  {
    assert text == [text[0]] + text[1..];
    SkipCharacter(text[0], text[1..]);
  }

  lemma MovedNothing(text: string)
    ensures Moved(text, Some(0)) == Some(0)
  {
    assert text[..0] == "";
  }

  lemma ShiftKeeps(n: nat, r: Option<nat>)
    ensures Shift(n, r).Some? <==> r.Some?
  {
  }

  lemma EscapedStep(text: string, tail: string)
    requires text != "" && !StartsWith(Escaped(text) + tail, TEST)
    ensures
      var n := if text[0] == '\'' then 4 else 1;
      && Find(Escaped(text) + tail, TEST) == Shift(n, Find(Escaped(text[1..]) + tail, TEST))
      && |Escaped(text)| == n + |Escaped(text[1..])|
  {
    var more := Escaped(text[1..]) + tail;
    EscapedFirst(text, tail);
    hide Escaped;
    if text[0] == '\'' {
      SkipQuotes(more);
    } else {
      SkipCharacter(text[0], more);
    }
  }

  lemma {:induction false} EscapedConcat(a: string, b: string)
    ensures Escaped(a + b) == Escaped(a) + Escaped(b)
    decreases |a|
  {
    if a == "" {
      assert a + b == b;
    } else {
      assert (a + b)[1..] == a[1..] + b;
      EscapedConcat(a[1..], b);
    }
  }

  lemma QuotedParts(executable: string, tail: string)
    ensures Quoted(executable) + tail == ['\''] + (Escaped(executable) + (['\''] + tail))
    ensures |Quoted(executable)| == |Escaped(executable)| + 2
  {
    hide Escaped;
  }

  lemma FindQuoted(executable: string, tail: string)
    ensures Find(executable, TEST).Some? ==>
      Find(Quoted(executable) + tail, TEST) == Shift(1, Moved(executable, Find(executable, TEST)))
    ensures Find(executable, TEST).None? ==>
      Find(Quoted(executable) + tail, TEST) == Shift(|Quoted(executable)|, Find(tail, TEST))
  {
    hide Find, Escaped, Moved, StartsWith, Quoted, Shift;
    QuotedParts(executable, tail);
    FindEscaped(executable, ['\''] + tail);
    SkipCharacter('\'', Escaped(executable) + (['\''] + tail));
    SkipCharacter('\'', tail);
    ShiftTwice(|Escaped(executable)|, 1, Find(tail, TEST));
    ShiftTwice(1, |Escaped(executable)| + 1, Find(tail, TEST));
  }

  lemma PieceCut(executable: string, tail: string)
    requires Find(executable, TEST).Some?
    ensures Unquoted(FirstPiece(Quoted(executable) + tail)).None?
  {
    hide Find, Quoted, Unquoted, StartsWith, Escaped;
    FindQuoted(executable, tail);
    QuotedParts(executable, tail);
    CutInside(executable, Find(executable, TEST).value, ['\''] + tail);
  }

  lemma TakeBoth(a: string, b: string, n: nat)
    requires n <= |b|
    ensures (a + b)[..|a| + n] == a + b[..n]
  {
  }

  lemma PieceWhole(executable: string, tail: string)
    requires tail != "" && tail[0] == ' ' && Find(executable, TEST).None?
    ensures
      var reading := Unquoted(FirstPiece(Quoted(executable) + tail));
      reading.Some? && reading.value.0 == executable
  {
    hide Find, Quoted, Unquoted, Escaped;
    NoTestAtSpace(tail);
    FindQuoted(executable, tail);
    match Find(tail, TEST)
    case None =>
      QuotedRoundTrip(executable, tail);
    case Some(q) =>
      TakeBoth(Quoted(executable), tail, q);
      QuotedRoundTrip(executable, tail[..q]);
  }

  lemma NoTestAtSpace(tail: string)
    requires tail != "" && tail[0] == ' '
    ensures Find(tail, TEST).Some? ==> 0 < Find(tail, TEST).value <= |tail|
  {
  }

  /** A quote that is cut off before it closes does not read. */
  lemma CutInside(text: string, p: nat, closing: string)
    requires p <= |text|
    ensures
      var n := |Escaped(text[..p])|;
      n + 1 <= |['\''] + (Escaped(text) + closing)| && Unquoted((['\''] + (Escaped(text) + closing))[..n + 1]).None?
  {
    var prefix := Escaped(text[..p]);
    assert text == text[..p] + text[p..];
    EscapedConcat(text[..p], text[p..]);
    var piece := (['\''] + (Escaped(text) + closing))[..|prefix| + 1];
    assert piece == ['\''] + prefix;
    assert piece[1..] == prefix + "";
    ReadEscaped(text[..p], "");
  }

  lemma SecondOfScript(rest: string)
    ensures SecondPiece(TEST + rest) == Some(FirstPiece(rest))
  {
    var script := TEST + rest;
    assert script[..5] == TEST && script[5..] == rest;
    assert Find(script, TEST) == Some(0);
  }

  lemma CommandReads(script: string)
    ensures StartsWith("sh -c " + Quoted(script), "sh -c ")
    ensures Unquoted(("sh -c " + Quoted(script))[6..]) == Some((script, ""))
  {
    var all := "sh -c " + Quoted(script);
    assert all[..6] == "sh -c " && all[6..] == Quoted(script) + "";
    QuotedRoundTrip(script, "");
  }

  /** The path that an installed hook was made with reads back from it exactly when the
      path does not contain the test of the hook script; otherwise nothing reads back. */
  lemma GuardedPathIff(executable: string, args: string)
    ensures GuardedPath(Command(executable, args))
         == if Find(executable, TEST).Some? then None else Some(executable)
  {
    var exe := Quoted(executable);
    var tail := " ] || exit 0; exec " + exe + " " + args + " " + MARKER;
    assert exe + " ] || exit 0; exec " + exe + " " + args + " " + MARKER == exe + tail;
    hide Find, Unquoted, Quoted, FirstPiece, SecondPiece, StartsWith;
    CommandReads(TEST + (exe + tail));
    SecondOfScript(exe + tail);
    if Find(executable, TEST).Some? {
      PieceCut(executable, tail);
    } else {
      PieceWhole(executable, tail);
    }
  }

  /** The quoted executable is read as a word in front of what does not reopen it. */
  lemma WordReads(start: string, executable: string, rest: string)
    requires !StartsWith(rest, REOPEN)
    ensures StartsWith(start + (Quoted(executable) + rest), start)
    ensures Unquoted((start + (Quoted(executable) + rest))[|start|..]) == Some((executable, rest))
  {
    var all := start + (Quoted(executable) + rest);
    assert all[..|start|] == start && all[|start|..] == Quoted(executable) + rest;
    QuotedRoundTrip(executable, rest);
  }

  /** What the installed command runs: a script that tests the executable and then
      executes the same executable with the arguments, and ends with the marker. */
  lemma CommandRuns(executable: string, args: string) returns (script: string, rest: string)
    ensures StartsWith(Command(executable, args), "sh -c ")
    ensures Unquoted(Command(executable, args)[6..]) == Some((script, ""))
    ensures StartsWith(script, "[ -x ") && Unquoted(script[5..]) == Some((executable, rest))
    ensures StartsWith(rest, " ] || exit 0; exec ")
    ensures Unquoted(rest[19..]) == Some((executable, " " + args + " # orkia hook"))
  {
    var exe := Quoted(executable);
    var last := " " + args + " # orkia hook";
    rest := " ] || exit 0; exec " + (exe + last);
    script := "[ -x " + (exe + rest);
    ScriptText(exe, args);
    assert Command(executable, args) == "sh -c " + Quoted(script);
    NotReopened(" ] || exit 0; exec ", exe + last);
    NotReopened(" ", args + " # orkia hook");
    assert last == " " + (args + " # orkia hook");
    hide Unquoted, Quoted, StartsWith, Command;
    CommandReads(script);
    WordReads("[ -x ", executable, rest);
    WordReads(" ] || exit 0; exec ", executable, last);
  }

  lemma NotReopened(a: string, b: string)
    requires a != "" && a[0] == ' '
    ensures !StartsWith(a + b, REOPEN)
  {
    assert (a + b)[0] == ' ';
  }

  lemma ScriptText(exe: string, args: string)
    ensures TEST + (exe + " ] || exit 0; exec " + exe + " " + args + " " + MARKER)
         == "[ -x " + (exe + (" ] || exit 0; exec " + (exe + (" " + args + " # orkia hook"))))
  {
    assert " " + MARKER == " # orkia hook";
  }

  /** A directory name that contains the test hides the path. */
  lemma GuardedExample()
    ensures GuardedPath(Command("[ -x /orkia", "hook")) == None
  {
    FindAtStart("[ -x /orkia");
    GuardedPathIff("[ -x /orkia", "hook");
  }
}
