/** A reader of JSON, as section 2 to 7 of RFC 8259 describe it, without white space and
    with numbers told apart by their texts. It is not derived from the writer: what the
    writer wrote, it reads back.
 */
module JsonReading {
  import opened Wrappers
  import opened Digits
  import opened CanonicalJson

  // ----- strings -----

  const ESCAPES: map<char, char> := map[
    '\"' := '\"', '\\' := '\\', '/' := '/', 'b' := '\U{8}', 'f' := '\U{c}', 'n' := '\n', 'r' := '\r', 't' := '\t']

  predicate IsScalar(n: nat) {
    n < 0xD800 || 0xE000 <= n < 0x11_0000
  }

  /** The character behind a backslash, and what follows it. */
  function ReadEscape(s: string): (r: Option<(char, string)>)
    ensures r.Some? ==> |r.value.1| < |s|
  {
    if s == "" then None
    else if s[0] == 'u' then
      if |s| >= 5 && AllHex(s[1..5]) && IsScalar(ReadHex(s[1..5])) then Some((ReadHex(s[1..5]) as char, s[5..]))
      else None
    else if s[0] in ESCAPES then Some((ESCAPES[s[0]], s[1..]))
    else None
  }

  function ReadChar(s: string): (r: Option<(char, string)>)
    requires s != ""
    ensures r.Some? ==> |r.value.1| < |s|
  {
    if s[0] == '\\' then ReadEscape(s[1..])
    else if s[0] < ' ' then None
    else Some((s[0], s[1..]))
  }

  /** The characters up to the closing quote. */
  function ReadChars(s: string): (r: Option<(string, string)>)
    ensures r.Some? ==> |r.value.1| < |s|
    decreases |s|
  {
    if s == "" then None
    else if s[0] == '\"' then Some(("", s[1..]))
    else
      var first := ReadChar(s);
      if first.None? then None
      else
        var rest := ReadChars(first.value.1);
        if rest.None? then None else Some(([first.value.0] + rest.value.0, rest.value.1))
  }

  // ----- numbers -----

  /** How many numeric characters a text starts with. */
  function NumericLength(s: string): (n: nat)
    ensures n <= |s| && AllNumeric(s[..n])
  {
    if s == "" || !IsNumeric(s[0]) then 0
    else
      var n := 1 + NumericLength(s[1..]);
      assert s[..n] == [s[0]] + s[1..][..n - 1];
      n
  }

  function ReadInteger(s: string): Option<int> {
    if s != "" && AllDigits(s) then Some(ReadDecimal(s) as int)
    else if |s| > 1 && s[0] == '-' && AllDigits(s[1..]) then Some(-(ReadDecimal(s[1..]) as int))
    else None
  }

  function ReadNumber(s: string): (r: Option<(Json, string)>)
    ensures r.Some? ==> |r.value.1| < |s|
  {
    var n := NumericLength(s);
    var text := s[..n];
    if text == "" then None
    else if (IsDigit(text[0]) || text[0] == '-') && ('.' in text || 'e' in text) then Some((Float(text), s[n..]))
    else
      var integer := ReadInteger(text);
      if integer.None? then None else Some((Integer(integer.value), s[n..]))
  }

  // ----- values -----

  function ReadWord(s: string, word: string, j: Json): (r: Option<(Json, string)>)
    requires word != ""
    ensures r.Some? ==> |r.value.1| < |s|
  {
    if word <= s then Some((j, s[|word|..])) else None
  }

  /** A value, and what follows it. */
  function ReadValue(s: string): (r: Option<(Json, string)>)
    ensures r.Some? ==> |r.value.1| < |s|
    decreases |s|, 0
  {
    if s == "" then None
    else if s[0] == 'n' then ReadWord(s, "null", Null)
    else if s[0] == 't' then ReadWord(s, "true", Bool(true))
    else if s[0] == 'f' then ReadWord(s, "false", Bool(false))
    else if s[0] == '\"' then
      var chars := ReadChars(s[1..]);
      if chars.None? then None else Some((String(chars.value.0), chars.value.1))
    else if s[0] == '[' then
      if s[1..] != "" && s[1] == ']' then Some((Array([]), s[2..]))
      else
        var items := ReadItems(s[1..]);
        if items.None? then None else Some((Array(items.value.0), items.value.1))
    else if s[0] == '{' then
      if s[1..] != "" && s[1] == '}' then Some((Object(map[]), s[2..]))
      else
        var members := ReadMembers(s[1..]);
        if members.None? then None else Some((Object(members.value.0), members.value.1))
    else ReadNumber(s)
  }

  /** Items up to the closing bracket. */
  function ReadItems(s: string): (r: Option<(seq<Json>, string)>)
    ensures r.Some? ==> |r.value.1| < |s|
    decreases |s|, 1
  {
    var item := ReadValue(s);
    if item.None? || item.value.1 == "" then None
    else if item.value.1[0] == ']' then Some(([item.value.0], item.value.1[1..]))
    else if item.value.1[0] == ',' then
      var rest := ReadItems(item.value.1[1..]);
      if rest.None? then None else Some(([item.value.0] + rest.value.0, rest.value.1))
    else None
  }

  /** A key, a colon and a value. */
  function ReadMember(s: string): (r: Option<((string, Json), string)>)
    ensures r.Some? ==> |r.value.1| < |s|
    decreases |s|, 1
  {
    if s == "" || s[0] != '\"' then None
    else
      var key := ReadChars(s[1..]);
      if key.None? || key.value.1 == "" || key.value.1[0] != ':' then None
      else
        var j := ReadValue(key.value.1[1..]);
        if j.None? then None else Some(((key.value.0, j.value.0), j.value.1))
  }

  /** Members up to the closing brace; of two with one key the later counts. */
  function ReadMembers(s: string): (r: Option<(map<string, Json>, string)>)
    ensures r.Some? ==> |r.value.1| < |s|
    decreases |s|, 2
  {
    var member := ReadMember(s);
    if member.None? || member.value.1 == "" then None
    else if member.value.1[0] == '}' then
      Some((map[member.value.0.0 := member.value.0.1], member.value.1[1..]))
    else if member.value.1[0] == ',' then
      var rest := ReadMembers(member.value.1[1..]);
      if rest.None? then None
      else Some((map[member.value.0.0 := member.value.0.1] + rest.value.0, rest.value.1))
    else None
  }

  // ----- strings are read back -----

  lemma Joined(a: string, r: string)
    requires a != ""
    ensures (a + r)[0] == a[0] && (a + r)[1..] == a[1..] + r
  {
  }

  lemma EscapeReads(c: char, r: string)
    ensures Escape(c) + r != "" && (Escape(c) + r)[0] != '\"'
    ensures ReadChar(Escape(c) + r) == Some((c, r))
  {
    var s := Escape(c) + r;
    assert s[0] == Escape(c)[0];
    if |Escape(c)| == 2 {
      assert s[1..] == [Escape(c)[1]] + r;
      assert ([Escape(c)[1]] + r)[1..] == r;
    } else if |Escape(c)| == 1 {
      assert s[1..] == r;
    } else {
      ControlReads(c, r);
    }
  }

  lemma ControlReads(c: char, r: string)
    requires c < ' '
    ensures ReadChar("\\u00" + Hex(c as int, 2) + r) == Some((c, r))
  {
    var hex := Hex(c as int, 2);
    assert Pow16(2) == 256;
    HexReads(c as int, 2);
    hide Hex;
    var s := "\\u00" + hex + r;
    var t := s[1..];
    assert t == "u00" + hex + r && t[1..5] == "00" + hex && t[5..] == r;
    PaddedReads(hex);
  }

  lemma PaddedReads(hex: string)
    requires |hex| == 2 && AllHex(hex)
    ensures AllHex("00" + hex) && ReadHex("00" + hex) == ReadHex(hex)
  {
    var s := "00" + hex;
    assert s[..3] == "00" + hex[..1] && s[..3][..2] == "00" && "00"[..1] == "0" && "0"[..0] == "";
    assert hex[..1][..0] == "";
    assert ReadHex("0") == 0 && ReadHex("00") == 0;
    assert ReadHex(s[..3]) == ReadHex(hex[..1]);
  }

  lemma EscapedFirst(s: string, r: string)
    ensures s == "" ==> Escaped(s) + ("\"" + r) == "\"" + r
    ensures s != "" ==> Escaped(s) + ("\"" + r) == Escape(s[0]) + (Escaped(s[1..]) + ("\"" + r))
  {
  }

  lemma QuotedFirst(s: string, r: string)
    ensures Quoted(s) + r == "\"" + (Escaped(s) + ("\"" + r))
  {
  }

  lemma {:induction false} EscapedReads(s: string, r: string)
    ensures ReadChars(Escaped(s) + ("\"" + r)) == Some((s, r))
    decreases |s|
  {
    EscapedFirst(s, r);
    hide Escape, Escaped, ReadChar;
    if s == "" {
      assert ("\"" + r)[1..] == r;
    } else {
      EscapeReads(s[0], Escaped(s[1..]) + ("\"" + r));
      EscapedReads(s[1..], r);
      assert s == [s[0]] + s[1..];
    }
  }

  lemma QuotedReads(s: string, r: string)
    ensures Quoted(s) + r != "" && (Quoted(s) + r)[0] == '\"'
    ensures ReadChars((Quoted(s) + r)[1..]) == Some((s, r))
  {
    QuotedFirst(s, r);
    EscapedReads(s, r);
    Joined("\"", Escaped(s) + ("\"" + r));
    hide Escaped, Quoted, ReadChars;
    assert "\""[1..] + (Escaped(s) + ("\"" + r)) == Escaped(s) + ("\"" + r);
  }

  // ----- numbers are read back -----

  /** What may follow a value: the end, or a character that is not part of a number. */
  predicate Ends(r: string) {
    r == "" || !IsNumeric(r[0])
  }

  lemma {:induction false} RunReads(a: string, r: string)
    requires AllNumeric(a) && Ends(r)
    ensures NumericLength(a + r) == |a|
    decreases |a|
  {
    if a == "" {
      assert a + r == r;
    } else {
      Joined(a, r);
      RunReads(a[1..], r);
    }
  }

  /** Integer texts are numeric and never look like floating-point texts. */
  lemma IntegerTexts(n: int)
    ensures AllNumeric(IntegerText(n)) && IntegerText(n) != ""
        && (IsDigit(IntegerText(n)[0]) || IntegerText(n)[0] == '-')
    ensures '.' !in IntegerText(n) && 'e' !in IntegerText(n)
  {
  }

  lemma IntegerReads(n: int)
    ensures ReadInteger(IntegerText(n)) == Some(n)
  {
    var m := if n < 0 then -n else n;
    DecimalReads(m);
    hide Decimal, ReadDecimal;
    if n < 0 {
      assert IntegerText(n)[1..] == Decimal(m);
    }
  }

  lemma NumberReads(j: Json, r: string)
    requires (j.Integer? || j.Float?) && Ends(r)
    ensures ReadNumber(Text(j) + r) == Some((j, r))
    ensures Text(j) != "" && (IsDigit(Text(j)[0]) || Text(j)[0] == '-')
  {
    var text := Text(j);
    if j.Integer? {
      IntegerTexts(j.value);
      IntegerReads(j.value);
    }
    hide IntegerText, ReadInteger, NumericLength;
    RunReads(text, r);
    assert (text + r)[..|text|] == text && (text + r)[|text|..] == r;
  }

  // ----- values are read back -----

  lemma ArrayFirst(items: seq<Json>, r: string)
    ensures items == [] ==> Text(Array(items)) + r == "[" + ("]" + r)
    ensures items != [] ==> Text(Array(items)) + r == "[" + (Text(items[0]) + (MoreItems(items[1..]) + ("]" + r)))
  {
    hide MoreItems;
  }

  lemma ItemsFirst(items: seq<Json>, r: string)
    ensures items == [] ==> MoreItems(items) + ("]" + r) == "]" + r
    ensures items != [] ==> MoreItems(items) + ("]" + r) == "," + (Text(items[0]) + (MoreItems(items[1..]) + ("]" + r)))
  {
    hide Text;
  }

  lemma ObjectFirst(j: Json, keys: seq<string>, r: string)
    requires j.Object? && keys == SortedKeys(j.fields.Keys)
    ensures keys == [] ==> Text(j) + r == "{" + ("}" + r)
    ensures keys != [] ==> Text(j) + r == "{" + (Member(j, keys[0]) + (MoreMembers(j, keys[1..]) + ("}" + r)))
  {
    hide MoreMembers, Member, SortedKeys;
  }

  lemma MembersFirst(j: Json, keys: seq<string>, r: string)
    requires j.Object? && forall k :: k in keys ==> k in j.fields
    ensures keys == [] ==> MoreMembers(j, keys) + ("}" + r) == "}" + r
    ensures keys != [] ==>
        MoreMembers(j, keys) + ("}" + r) == "," + (Member(j, keys[0]) + (MoreMembers(j, keys[1..]) + ("}" + r)))
  {
    hide Member;
  }

  lemma MemberFirst(j: Json, k: string, r: string)
    requires j.Object? && k in j.fields
    ensures Member(j, k) + r == Quoted(k) + (":" + (Text(j.fields[k]) + r))
    ensures Member(j, k) != "" && Member(j, k)[0] == '\"'
  {
    hide Text, Escaped;
  }

  lemma WordReads(word: string, j: Json, r: string)
    requires word != ""
    ensures ReadWord(word + r, word, j) == Some((j, r))
  {
    assert word <= word + r && (word + r)[|word|..] == r;
  }

  lemma ItemEnds(items: seq<Json>, r: string)
    ensures Ends(MoreItems(items) + ("]" + r))
    ensures MoreItems(items) + ("]" + r) != ""
    ensures (MoreItems(items) + ("]" + r))[0] == if items == [] then ']' else ','
  {
    ItemsFirst(items, r);
    hide Text, MoreItems;
  }

  lemma MemberEnds(j: Json, keys: seq<string>, r: string)
    requires j.Object? && forall k :: k in keys ==> k in j.fields
    ensures Ends(MoreMembers(j, keys) + ("}" + r))
    ensures MoreMembers(j, keys) + ("}" + r) != ""
    ensures (MoreMembers(j, keys) + ("}" + r))[0] == if keys == [] then '}' else ','
  {
    MembersFirst(j, keys, r);
    hide Member, MoreMembers;
  }

  /** What the writer wrote is read back, up to where its text ends. */
  lemma {:induction false} ValueReads(j: Json, r: string)
    requires Ends(r)
    ensures ReadValue(Text(j) + r) == Some((j, r))
    ensures Text(j) != "" && Text(j)[0] != ']'
    decreases j, 3
  {
    match j
    case Null => LiteralReads(j, "null", r);
    case Bool(truth) => LiteralReads(j, if truth then "true" else "false", r);
    case Integer(_) => NumericReads(j, r);
    case Float(_) => NumericReads(j, r);
    case String(s) => StringReads(s, r);
    case Array(_) => ArrayReads(j, r);
    case Object(_) => ObjectReads(j, r);
  }

  lemma LiteralReads(j: Json, word: string, r: string)
    requires (j.Null? && word == "null") || (j.Bool? && word == if j.truth then "true" else "false")
    ensures ReadValue(word + r) == Some((j, r)) && Text(j) == word
  {
    WordReads(word, j, r);
    Joined(word, r);
    hide ReadWord;
  }

  lemma NumericReads(j: Json, r: string)
    requires (j.Integer? || j.Float?) && Ends(r)
    ensures ReadValue(Text(j) + r) == Some((j, r))
    ensures Text(j) != "" && Text(j)[0] != ']'
  {
    NumberReads(j, r);
    Joined(Text(j), r);
    hide ReadNumber, Text;
  }

  lemma StringReads(s: string, r: string)
    ensures ReadValue(Text(String(s)) + r) == Some((String(s), r))
    ensures Text(String(s)) != "" && Text(String(s))[0] != ']'
  {
    assert Text(String(s)) == Quoted(s);
    QuotedReads(s, r);
    assert Quoted(s)[0] == '\"';
    hide Quoted, ReadChars, Text;
  }

  lemma {:induction false} ArrayReads(j: Json, r: string)
    requires j.Array?
    ensures ReadValue(Text(j) + r) == Some((j, r))
    ensures Text(j) != "" && Text(j)[0] != ']'
    decreases j, 2
  {
    var items := j.items;
    ArrayFirst(items, r);
    assert Text(j)[0] == '[';
    if items == [] {
      Bracketed("[", "]" + r);
      Joined("]", r);
      hide Text;
    } else {
      var inner := Text(items[0]) + (MoreItems(items[1..]) + ("]" + r));
      Bracketed("[", inner);
      ItemsRead(items, r);
      FirstItem(items[0], MoreItems(items[1..]) + ("]" + r));
      hide Text, MoreItems, ReadItems;
    }
  }

  lemma Bracketed(a: string, b: string)
    requires |a| == 1
    ensures (a + b)[0] == a[0] && (a + b)[1..] == b && (b != "" ==> (a + b)[1] == b[0] && (a + b)[2..] == b[1..])
  {
  }

  lemma {:induction false} FirstItem(j: Json, r: string)
    requires Ends(r)
    ensures Text(j) + r != "" && (Text(j) + r)[0] != ']'
    decreases j, 4
  {
    ValueReads(j, r);
    hide Text;
  }

  lemma LastItem(s: string, j: Json, r: string)
    requires ReadValue(s) == Some((j, "]" + r))
    ensures ReadItems(s) == Some(([j], r))
  {
    hide ReadValue;
    Bracketed("]", r);
  }

  lemma NextItem(s: string, j: Json, t: string, items: seq<Json>, r: string)
    requires ReadValue(s) == Some((j, "," + t)) && ReadItems(t) == Some((items, r))
    ensures ReadItems(s) == Some(([j] + items, r))
  {
    hide ReadValue;
    Bracketed(",", t);
  }

  lemma {:induction false} ItemsRead(items: seq<Json>, r: string)
    requires items != []
    ensures ReadItems(Text(items[0]) + (MoreItems(items[1..]) + ("]" + r))) == Some((items, r))
    decreases items, 5
  {
    hide Text, MoreItems, ReadValue, ReadItems;
    var more := items[1..];
    var rest := MoreItems(more) + ("]" + r);
    ItemEnds(more, r);
    ValueReads(items[0], rest);
    ItemsFirst(more, r);
    assert items == [items[0]] + more;
    if more == [] {
      assert items == [items[0]];
      LastItem(Text(items[0]) + rest, items[0], r);
    } else {
      ItemsRead(more, r);
      NextItem(Text(items[0]) + rest, items[0], Text(more[0]) + (MoreItems(more[1..]) + ("]" + r)), more, r);
    }
  }

  lemma {:induction false} MemberReads(j: Json, k: string, r: string)
    requires j.Object? && k in j.fields && Ends(r)
    ensures ReadMember(Member(j, k) + r) == Some(((k, j.fields[k]), r))
    decreases j, 0
  {
    MemberFirst(j, k, r);
    QuotedReads(k, ":" + (Text(j.fields[k]) + r));
    Bracketed(":", Text(j.fields[k]) + r);
    ValueReads(j.fields[k], r);
    hide Text, Member, Quoted, ReadChars, ReadValue;
  }

  ghost function Restrict(fields: map<string, Json>, keys: seq<string>): map<string, Json>
    requires forall k :: k in keys ==> k in fields
  {
    map k | k in keys :: fields[k]
  }

  lemma RestrictFirst(fields: map<string, Json>, keys: seq<string>)
    requires keys != [] && forall k :: k in keys ==> k in fields
    ensures Restrict(fields, keys) == map[keys[0] := fields[keys[0]]] + Restrict(fields, keys[1..])
  {
    assert keys == [keys[0]] + keys[1..];
  }

  lemma RestrictOne(fields: map<string, Json>, keys: seq<string>)
    requires |keys| == 1 && keys[0] in fields
    ensures Restrict(fields, keys) == map[keys[0] := fields[keys[0]]]
  {
  }

  lemma LastMember(s: string, k: string, j: Json, r: string)
    requires ReadMember(s) == Some(((k, j), "}" + r))
    ensures ReadMembers(s) == Some((map[k := j], r))
  {
    hide ReadMember;
    Bracketed("}", r);
  }

  lemma NextMember(s: string, k: string, j: Json, t: string, fields: map<string, Json>, r: string)
    requires ReadMember(s) == Some(((k, j), "," + t)) && ReadMembers(t) == Some((fields, r))
    ensures ReadMembers(s) == Some((map[k := j] + fields, r))
  {
    hide ReadMember;
    Bracketed(",", t);
  }

  lemma {:induction false} MembersRead(j: Json, keys: seq<string>, r: string)
    requires j.Object? && keys != [] && forall k :: k in keys ==> k in j.fields
    ensures ReadMembers(Member(j, keys[0]) + (MoreMembers(j, keys[1..]) + ("}" + r)))
         == Some((Restrict(j.fields, keys), r))
    decreases j, 1, |keys|
  {
    hide Text, Member, MoreMembers, ReadMember, ReadMembers, Restrict;
    var more := keys[1..];
    var rest := MoreMembers(j, more) + ("}" + r);
    MemberEnds(j, more, r);
    MemberReads(j, keys[0], rest);
    MembersFirst(j, more, r);
    RestrictFirst(j.fields, keys);
    if more == [] {
      LastMember(Member(j, keys[0]) + rest, keys[0], j.fields[keys[0]], r);
      RestrictOne(j.fields, keys);
    } else {
      MembersRead(j, more, r);
      NextMember(Member(j, keys[0]) + rest, keys[0], j.fields[keys[0]],
                 Member(j, more[0]) + (MoreMembers(j, more[1..]) + ("}" + r)), Restrict(j.fields, more), r);
    }
  }

  lemma BracesRead(s: string, fields: map<string, Json>, r: string)
    requires s != "" && s[0] == '\"' && ReadMembers(s) == Some((fields, r))
    ensures ReadValue("{" + s) == Some((Object(fields), r))
  {
    hide ReadMembers;
    Bracketed("{", s);
  }

  lemma NoBraces(r: string)
    ensures ReadValue("{" + ("}" + r)) == Some((Object(map[]), r))
  {
    Bracketed("{", "}" + r);
    Bracketed("}", r);
  }

  lemma {:induction false} ObjectReads(j: Json, r: string)
    requires j.Object?
    ensures ReadValue(Text(j) + r) == Some((j, r))
    ensures Text(j) != "" && Text(j)[0] != ']'
    decreases j, 2
  {
    var keys := SortedKeys(j.fields.Keys);
    assert Text(j)[0] == '{';
    hide Text, Member, MoreMembers, ReadMembers, SortedKeys, ReadValue;
    ObjectFirst(j, keys, r);
    if keys == [] {
      NoBraces(r);
      assert j.fields.Keys == {};
    } else {
      var rest := MoreMembers(j, keys[1..]) + ("}" + r);
      MembersRead(j, keys, r);
      MemberFirst(j, keys[0], rest);
      Joined(Member(j, keys[0]), rest);
      assert Restrict(j.fields, keys) == j.fields;
      BracesRead(Member(j, keys[0]) + rest, j.fields, r);
    }
  }

  // ----- what follows -----

  /** The text of a value determines the value and where the text ends. */
  lemma TextFree(a: Json, b: Json, r: string, t: string)
    requires Ends(r) && Ends(t) && Text(a) + r == Text(b) + t
    ensures a == b && r == t
  {
    ValueReads(a, r);
    ValueReads(b, t);
    hide Text, ReadValue;
  }

  // ----- equality of values -----

  /** Zero is written with its sign. */
  predicate IsZero(text: FloatText) {
    text == "0.0" || text == "-0.0"
  }

  /** The equality of the program's values, for which the two zeros are the same number. */
  ghost predicate SameValue(a: Json, b: Json) {
    match a
    case Float(text) => b.Float? && (text == b.text || (IsZero(text) && IsZero(b.text)))
    case Array(items) =>
      && b.Array? && |items| == |b.items|
      && forall i :: 0 <= i < |items| ==> SameValue(items[i], b.items[i])
    case Object(fields) =>
      && b.Object? && fields.Keys == b.fields.Keys
      && forall k :: k in fields ==> SameValue(fields[k], b.fields[k])
    case _ => a == b
  }

  /** Zeros in the same place have the same sign. */
  ghost predicate SameZeroSigns(a: Json, b: Json) {
    match a
    case Float(text) => b.Float? && IsZero(text) && IsZero(b.text) ==> text == b.text
    case Array(items) => b.Array? ==> forall i :: 0 <= i < |items| && i < |b.items| ==>
        SameZeroSigns(items[i], b.items[i])
    case Object(fields) =>
      b.Object? ==> forall k :: k in fields && k in b.fields ==> SameZeroSigns(fields[k], b.fields[k])
    case _ => true
  }

  lemma {:induction false} SameValueIff(a: Json, b: Json)
    ensures SameValue(a, b) && SameZeroSigns(a, b) <==> a == b
    decreases a
  {
    match a
    case Array(items) =>
      if b.Array? && |items| == |b.items| {
        forall i | 0 <= i < |items|
          ensures SameValue(items[i], b.items[i]) && SameZeroSigns(items[i], b.items[i]) <==> items[i] == b.items[i]
        {
          SameValueIff(items[i], b.items[i]);
        }
      }
    case Object(fields) =>
      if b.Object? && fields.Keys == b.fields.Keys {
        forall k | k in fields
          ensures SameValue(fields[k], b.fields[k]) && SameZeroSigns(fields[k], b.fields[k])
              <==> fields[k] == b.fields[k]
        {
          SameValueIff(fields[k], b.fields[k]);
        }
      }
    case _ =>
  }

  /** Canonical JSON is injective: equal texts are equal values with the same signs of
      zeros, which is to say that nothing at all distinguishes them. */
  lemma CanonicalIsInjective(a: Json, b: Json)
    ensures Text(a) == Text(b) <==> a == b
    ensures Text(a) == Text(b) <==> SameValue(a, b) && SameZeroSigns(a, b)
  {
    SameValueIff(a, b);
    if Text(a) == Text(b) {
      assert Text(a) + "" == Text(a) && Text(b) + "" == Text(b);
      TextFree(a, b, "", "");
    }
  }

  /** Without the condition on signs it fails: the two zeros are equal values with
      different texts. */
  lemma ZeroExample()
    ensures SameValue(Float("0.0"), Float("-0.0")) && Text(Float("0.0")) != Text(Float("-0.0"))
  {
    CanonicalIsInjective(Float("0.0"), Float("-0.0"));
    assert "0.0"[0] != "-0.0"[0];
  }
}
