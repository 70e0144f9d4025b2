/** Canonical JSON: the byte form that object identifiers and signatures are taken of.
    Text stands for its UTF-8 encoding.
 */
module CanonicalJson {
  import opened Digits

  /** The characters of number texts. */
  predicate IsNumeric(c: char) {
    IsDigit(c) || c == '+' || c == '-' || c == '.' || c == 'e' || c == 'E'
  }

  predicate AllNumeric(s: string) {
    forall i :: 0 <= i < |s| ==> IsNumeric(s[i])
  }

  /** The shortest decimal form of a floating-point number, which always shows that it
      is not an integer. */
  type FloatText = s: string | s != "" && AllNumeric(s) && (IsDigit(s[0]) || s[0] == '-')
      && ('.' in s || 'e' in s) witness "0.0"

  datatype Json =
    | Null
    | Bool(truth: bool)
    | Integer(value: int)
    | Float(text: FloatText)
    | String(chars: string)
    | Array(items: seq<Json>)
    | Object(fields: map<string, Json>)

  // ----- the order of keys -----

  predicate Less(a: string, b: string) {
    b != "" && (a == "" || a[0] < b[0] || (a[0] == b[0] && Less(a[1..], b[1..])))
  }

  /** The strings part at i, where the first has the smaller character. */
  ghost predicate PartAt(a: string, b: string, i: nat) {
    i < |a| && i < |b| && a[..i] == b[..i] && a[i] < b[i]
  }

  /** A string comes before those that it begins, and otherwise the first character
      that differs decides. */
  lemma {:induction false} LessIff(a: string, b: string)
    ensures Less(a, b) <==> a < b || exists i: nat :: PartAt(a, b, i)
    decreases |a|
  {
    if a != "" && b != "" && a[0] == b[0] {
      LessIff(a[1..], b[1..]);
      assert a == [a[0]] + a[1..] && b == [b[0]] + b[1..];
      assert a < b <==> a[1..] < b[1..];
      if i: nat :| PartAt(a[1..], b[1..], i) {
        assert a[..i + 1] == [a[0]] + a[1..][..i] && b[..i + 1] == [b[0]] + b[1..][..i];
        assert PartAt(a, b, i + 1);
      }
      if i: nat :| PartAt(a, b, i) {
        assert i > 0 && a[1..][..i - 1] == a[..i][1..] && b[1..][..i - 1] == b[..i][1..];
        assert PartAt(a[1..], b[1..], i - 1);
      }
    } else if a != "" && b != "" {
      assert a[..0] == b[..0];
      assert a[0] < b[0] ==> PartAt(a, b, 0);
      if i: nat :| PartAt(a, b, i) {
        assert i > 0 ==> a[..i][0] == b[..i][0];
      }
    }
  }

  lemma {:induction false} NotLess(a: string)
    ensures !Less(a, a)
    decreases |a|
  {
    if a != "" {
      NotLess(a[1..]);
    }
  }

  lemma {:induction false} LessTrichotomy(a: string, b: string)
    ensures a == b || Less(a, b) || Less(b, a)
    ensures !(Less(a, b) && Less(b, a)) && !Less(a, a)
    decreases |a| + |b|
  {
    NotLess(a);
    if a != "" && b != "" {
      LessTrichotomy(a[1..], b[1..]);
      assert a == [a[0]] + a[1..] && b == [b[0]] + b[1..];
    }
  }

  lemma {:induction false} LessTransitive(a: string, b: string, c: string)
    requires Less(a, b) && Less(b, c)
    ensures Less(a, c)
    decreases |a|
  {
    if a != "" && a[0] == b[0] && b[0] == c[0] {
      LessTransitive(a[1..], b[1..], c[1..]);
    }
  }

  predicate IsFirst(k: string, s: set<string>) {
    k in s && forall o :: o in s ==> o == k || Less(k, o)
  }

  lemma {:induction false} FirstExists(s: set<string>) returns (k: string)
    requires s != {}
    ensures IsFirst(k, s)
    decreases |s|
  {
    k :| k in s;
    var rest := s - {k};
    if rest != {} {
      var m := FirstExists(rest);
      LessTrichotomy(k, m);
      if Less(m, k) {
        k := m;
      } else {
        forall o | o in rest
          ensures Less(k, o)
        {
          if o != m {
            LessTransitive(k, m, o);
          }
        }
      }
    }
  }

  lemma FirstIsUnique(s: set<string>, a: string, b: string)
    requires IsFirst(a, s) && IsFirst(b, s)
    ensures a == b
  {
    LessTrichotomy(a, b);
  }

  function First(s: set<string>): (k: string)
    requires s != {}
    ensures IsFirst(k, s)
  {
    assert exists k :: IsFirst(k, s) by {
      var k := FirstExists(s);
    }
    assert forall a, b :: IsFirst(a, s) && IsFirst(b, s) ==> a == b by {
      forall a, b | IsFirst(a, s) && IsFirst(b, s)
        ensures a == b
      {
        FirstIsUnique(s, a, b);
      }
    }
    var k :| k in s && IsFirst(k, s);
    k
  }

  /** The keys in sorted order. */
  function SortedKeys(s: set<string>): (keys: seq<string>)
    ensures forall k :: k in keys <==> k in s
    ensures forall i, j :: 0 <= i < j < |keys| ==> Less(keys[i], keys[j])
  {
    if s == {} then [] else
      var k := First(s);
      var rest := SortedKeys(s - {k});
      assert forall i :: 0 <= i < |rest| ==> rest[i] in s - {k};
      [k] + rest
  }

  // ----- the serialization -----

  /** The escape of one character inside a string. */
  function Escape(c: char): string {
    if c == '\"' then "\\\""
    else if c == '\\' then "\\\\"
    else if c == '\U{8}' then "\\b"
    else if c == '\t' then "\\t"
    else if c == '\n' then "\\n"
    else if c == '\U{c}' then "\\f"
    else if c == '\r' then "\\r"
    else if c < ' ' then "\\u00" + Hex(c as int, 2)
    else [c]
  }

  function Escaped(s: string): string {
    if s == "" then "" else Escape(s[0]) + Escaped(s[1..])
  }

  function Quoted(s: string): string {
    "\"" + Escaped(s) + "\""
  }

  function IntegerText(n: int): string {
    if n < 0 then "-" + Decimal(-n) else Decimal(n)
  }

  function Text(j: Json): string
    decreases j
  {
    match j
    case Null => "null"
    case Bool(truth) => if truth then "true" else "false"
    case Integer(n) => IntegerText(n)
    case Float(text) => text
    case String(s) => Quoted(s)
    case Array(items) => "[" + (if items == [] then "" else Text(items[0]) + MoreItems(items[1..])) + "]"
    case Object(fields) =>
      var keys := SortedKeys(fields.Keys);
      "{" + (if keys == [] then "" else Member(j, keys[0]) + MoreMembers(j, keys[1..])) + "}"
  }

  function MoreItems(items: seq<Json>): string
    decreases items
  {
    if items == [] then "" else "," + Text(items[0]) + MoreItems(items[1..])
  }

  function Member(j: Json, key: string): string
    requires j.Object? && key in j.fields
    decreases j, 0
  {
    Quoted(key) + ":" + Text(j.fields[key])
  }

  function MoreMembers(j: Json, keys: seq<string>): string
    requires j.Object? && forall k :: k in keys ==> k in j.fields
    decreases j, |keys| + 1
  {
    if keys == [] then "" else "," + Member(j, keys[0]) + MoreMembers(j, keys[1..])
  }

  lemma {:induction false} MoreItemsSnoc(items: seq<Json>, last: Json)
    ensures MoreItems(items + [last]) == MoreItems(items) + ("," + Text(last))
    decreases |items|
  {
    hide Text;
    var all := items + [last];
    if items == [] {
      assert all[0] == last && all[1..] == [];
    } else {
      assert all[1..] == items[1..] + [last];
      MoreItemsSnoc(items[1..], last);
    }
  }

  lemma {:induction false} MoreMembersSnoc(j: Json, keys: seq<string>, last: string)
    requires j.Object? && last in j.fields && forall k :: k in keys ==> k in j.fields
    ensures forall k :: k in keys + [last] ==> k in j.fields
    ensures MoreMembers(j, keys + [last]) == MoreMembers(j, keys) + ("," + Member(j, last))
    decreases |keys|
  {
    hide Member;
    var all := keys + [last];
    if keys == [] {
      assert all[0] == last && all[1..] == [];
    } else {
      assert all[1..] == keys[1..] + [last];
      MoreMembersSnoc(j, keys[1..], last);
    }
  }

  /** The text of the first n items, with the commas between them. */
  ghost function ItemsUpTo(items: seq<Json>, n: nat): string
    requires n <= |items|
  {
    if n == 0 then "" else Text(items[0]) + MoreItems(items[1..n])
  }

  /** A comma in front of every item or member but the first. */
  function Separated(i: nat, text: string): string {
    (if i > 0 then "," else "") + text
  }

  lemma ItemsStep(items: seq<Json>, n: nat)
    requires n < |items|
    ensures ItemsUpTo(items, n + 1) == ItemsUpTo(items, n) + Separated(n, Text(items[n]))
  {
    hide Text;
    if n > 0 {
      assert items[1..n + 1] == items[1..n] + [items[n]];
      MoreItemsSnoc(items[1..n], items[n]);
    }
  }

  ghost function MembersUpTo(j: Json, keys: seq<string>, n: nat): string
    requires j.Object? && n <= |keys| && forall k :: k in keys ==> k in j.fields
  {
    if n == 0 then "" else Member(j, keys[0]) + MoreMembers(j, keys[1..n])
  }

  lemma MembersStep(j: Json, keys: seq<string>, n: nat)
    requires j.Object? && n < |keys| && forall k :: k in keys ==> k in j.fields
    ensures MembersUpTo(j, keys, n + 1) == MembersUpTo(j, keys, n) + Separated(n, Member(j, keys[n]))
  {
    hide Member;
    if n > 0 {
      assert keys[1..n + 1] == keys[1..n] + [keys[n]];
      MoreMembersSnoc(j, keys[1..n], keys[n]);
    }
  }

  /** The output vector. */
  class Output {
    var text: string

    constructor ()
      ensures text == ""
    {
      text := "";
    }

    method Push(s: string)
      modifies this
      ensures text == old(text) + s
    {
      text := text + s;
    }
  }

  /** Appends the text of a value to the output. */
  method WriteCanonicalJson(j: Json, output: Output)
    modifies output
    ensures output.text == old(output.text) + Text(j)
    decreases j, 3
  {
    match j
    case Null => output.Push("null");
    case Bool(truth) => output.Push(if truth then "true" else "false");
    case Integer(n) => output.Push(IntegerText(n));
    case Float(text) => output.Push(text);
    case String(s) => output.Push(Quoted(s));
    case Array(items) => WriteItems(j, output);
    case Object(fields) => WriteMembers(j, output);
  }

  lemma ArrayText(items: seq<Json>)
    ensures Text(Array(items)) == "[" + ItemsUpTo(items, |items|) + "]"
  {
    assert items != [] ==> items[1..] == items[1..|items|];
    hide MoreItems;
  }

  lemma Associates(a: string, b: string, c: string)
    ensures (a + b) + c == a + (b + c)
  {
  }

  /** A comma, except before the first, and the next item. */
  method WriteItem(items: seq<Json>, i: nat, output: Output)
    requires i < |items|
    modifies output
    ensures output.text == old(output.text) + Separated(i, Text(items[i]))
    decreases items, 1
  {
    hide Text;
    if i > 0 {
      output.Push(",");
    }
    WriteCanonicalJson(items[i], output);
  }

  method WriteItems(j: Json, output: Output)
    requires j.Array?
    modifies output
    ensures output.text == old(output.text) + Text(j)
    decreases j, 0
  {
    var items := j.items;
    ArrayText(items);
    hide Text, ItemsUpTo, Separated;
    output.Push("[");
    ghost var start := output.text;
    for i := 0 to |items|
      invariant output.text == start + ItemsUpTo(items, i)
    {
      ItemsStep(items, i);
      Associates(start, ItemsUpTo(items, i), Separated(i, Text(items[i])));
      WriteItem(items, i, output);
    }
    output.Push("]");
  }

  lemma ObjectText(j: Json, keys: seq<string>)
    requires j.Object? && keys == SortedKeys(j.fields.Keys)
    ensures Text(j) == "{" + MembersUpTo(j, keys, |keys|) + "}"
  {
    assert keys != [] ==> keys[1..] == keys[1..|keys|];
    hide MoreMembers, Member, SortedKeys;
  }

  method WriteMember(j: Json, keys: seq<string>, i: nat, output: Output)
    requires j.Object? && i < |keys| && keys[i] in j.fields
    modifies output
    ensures output.text == old(output.text) + Separated(i, Member(j, keys[i]))
    decreases j, 0
  {
    hide Text, Quoted;
    var key := keys[i];
    if i > 0 {
      output.Push(",");
    }
    output.Push(Quoted(key));
    output.Push(":");
    WriteCanonicalJson(j.fields[key], output);
  }

  /** The members under the keys, with commas between them. */
  method WriteKeys(j: Json, keys: seq<string>, output: Output)
    requires j.Object? && forall k :: k in keys ==> k in j.fields
    modifies output
    ensures output.text == old(output.text) + MembersUpTo(j, keys, |keys|)
    decreases j, 1
  {
    hide MembersUpTo, Member, Separated;
    ghost var start := output.text;
    NoMembers(j, keys, start);
    for i := 0 to |keys|
      invariant output.text == start + MembersUpTo(j, keys, i)
    {
      MembersStep(j, keys, i);
      Associates(start, MembersUpTo(j, keys, i), Separated(i, Member(j, keys[i])));
      WriteMember(j, keys, i, output);
    }
  }

  lemma NoMembers(j: Json, keys: seq<string>, start: string)
    requires j.Object? && forall k :: k in keys ==> k in j.fields
    ensures start == start + MembersUpTo(j, keys, 0)
  {
  }

  method WriteMembers(j: Json, output: Output)
    requires j.Object?
    modifies output
    ensures output.text == old(output.text) + Text(j)
    decreases j, 2
  {
    var keys := SortedKeys(j.fields.Keys);
    ObjectText(j, keys);
    hide Text, MembersUpTo, SortedKeys;
    ghost var start := output.text;
    output.Push("{");
    WriteKeys(j, keys, output);
    output.Push("}");
    Enclosed(start, "{", MembersUpTo(j, keys, |keys|), "}");
  }

  lemma Enclosed(start: string, opening: string, inner: string, closing: string)
    ensures start + opening + inner + closing == start + (opening + inner + closing)
  {
  }

  method CanonicalJson(j: Json) returns (text: string)
    ensures text == Text(j)
  {
    var output := new Output();
    WriteCanonicalJson(j, output);
    text := output.text;
    assert "" + text == text;
  }
}
