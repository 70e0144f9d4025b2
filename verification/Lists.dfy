/** Strictly ascending lists of numbers. */
module Lists {
  ghost predicate Ascending(s: seq<nat>) {
    forall i, j :: 0 <= i < j < |s| ==> s[i] < s[j]
  }

  lemma AscendingCons(x: nat, s: seq<nat>)
    requires Ascending(s) && forall y :: y in s ==> x < y
    ensures Ascending([x] + s)
  {
    var all := [x] + s;
    assert forall k :: 1 <= k < |all| ==> all[k] == s[k - 1] && s[k - 1] in s;
  }

  /** An ascending list is determined by its elements. */
  lemma {:induction false} AscendingIsUnique(s: seq<nat>, t: seq<nat>)
    requires Ascending(s) && Ascending(t) && forall x :: x in s <==> x in t
    ensures s == t
    decreases |s|
  {
    assert s != [] ==> s[0] in t;
    assert t != [] ==> t[0] in s;
    if s != [] {
      var i :| 0 <= i < |t| && t[i] == s[0];
      var j :| 0 <= j < |s| && s[j] == t[0];
      assert i == 0 && j == 0;
      assert s == [s[0]] + s[1..] && t == [t[0]] + t[1..];
      assert s[0] !in s[1..] && t[0] !in t[1..];
      assert forall x :: x in s[1..] <==> x in s && x != s[0];
      assert forall x :: x in t[1..] <==> x in t && x != t[0];
      AscendingIsUnique(s[1..], t[1..]);
    }
  }
}
