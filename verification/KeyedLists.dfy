/** Lists whose elements carry an identifier: distinctness and the stable sort. */
module KeyedLists {

  /** No two elements have the same key. */
  ghost predicate Distinct<T>(key: T -> nat, s: seq<T>) {
    forall i, j :: 0 <= i < j < |s| ==> key(s[i]) != key(s[j])
  }

  function Keys<T>(key: T -> nat, s: seq<T>): set<nat> {
    set i | 0 <= i < |s| :: key(s[i])
  }

  lemma InKeys<T>(key: T -> nat, s: seq<T>, k: nat) returns (x: T)
    requires k in Keys(key, s)
    ensures x in s && key(x) == k
  {
    var i :| 0 <= i < |s| && key(s[i]) == k;
    x := s[i];
  }

  lemma DistinctMembers<T>(key: T -> nat, s: seq<T>, x: T, y: T)
    requires Distinct(key, s) && x in s && y in s && key(x) == key(y)
    ensures x == y
  {
    var i :| 0 <= i < |s| && s[i] == x;
    var j :| 0 <= j < |s| && s[j] == y;
  }

  lemma Concat<T>(key: T -> nat, a: seq<T>, b: seq<T>)
    ensures Keys(key, a + b) == Keys(key, a) + Keys(key, b)
    ensures Distinct(key, a) && Distinct(key, b) && Keys(key, a) !! Keys(key, b) ==> Distinct(key, a + b)
  {
    var s := a + b;
    assert forall i :: 0 <= i < |a| ==> s[i] == a[i];
    assert forall i :: 0 <= i < |b| ==> s[|a| + i] == b[i];
    forall k
      ensures k in Keys(key, s) <==> k in Keys(key, a) + Keys(key, b)
    {
      if i :| 0 <= i < |b| && key(b[i]) == k {
        assert key(s[|a| + i]) == k;
      }
      if i :| 0 <= i < |a| && key(a[i]) == k {
        assert key(s[i]) == k;
      }
      if i :| 0 <= i < |s| && key(s[i]) == k {
        assert i >= |a| ==> s[i] == b[i - |a|];
      }
    }
    if Distinct(key, a) && Distinct(key, b) && Keys(key, a) !! Keys(key, b) {
      forall i, j | 0 <= i < j < |s|
        ensures key(s[i]) != key(s[j])
      {
        if i < |a| <= j {
          assert key(a[i]) in Keys(key, a) && key(b[j - |a|]) in Keys(key, b);
        } else if |a| <= i {
          assert key(b[i - |a|]) != key(b[j - |a|]);
        }
      }
    }
  }

  lemma One<T>(key: T -> nat, x: T)
    ensures Keys(key, [x]) == {key(x)} && Distinct(key, [x])
  {
    assert [x][0] == x;
  }

  lemma Head<T>(key: T -> nat, s: seq<T>)
    requires s != []
    ensures Keys(key, s) == {key(s[0])} + Keys(key, s[1..])
    ensures Distinct(key, s) ==> Distinct(key, s[1..]) && key(s[0]) !in Keys(key, s[1..])
  {
    assert s == [s[0]] + s[1..];
    One(key, s[0]);
    Concat(key, [s[0]], s[1..]);
    assert forall i :: 0 <= i < |s| - 1 ==> s[1..][i] == s[i + 1];
  }

  function Insert<T>(key: T -> nat, x: T, sorted: seq<T>): seq<T> {
    if sorted == [] || key(x) <= key(sorted[0]) then [x] + sorted
    else [sorted[0]] + Insert(key, x, sorted[1..])
  }

  /** The stable `sort_by` on keys. */
  function Sort<T>(key: T -> nat, s: seq<T>): seq<T> {
    if s == [] then [] else Insert(key, s[0], Sort(key, s[1..]))
  }

  lemma {:induction false} InsertKeeps<T>(key: T -> nat, x: T, sorted: seq<T>)
    ensures multiset(Insert(key, x, sorted)) == multiset(sorted) + multiset{x}
    decreases |sorted|
  {
    if sorted != [] && key(x) > key(sorted[0]) {
      InsertKeeps(key, x, sorted[1..]);
      assert sorted == [sorted[0]] + sorted[1..];
    }
  }

  lemma {:induction false} SortPermutes<T>(key: T -> nat, s: seq<T>)
    ensures multiset(Sort(key, s)) == multiset(s)
    decreases |s|
  {
    if s != [] {
      SortPermutes(key, s[1..]);
      InsertKeeps(key, s[0], Sort(key, s[1..]));
      assert s == [s[0]] + s[1..];
    }
  }

  lemma {:induction false} InsertDistinct<T>(key: T -> nat, x: T, sorted: seq<T>)
    requires Distinct(key, sorted) && key(x) !in Keys(key, sorted)
    ensures Distinct(key, Insert(key, x, sorted)) && Keys(key, Insert(key, x, sorted)) == Keys(key, sorted) + {key(x)}
    decreases |sorted|
  {
    if sorted == [] || key(x) <= key(sorted[0]) {
      One(key, x);
      Concat(key, [x], sorted);
    } else {
      var rest := sorted[1..];
      Head(key, sorted);
      InsertDistinct(key, x, rest);
      One(key, sorted[0]);
      Concat(key, [sorted[0]], Insert(key, x, rest));
    }
  }

  /** Sorting a list with distinct keys keeps the keys. */
  lemma {:induction false} SortKeeps<T>(key: T -> nat, s: seq<T>)
    requires Distinct(key, s)
    ensures Distinct(key, Sort(key, s)) && Keys(key, Sort(key, s)) == Keys(key, s)
    decreases |s|
  {
    if s != [] {
      Head(key, s);
      SortKeeps(key, s[1..]);
      InsertDistinct(key, s[0], Sort(key, s[1..]));
    }
  }

  lemma SortMembers<T>(key: T -> nat, s: seq<T>, x: T)
    ensures x in Sort(key, s) <==> x in s
  {
    SortPermutes(key, s);
    assert x in s <==> x in multiset(s);
    assert x in Sort(key, s) <==> x in multiset(Sort(key, s));
  }

  ghost predicate Ordered<T>(key: T -> nat, s: seq<T>) {
    forall i, j :: 0 <= i < j < |s| ==> key(s[i]) <= key(s[j])
  }

  lemma {:induction false} InsertOrders<T>(key: T -> nat, x: T, sorted: seq<T>)
    requires Ordered(key, sorted)
    ensures Ordered(key, Insert(key, x, sorted))
    decreases |sorted|
  {
    if sorted != [] && key(x) > key(sorted[0]) {
      var rest := sorted[1..];
      var more := Insert(key, x, rest);
      assert forall i :: 0 <= i < |rest| ==> rest[i] == sorted[i + 1];
      InsertOrders(key, x, rest);
      InsertKeeps(key, x, rest);
      forall i | 0 <= i < |more|
        ensures key(sorted[0]) <= key(more[i])
      {
        assert more[i] in multiset(more);
        assert more[i] == x || more[i] in rest;
      }
      OrderedCons(key, sorted[0], more);
    } else {
      OrderedCons(key, x, sorted);
    }
  }

  lemma OrderedCons<T>(key: T -> nat, x: T, sorted: seq<T>)
    requires Ordered(key, sorted)
    requires (forall i :: 0 <= i < |sorted| ==> key(x) <= key(sorted[i])) || (sorted != [] && key(x) <= key(sorted[0]))
    ensures Ordered(key, [x] + sorted)
  {
    assert forall i :: 0 < i < |sorted| ==> key(sorted[0]) <= key(sorted[i]);
  }

  lemma {:induction false} SortOrders<T>(key: T -> nat, s: seq<T>)
    ensures Ordered(key, Sort(key, s))
    decreases |s|
  {
    if s != [] {
      SortOrders(key, s[1..]);
      InsertOrders(key, s[0], Sort(key, s[1..]));
    }
  }

  // ----- collecting into a map -----

  /** Collecting into a `BTreeMap`: of two entries with one key the later wins. */
  function Collect<T>(key: T -> nat, s: seq<T>): map<nat, T> {
    if s == [] then map[]
    else Collect(key, s[..|s| - 1])[key(s[|s| - 1]) := s[|s| - 1]]
  }

  /** The field f of every entry. */
  ghost function Each<T, U>(f: T -> U, s: seq<T>): (fields: seq<U>)
    ensures |fields| == |s| && forall i :: 0 <= i < |s| ==> fields[i] == f(s[i])
  {
    seq(|s|, i requires 0 <= i < |s| => f(s[i]))
  }

  /** No later entry has the key of entry i. */
  ghost predicate Last(keys: seq<nat>, i: nat) {
    i < |keys| && forall l :: i < l < |keys| ==> keys[l] != keys[i]
  }

  /** The map holds the last entry of each key, */
  lemma {:induction false} CollectLast<T>(key: T -> nat, s: seq<T>, i: nat)
    requires Last(Each(key, s), i)
    ensures key(s[i]) in Collect(key, s) && Collect(key, s)[key(s[i])] == s[i]
    decreases |s|
  {
    var n := |s| - 1;
    if i < n {
      assert key(s[n]) != key(s[i]);
      assert forall l :: i < l < n ==> s[..n][l] == s[l];
      CollectLast(key, s[..n], i);
    }
  }

  /** and nothing else. */
  lemma {:induction false} CollectedFrom<T>(key: T -> nat, s: seq<T>, k: nat) returns (i: nat)
    requires k in Collect(key, s)
    ensures Last(Each(key, s), i) && key(s[i]) == k && Collect(key, s)[k] == s[i]
    decreases |s|
  {
    var n := |s| - 1;
    if key(s[n]) == k {
      i := n;
    } else {
      i := CollectedFrom(key, s[..n], k);
      assert s[i] == s[..n][i] && key(s[i]) == k;
      assert forall l :: i < l < n ==> s[l] == s[..n][l];
      assert forall l :: i < l < n ==> key(s[..n][l]) != k;
    }
  }

  lemma {:induction false} CollectKeys<T>(key: T -> nat, s: seq<T>)
    ensures Collect(key, s).Keys == Keys(key, s)
    ensures forall k :: k in Collect(key, s) ==> Collect(key, s)[k] in s && key(Collect(key, s)[k]) == k
    decreases |s|
  {
    if s != [] {
      var init, last := s[..|s| - 1], s[|s| - 1];
      CollectKeys(key, init);
      assert s == init + [last];
      Concat(key, init, [last]);
      One(key, last);
    }
  }
}
