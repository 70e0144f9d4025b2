/** The layered topological order that `stack_pull_request_order`,
    `stack_pull_request_execution_order` and `changeset_execution_order` compute with
    the same loop over their own keys: in rounds, every node whose dependencies are
    complete is emitted, in key order.
 */
module TopologicalOrder {
  import opened Wrappers
  import opened Lists
  import opened Dag

  ghost function Elements(s: seq<nat>): set<nat> {
    set x | x in s
  }

  ghost predicate IsMin(s: set<nat>, m: nat) {
    m in s && forall x :: x in s ==> m <= x
  }

  lemma {:induction false} MinExists(s: set<nat>)
    requires s != {}
    ensures exists m :: IsMin(s, m)
    decreases |s|
  {
    var y :| y in s;
    if s == {y} {
      assert IsMin(s, y);
    } else {
      var rest := s - {y};
      MinExists(rest);
      var m :| IsMin(rest, m);
      assert forall x :: x in s ==> x == y || x in rest;
      assert IsMin(s, if y < m then y else m);
    }
  }

  function Min(s: set<nat>): (m: nat)
    requires s != {}
    ensures m in s && forall x :: x in s ==> m <= x
  {
    MinExists(s);
    assert exists m :: m in s && forall x :: x in s ==> m <= x by {
      var m :| IsMin(s, m);
    }
    var m :| m in s && forall x :: x in s ==> m <= x;
    m
  }

  /** The iteration order of a `BTreeSet`. */
  function SortedSeq(s: set<nat>): seq<nat>
    decreases |s|
  {
    if s == {} then [] else [Min(s)] + SortedSeq(s - {Min(s)})
  }

  lemma {:induction false} SortedSeqSorts(s: set<nat>)
    ensures Ascending(SortedSeq(s)) && Elements(SortedSeq(s)) == s
    decreases |s|
  {
    if s != {} {
      var m := Min(s);
      SortedSeqSorts(s - {m});
      MinFirst(m, SortedSeq(s - {m}));
    }
  }

  lemma MinFirst(m: nat, rest: seq<nat>)
    requires Ascending(rest) && forall x :: x in Elements(rest) ==> m < x
    ensures Ascending([m] + rest) && Elements([m] + rest) == {m} + Elements(rest)
  {
    assert forall x :: x in rest ==> x in Elements(rest);
    AscendingCons(m, rest);
    assert forall x :: x in [m] + rest <==> x == m || x in rest;
  }

  /** What has been emitted after n rounds. */
  function Layered(g: Graph, n: nat): seq<nat> {
    if n == 0 then [] else Layered(g, n - 1) + SortedSeq(Level(g, n) - Level(g, n - 1))
  }

  /** The order of a graph whose nodes are all complete after some round. */
  function Order(g: Graph): seq<nat> {
    Layered(g, |g|)
  }

  /** The nodes that are ready in a round, and the round's effect on the sets. */
  lemma Round(g: Graph, n: nat, remaining: set<nat>, complete: set<nat>)
    requires complete == Level(g, n) && remaining == g.Keys - complete
    ensures
      var layer := set k | k in remaining && g[k] <= complete;
      && layer == Level(g, n + 1) - Level(g, n)
      && complete + layer == Level(g, n + 1)
      && remaining - layer == g.Keys - Level(g, n + 1)
      && Layered(g, n + 1) == Layered(g, n) + SortedSeq(layer)
      && (layer == {} ==> (remaining == {} <==> Closed(g) && Acyclic(g)))
  {
    LevelMonotone(g, n, n + 1);
    var layer := set k | k in remaining && g[k] <= complete;
    assert layer == Level(g, n + 1) - Level(g, n);
    if layer == {} {
      assert forall x :: x in Level(g, n + 1) ==> x in layer || x in Level(g, n);
      assert Level(g, n + 1) == Level(g, n);
      StuckIff(g, n);
    }
  }

  method LayeredOrder(g: Graph) returns (result: Result<seq<nat>>)
    ensures result.Ok? <==> Closed(g) && Acyclic(g)
    ensures result == if result.Ok? then Ok(Order(g)) else Err(Conflict)
  {
    hide Level, Layered, SortedSeq, Closed, Acyclic, Order;
    var remaining := g.Keys;
    var complete: set<nat> := {};
    var ordered: seq<nat> := [];
    ghost var n: nat := 0;
    NothingYet(g);
    while remaining != {}
      invariant complete == Level(g, n) && remaining == g.Keys - complete
      invariant ordered == Layered(g, n)
      decreases remaining
    {
      Round(g, n, remaining, complete);
      var layer := set k | k in remaining && g[k] <= complete;
      SortedSeqSorts(layer);
      var ready := SortedSeq(layer);
      if ready == [] {
        assert layer == {};
        return Err(Conflict);
      }
      assert ready[0] in Elements(ready);
      remaining, complete, ordered := EmitAll(ready, remaining, complete, ordered);
      n := n + 1;
    }
    FullLevelIsDag(g, n);
    FullOrder(g, n);
    return Ok(ordered);
  }

  /** The inner loop: every ready node moves from the remaining to the complete ones. */
  method EmitAll(ready: seq<nat>, before: set<nat>, done: set<nat>, listed: seq<nat>)
    returns (remaining: set<nat>, complete: set<nat>, ordered: seq<nat>)
    ensures remaining == before - Elements(ready)
    ensures complete == done + Elements(ready)
    ensures ordered == listed + ready
  {
    remaining, complete, ordered := before, done, listed;
    for i := 0 to |ready|
      invariant remaining == before - Elements(ready[..i])
      invariant complete == done + Elements(ready[..i])
      invariant ordered == listed + ready[..i]
    {
      assert ready[..i + 1] == ready[..i] + [ready[i]];
      remaining := remaining - {ready[i]};
      complete := complete + {ready[i]};
      ordered := ordered + [ready[i]];
    }
    assert ready[..|ready|] == ready;
  }

  lemma NothingYet(g: Graph)
    ensures Level(g, 0) == {} && Layered(g, 0) == []
  {
  }

  /** Once every node is complete, further rounds emit nothing; and that is so after
      at most as many rounds as there are nodes. */
  lemma {:induction false} FullStays(g: Graph, m: nat, n: nat)
    requires m <= n && Level(g, m) == g.Keys
    ensures Level(g, n) == g.Keys && Layered(g, n) == Layered(g, m)
    decreases n - m
  {
    if m < n {
      FullStays(g, m, n - 1);
      LevelMonotone(g, n - 1, n);
      assert SortedSeq({}) == [];
      assert Level(g, n) - Level(g, n - 1) == {};
    }
  }

  lemma {:induction false} LevelGrows(g: Graph, n: nat)
    requires Closed(g) && Acyclic(g)
    ensures Level(g, n) == g.Keys || |Level(g, n)| >= n
    decreases n
  {
    if n > 0 {
      LevelGrows(g, n - 1);
      LevelMonotone(g, n - 1, n);
      if Level(g, n - 1) == Level(g, n) {
        StuckIff(g, n - 1);
      } else {
        SubsetSmaller(Level(g, n - 1), Level(g, n));
      }
    }
  }

  lemma SubsetSmaller(a: set<nat>, b: set<nat>)
    requires a < b
    ensures |a| < |b|
  {
    assert b == a + (b - a);
  }

  lemma FullAtSize(g: Graph)
    requires Closed(g) && Acyclic(g)
    ensures Level(g, |g|) == g.Keys
  {
    LevelGrows(g, |g|);
    if Level(g, |g|) != g.Keys {
      SubsetSmaller(Level(g, |g|), g.Keys);
    }
  }

  lemma FullOrder(g: Graph, n: nat)
    requires Level(g, n) == g.Keys
    ensures Layered(g, n) == Order(g)
  {
    FullLevelIsDag(g, n);
    FullAtSize(g);
    if n <= |g| {
      FullStays(g, n, |g|);
    } else {
      FullStays(g, |g|, n);
    }
  }

  // ----- what the order is -----

  lemma NothingLayered(g: Graph)
    ensures Elements(Layered(g, 0)) == Level(g, 0)
  {
  }

  lemma {:induction false} LayeredHolds(g: Graph, n: nat)
    ensures Elements(Layered(g, n)) == Level(g, n)
    decreases n
  {
    hide Level, SortedSeq, Elements;
    if n == 0 {
      NothingLayered(g);
    } else {
      LayeredHolds(g, n - 1);
      LevelMonotone(g, n - 1, n);
      var layer := Level(g, n) - Level(g, n - 1);
      SortedSeqSorts(layer);
      ElementsJoin(Layered(g, n - 1), SortedSeq(layer));
    }
  }

  lemma ElementsJoin(a: seq<nat>, b: seq<nat>)
    ensures Elements(a + b) == Elements(a) + Elements(b)
  {
    assert forall k :: 0 <= k < |a| ==> (a + b)[k] == a[k];
    assert forall k :: 0 <= k < |b| ==> (a + b)[|a| + k] == b[k];
  }

  /** x comes before y: its longest dependency chain is shorter, or equally long and
      its key is smaller. */
  ghost predicate Precedes(g: Graph, x: nat, y: nat) {
    exists m, n :: LongestChain(g, x, m) && LongestChain(g, y, n) && (m < n || (m == n && x < y))
  }

  lemma LayersPrecede(g: Graph, x: nat, y: nat, m: nat, n: nat)
    requires InLayer(g, x, m) && InLayer(g, y, n) && (m < n || (m == n && x < y))
    ensures Precedes(g, x, y)
  {
    InLayerIff(g, x, m);
    InLayerIff(g, y, n);
  }

  ghost predicate InOrder(g: Graph, s: seq<nat>) {
    forall i, j :: 0 <= i < j < |s| ==> Precedes(g, s[i], s[j])
  }

  lemma {:induction false} HasLayer(g: Graph, k: nat, n: nat) returns (m: nat)
    requires k in Level(g, n)
    ensures m <= n && InLayer(g, k, m)
    decreases n
  {
    if k in Level(g, n - 1) {
      m := HasLayer(g, k, n - 1);
    } else {
      m := n;
    }
  }

  lemma JoinInOrder(g: Graph, a: seq<nat>, b: seq<nat>, n: nat)
    requires n > 0 && InOrder(g, a) && Elements(a) == Level(g, n - 1)
    requires Ascending(b) && Elements(b) == Level(g, n) - Level(g, n - 1)
    ensures InOrder(g, a + b)
  {
    hide Precedes, InLayer, Level;
    var s := a + b;
    forall i, j | 0 <= i < j < |s|
      ensures Precedes(g, s[i], s[j])
    {
      if j < |a| {
        assert s[i] == a[i] && s[j] == a[j];
      } else {
        InNextLayer(g, b, n, j - |a|);
        if i < |a| {
          assert s[i] == a[i] && s[i] in Elements(a);
          var m := HasLayer(g, s[i], n - 1);
          LayersPrecede(g, s[i], s[j], m, n);
        } else {
          InNextLayer(g, b, n, i - |a|);
          LayersPrecede(g, s[i], s[j], n, n);
        }
      }
    }
  }

  lemma InNextLayer(g: Graph, b: seq<nat>, n: nat, i: nat)
    requires n > 0 && Elements(b) == Level(g, n) - Level(g, n - 1) && i < |b|
    ensures InLayer(g, b[i], n)
  {
    assert b[i] in Elements(b);
    hide Level;
  }

  lemma {:induction false} LayeredInOrder(g: Graph, n: nat)
    ensures InOrder(g, Layered(g, n))
    decreases n
  {
    if n > 0 {
      LayeredInOrder(g, n - 1);
      LayeredHolds(g, n - 1);
      SortedSeqSorts(Level(g, n) - Level(g, n - 1));
      hide Level, SortedSeq, InOrder;
      JoinInOrder(g, Layered(g, n - 1), SortedSeq(Level(g, n) - Level(g, n - 1)), n);
    }
  }

  /** The order lists every node once, by longest dependency chain and then by key. */
  lemma OrderIsSorted(g: Graph)
    requires Closed(g) && Acyclic(g)
    ensures Elements(Order(g)) == g.Keys
    ensures InOrder(g, Order(g))
    ensures forall i, j :: 0 <= i < j < |Order(g)| ==> Order(g)[i] != Order(g)[j]
  {
    FullAtSize(g);
    LayeredHolds(g, |g|);
    LayeredInOrder(g, |g|);
    forall i, j | 0 <= i < j < |Order(g)|
      ensures Order(g)[i] != Order(g)[j]
    {
      PrecedesIsStrict(g, Order(g)[i], Order(g)[j]);
    }
  }

  lemma LongestIsUnique(g: Graph, k: nat, m: nat, n: nat)
    requires LongestChain(g, k, m) && LongestChain(g, k, n)
    ensures m == n
  {
  }

  lemma PrecedesIsStrict(g: Graph, x: nat, y: nat)
    requires Precedes(g, x, y)
    ensures x != y && !Precedes(g, y, x)
  {
    var m, n :| LongestChain(g, x, m) && LongestChain(g, y, n) && (m < n || (m == n && x < y));
    forall m', n' | LongestChain(g, y, m') && LongestChain(g, x, n')
      ensures m' == n && n' == m
    {
      LongestIsUnique(g, y, m', n);
      LongestIsUnique(g, x, n', m);
    }
  }

  /** These properties leave no choice: the order is the only list with them. */
  lemma {:induction false} OrderIsUnique(g: Graph, s: seq<nat>, t: seq<nat>)
    requires InOrder(g, s) && InOrder(g, t) && Elements(s) == Elements(t)
    ensures s == t
    decreases |s|
  {
    hide Precedes;
    assert s != [] ==> s[0] in Elements(s);
    assert t != [] ==> t[0] in Elements(t);
    if s != [] {
      var k :| 0 <= k < |t| && t[k] == s[0];
      var l :| 0 <= l < |s| && s[l] == t[0];
      assert 0 < k ==> Precedes(g, t[0], t[k]);
      assert 0 < l ==> Precedes(g, s[0], s[l]);
      if 0 < k {
        PrecedesIsStrict(g, t[0], t[k]);
      }
      if 0 < l {
        PrecedesIsStrict(g, s[0], s[l]);
      }
      assert s[0] == t[0];
      HeadApart(g, s);
      HeadApart(g, t);
      OrderIsUnique(g, s[1..], t[1..]);
      assert s == [s[0]] + s[1..] && t == [t[0]] + t[1..];
    }
  }

  lemma HeadApart(g: Graph, s: seq<nat>)
    requires s != [] && InOrder(g, s)
    ensures InOrder(g, s[1..]) && Elements(s[1..]) == Elements(s) - {s[0]}
  {
    var rest := s[1..];
    assert forall k :: 0 <= k < |rest| ==> rest[k] == s[k + 1];
    forall k | 0 <= k < |rest|
      ensures rest[k] != s[0]
    {
      PrecedesIsStrict(g, s[0], s[k + 1]);
    }
    assert s == [s[0]] + rest;
    ElementsJoin([s[0]], rest);
  }

  /** Every dependency is listed before the node that has it. */
  lemma DependenciesFirst(g: Graph, i: nat, d: nat)
    requires Closed(g) && Acyclic(g) && i < |Order(g)| && Order(g)[i] in g && d in g[Order(g)[i]]
    ensures exists j :: 0 <= j < i && Order(g)[j] == d
  {
    OrderIsSorted(g);
    var s := Order(g);
    assert s[i] in Elements(s);
    DependencyPrecedes(g, s[i], d);
    hide Order, Precedes, Closed, Acyclic;
    var j :| 0 <= j < |s| && s[j] == d;
    PrecedesIsStrict(g, d, s[i]);
    assert forall l :: i < l < |s| ==> Precedes(g, s[i], s[l]);
  }

  lemma DependencyPrecedes(g: Graph, k: nat, d: nat)
    requires Closed(g) && Acyclic(g) && k in g && d in g[k]
    ensures Precedes(g, d, k) && d in g
  {
    FullAtSize(g);
    var n := HasLayer(g, k, |g|);
    var m := HasLayer(g, d, n - 1);
    LayersPrecede(g, d, k, m, n);
  }

  // ----- when there is an order -----

  /** Every node once, each behind its dependencies. */
  ghost predicate ListsFirst(g: Graph, s: seq<nat>) {
    && Elements(s) == g.Keys
    && (forall i, j :: 0 <= i < j < |s| ==> s[i] != s[j])
    && (forall i, d :: 0 <= i < |s| && s[i] in g && d in g[s[i]] ==> Earlier(s, i, d))
  }

  /** k is listed in front of position n. */
  ghost predicate Earlier(s: seq<nat>, n: nat, k: nat) {
    exists m :: 0 <= m < n && m < |s| && s[m] == k
  }

  lemma OrderListsFirst(g: Graph)
    requires Closed(g) && Acyclic(g)
    ensures ListsFirst(g, Order(g))
  {
    OrderIsSorted(g);
    forall i, d | 0 <= i < |Order(g)| && Order(g)[i] in g && d in g[Order(g)[i]]
      ensures Earlier(Order(g), i, d)
    {
      DependenciesFirst(g, i, d);
    }
  }

  lemma {:induction false} ListedIsComplete(g: Graph, s: seq<nat>, n: nat)
    requires ListsFirst(g, s) && n <= |s|
    ensures forall i :: 0 <= i < n ==> s[i] in Level(g, n)
  {
    if n > 0 {
      ListedIsComplete(g, s, n - 1);
      LevelMonotone(g, n - 1, n);
      var k := s[n - 1];
      assert k in Elements(s);
      forall d | d in g[k]
        ensures d in Level(g, n - 1)
      {
        assert Earlier(s, n - 1, d);
      }
    }
  }

  /** There is such a list exactly when the graph is closed and acyclic. */
  lemma ListedIsDag(g: Graph, s: seq<nat>)
    requires ListsFirst(g, s)
    ensures Closed(g) && Acyclic(g)
  {
    ListedIsComplete(g, s, |s|);
    forall k | k in g
      ensures k in Level(g, |s|)
    {
      assert k in Elements(s);
      var i :| 0 <= i < |s| && s[i] == k;
    }
    FullLevelIsDag(g, |s|);
  }
}
