/** Dependency graphs: a finite map from each node to the nodes it depends on. */
module Dag {
  type Graph = map<nat, set<nat>>

  ghost predicate Closed(g: Graph) {
    forall k :: k in g ==> g[k] <= g.Keys
  }

  ghost predicate NoLoops(g: Graph) {
    forall k :: k in g ==> k !in g[k]
  }

  /** A dependency chain: every node is followed by one of its dependencies. */
  ghost predicate IsChain(g: Graph, p: seq<nat>) {
    && p != []
    && forall i :: 0 <= i < |p| - 1 ==> p[i] in g && p[i + 1] in g[p[i]]
  }

  ghost predicate IsCycle(g: Graph, p: seq<nat>) {
    IsChain(g, p) && |p| >= 2 && p[0] == p[|p| - 1]
  }

  ghost predicate Acyclic(g: Graph) {
    forall p :: !IsCycle(g, p)
  }

  lemma SubChain(g: Graph, p: seq<nat>, a: nat, b: nat)
    requires IsChain(g, p) && a < b <= |p|
    ensures IsChain(g, p[a..b])
  {
    var q := p[a..b];
    forall i | 0 <= i < |q| - 1
      ensures q[i] in g && q[i + 1] in g[q[i]]
    {
      var j := a + i;
      assert p[j] in g && p[j + 1] in g[p[j]];
    }
  }

  /** a is b or depends on it, directly or through others. */
  ghost predicate Leads(g: Graph, a: nat, b: nat) {
    exists p :: IsChain(g, p) && p[0] == a && p[|p| - 1] == b
  }

  lemma LeadsStep(g: Graph, a: nat, b: nat, c: nat)
    requires a in g && b in g[a] && Leads(g, b, c)
    ensures Leads(g, a, c)
  {
    var q :| IsChain(g, q) && q[0] == b && q[|q| - 1] == c;
    var p := [a] + q;
    assert forall i :: 1 <= i < |p| ==> p[i] == q[i - 1];
    assert IsChain(g, p) && p[0] == a && p[|p| - 1] == c;
  }

  lemma {:induction false} LeadsOn(g: Graph, p: seq<nat>, c: nat)
    requires IsChain(g, p) && Leads(g, p[|p| - 1], c)
    ensures Leads(g, p[0], c)
    decreases |p|
  {
    if |p| > 1 {
      SubChain(g, p, 1, |p|);
      assert p[0] in g && p[0 + 1] in g[p[0]];
      LeadsOn(g, p[1..|p|], c);
      LeadsStep(g, p[0], p[1], c);
    }
  }

  lemma LeadsJoin(g: Graph, a: nat, b: nat, c: nat)
    requires Leads(g, a, b) && Leads(g, b, c)
    ensures Leads(g, a, c)
  {
    var p :| IsChain(g, p) && p[0] == a && p[|p| - 1] == b;
    LeadsOn(g, p, c);
  }

  /** Two different nodes that lead to each other lie on a cycle. */
  lemma LeadsBack(g: Graph, a: nat, b: nat)
    requires Leads(g, a, b) && Leads(g, b, a) && a != b
    ensures !Acyclic(g)
  {
    var p :| IsChain(g, p) && p[0] == a && p[|p| - 1] == b;
    assert p[0] in g && p[0 + 1] in g[p[0]];
    SubChain(g, p, 1, |p|);
    LeadsSelf(g, p[1..|p|]);
    LeadsJoin(g, p[1], b, a);
    var q :| IsChain(g, q) && q[0] == p[1] && q[|q| - 1] == a;
    var cycle := [a] + q;
    assert forall i :: 1 <= i < |cycle| ==> cycle[i] == q[i - 1];
    assert IsCycle(g, cycle);
  }

  lemma LeadsSelf(g: Graph, p: seq<nat>)
    requires IsChain(g, p)
    ensures Leads(g, p[0], p[|p| - 1])
  {
  }

  /** What is complete after n rounds that each complete every node whose
      dependencies are complete. */
  function Level(g: Graph, n: nat): (s: set<nat>)
    ensures s <= g.Keys
  {
    if n == 0 then {} else set k | k in g.Keys && g[k] <= Level(g, n - 1)
  }

  lemma {:induction false} LevelMonotone(g: Graph, m: nat, n: nat)
    requires m <= n
    ensures Level(g, m) <= Level(g, n)
    decreases m
  {
    if m > 0 {
      LevelMonotone(g, m - 1, n - 1);
    }
  }

  ghost predicate ChainsFrom(g: Graph, k: nat, n: nat) {
    forall p :: IsChain(g, p) && p[0] == k ==> |p| <= n && forall x :: x in p ==> x in g
  }

  /** A node is complete after n rounds exactly when it is in the graph and no
      dependency chain from it leaves the graph or has more than n nodes. */
  lemma {:induction false} LevelIff(g: Graph, n: nat, k: nat)
    ensures k in Level(g, n) <==> k in g && ChainsFrom(g, k, n)
    decreases n
  {
    if n == 0 {
      assert IsChain(g, [k]);
    } else if k in g {
      forall d | d in g[k]
        ensures d in Level(g, n - 1) <==> d in g && ChainsFrom(g, d, n - 1)
      {
        LevelIff(g, n - 1, d);
      }
      if k in Level(g, n) {
        ChainsShort(g, k, n);
      }
      if ChainsFrom(g, k, n) {
        ChainsShorter(g, k, n);
      }
    }
  }

  lemma ChainsShort(g: Graph, k: nat, n: nat)
    requires n > 0 && k in g && forall d :: d in g[k] ==> d in g && ChainsFrom(g, d, n - 1)
    ensures ChainsFrom(g, k, n)
  {
    forall p | IsChain(g, p) && p[0] == k
      ensures |p| <= n && forall x :: x in p ==> x in g
    {
      if |p| > 1 {
        assert p == [k] + p[1..];
        assert p[0 + 1] in g[p[0]];
        assert IsChain(g, p[1..]);
      }
    }
  }

  lemma ChainsShorter(g: Graph, k: nat, n: nat)
    requires n > 0 && k in g && ChainsFrom(g, k, n)
    ensures forall d :: d in g[k] ==> d in g && ChainsFrom(g, d, n - 1)
  {
    forall d, p | d in g[k] && IsChain(g, p) && p[0] == d
      ensures |p| <= n - 1 && forall x :: x in p ==> x in g
    {
      var q := [k] + p;
      assert forall i :: 1 <= i < |q| ==> q[i] == p[i - 1];
      assert IsChain(g, q);
    }
    forall d | d in g[k]
      ensures d in g
    {
      assert IsChain(g, [k, d]) && d in [k, d];
    }
  }

  /** Along a chain the levels fall. */
  lemma {:induction false} ChainFalls(g: Graph, p: seq<nat>, n: nat)
    requires IsChain(g, p) && p[0] in Level(g, n)
    ensures |p| <= n && p[|p| - 1] in Level(g, n - (|p| - 1))
    decreases |p|
  {
    if |p| > 1 {
      assert p[0 + 1] in g[p[0]];
      assert IsChain(g, p[1..]);
      ChainFalls(g, p[1..], n - 1);
    }
  }

  lemma {:induction false} NoCycleInLevel(g: Graph, p: seq<nat>, n: nat)
    requires IsCycle(g, p)
    ensures p[0] !in Level(g, n)
    decreases n
  {
    if p[0] in Level(g, n) {
      ChainFalls(g, p, n);
      NoCycleInLevel(g, p, n - (|p| - 1));
    }
  }

  lemma {:induction false} Pigeonhole(p: seq<nat>, s: set<nat>) returns (i: nat, j: nat)
    requires (forall x :: x in p ==> x in s) && |p| > |s|
    ensures i < j < |p| && p[i] == p[j]
    decreases |s|
  {
    var last := |p| - 1;
    var x := p[last];
    if k :| 0 <= k < last && p[k] == x {
      i, j := k, last;
    } else {
      assert forall y :: y in p[..last] ==> y in p;
      forall y | y in p[..last]
        ensures y in s - {x}
      {
        var k :| 0 <= k < last && p[k] == y;
      }
      i, j := Pigeonhole(p[..last], s - {x});
    }
  }

  /** From a set in which every node depends on a node of the set there are chains of
      any length inside the set. */
  lemma {:induction false} LongChain(g: Graph, s: set<nat>, k: nat, n: nat) returns (p: seq<nat>)
    requires s <= g.Keys && k in s && forall x :: x in s ==> g[x] * s != {}
    ensures |p| == n + 1 && IsChain(g, p) && p[0] == k && forall x :: x in p ==> x in s
    decreases n
  {
    if n == 0 {
      p := [k];
    } else {
      var d :| d in g[k] * s;
      var rest := LongChain(g, s, d, n - 1);
      p := [k] + rest;
      assert forall i :: 1 <= i < |p| ==> p[i] == rest[i - 1];
    }
  }

  /** A non-empty set in which every node depends on a node of the set holds a cycle. */
  lemma StuckHasCycle(g: Graph, s: set<nat>)
    requires s <= g.Keys && s != {} && forall x :: x in s ==> g[x] * s != {}
    ensures !Acyclic(g)
  {
    var k :| k in s;
    var p := LongChain(g, s, k, |s|);
    var i, j := Pigeonhole(p, s);
    var cycle := p[i..j + 1];
    assert forall l :: 0 <= l < |cycle| ==> cycle[l] == p[i + l];
    forall l | 0 <= l < |cycle| - 1
      ensures cycle[l] in g && cycle[l + 1] in g[cycle[l]]
    {
      var m := i + l;
      assert p[m] in g && p[m + 1] in g[p[m]];
    }
    assert IsCycle(g, cycle);
  }

  /** The rounds get stuck in front of a remainder exactly when the graph is not
      closed or has a cycle. */
  lemma StuckIff(g: Graph, n: nat)
    requires Level(g, n + 1) == Level(g, n)
    ensures Level(g, n) == g.Keys <==> Closed(g) && Acyclic(g)
  {
    var s := g.Keys - Level(g, n);
    if Level(g, n) == g.Keys {
      FullLevelIsDag(g, n);
    } else if Closed(g) {
      forall x | x in s
        ensures g[x] * s != {}
      {
        var d :| d in g[x] && d !in Level(g, n);
        assert d in g[x] * s;
      }
      StuckHasCycle(g, s);
    }
  }

  lemma FullLevelIsDag(g: Graph, n: nat)
    requires Level(g, n) == g.Keys
    ensures Closed(g) && Acyclic(g)
  {
    if n > 0 {
      LevelMonotone(g, n - 1, n);
    }
    forall p
      ensures !IsCycle(g, p)
    {
      assert IsCycle(g, p) ==> p[0] in g;
      if IsCycle(g, p) {
        NoCycleInLevel(g, p, n);
      }
    }
  }

  /** k is completed in round n, not earlier. */
  ghost predicate InLayer(g: Graph, k: nat, n: nat) {
    n > 0 && k in Level(g, n) && k !in Level(g, n - 1)
  }

  /** The longest dependency chain from k has n nodes. */
  ghost predicate LongestChain(g: Graph, k: nat, n: nat) {
    k in g && ChainsFrom(g, k, n) && exists p :: IsChain(g, p) && p[0] == k && |p| == n
  }

  /** The layer of a node is the length of its longest dependency chain. */
  lemma InLayerIff(g: Graph, k: nat, n: nat)
    ensures InLayer(g, k, n) <==> LongestChain(g, k, n)
  {
    LevelIff(g, n, k);
    if n > 0 {
      LevelIff(g, n - 1, k);
      if exists p :: IsChain(g, p) && p[0] == k && |p| == n {
        var p :| IsChain(g, p) && p[0] == k && |p| == n;
        assert !ChainsFrom(g, k, n - 1);
      }
    }
  }
}
