/** What merging nodes of a dependency graph, and splitting one, does to its cycles. */
module DagSurgery {
  import opened Dag

  /** Dependencies on merged nodes become a dependency on the new node m. */
  function Redirect(deps: set<nat>, s: set<nat>, m: nat): set<nat> {
    if deps * s != {} then deps - s + {m} else deps
  }

  function Union(g: Graph, s: set<nat>): set<nat> {
    set k, d | k in s && k in g && d in g[k] :: d
  }

  /** The graph with the nodes of s merged into m; dependencies inside s disappear. */
  function Quotient(g: Graph, s: set<nat>, m: nat): Graph {
    map k | k in g.Keys - s + {m} :: if k == m then Union(g, s) - s else Redirect(g[k], s, m)
  }

  /** A chain between two merged nodes that passes through a node outside. */
  ghost predicate Escape(g: Graph, s: set<nat>, p: seq<nat>) {
    && IsChain(g, p) && p[0] in s && p[|p| - 1] in s
    && exists i :: 0 <= i < |p| && p[i] !in s
  }

  ghost predicate NoEscape(g: Graph, s: set<nat>) {
    forall p :: !Escape(g, s, p)
  }

  /** An escape that leaves s in its first step and comes back in its last. */
  ghost predicate TightEscape(g: Graph, s: set<nat>, p: seq<nat>) {
    && IsChain(g, p) && |p| >= 3 && p[0] in s && p[|p| - 1] in s
    && forall i :: 0 < i < |p| - 1 ==> p[i] !in s
  }

  lemma {:induction false} LastInside(p: seq<nat>, s: set<nat>, i: nat) returns (a: nat)
    requires i < |p| && p[0] in s && p[i] !in s
    ensures a < i && p[a] in s && forall j :: a < j <= i ==> p[j] !in s
    decreases i
  {
    if p[i - 1] in s {
      a := i - 1;
    } else {
      a := LastInside(p, s, i - 1);
    }
  }

  lemma {:induction false} FirstInside(p: seq<nat>, s: set<nat>, i: nat) returns (b: nat)
    requires i < |p| && p[|p| - 1] in s && p[i] !in s
    ensures i < b < |p| && p[b] in s && forall j :: i <= j < b ==> p[j] !in s
    decreases |p| - i
  {
    if p[i + 1] in s {
      b := i + 1;
    } else {
      b := FirstInside(p, s, i + 1);
    }
  }

  lemma Tighten(g: Graph, s: set<nat>, p: seq<nat>) returns (q: seq<nat>)
    requires Escape(g, s, p)
    ensures TightEscape(g, s, q)
  {
    var i :| 0 <= i < |p| && p[i] !in s;
    var a := LastInside(p, s, i);
    var b := FirstInside(p, s, i);
    SubChain(g, p, a, b + 1);
    q := p[a..b + 1];
  }

  /** An escape becomes a cycle through the merged node. */
  lemma EscapeIsCycle(g: Graph, s: set<nat>, m: nat, p: seq<nat>)
    requires s <= g.Keys && Closed(g) && m !in g && TightEscape(g, s, p)
    ensures !Acyclic(Quotient(g, s, m))
  {
    var h := Quotient(g, s, m);
    var last := |p| - 1;
    var q := seq(|p|, i requires 0 <= i < |p| => if 0 < i < last then p[i] else m);
    forall i | 0 <= i < last
      ensures q[i] in h && q[i + 1] in h[q[i]]
    {
      assert p[i] in g && p[i + 1] in g[p[i]];
    }
    assert IsCycle(h, q);
  }

  /** A chain of the quotient from the merged node back to it, with nothing but other
      nodes between, is an escape of the graph. */
  lemma CycleIsEscape(g: Graph, s: set<nat>, m: nat, p: seq<nat>)
    requires s <= g.Keys && Closed(g) && m !in g
    requires IsChain(Quotient(g, s, m), p) && |p| >= 2 && p[0] == m && p[|p| - 1] == m
    requires forall i :: 0 < i < |p| - 1 ==> p[i] != m
    ensures !NoEscape(g, s)
  {
    var h := Quotient(g, s, m);
    var last := |p| - 1;
    assert p[0] in h && p[0 + 1] in h[p[0]];
    assert m !in h[m];
    assert last >= 2;
    var u :| u in s && p[1] in g[u];
    assert p[last - 1] in h && p[last - 1 + 1] in h[p[last - 1]];
    assert m !in g[p[last - 1]];
    var v :| v in g[p[last - 1]] * s;
    SubChain(h, p, 1, last);
    var mid := p[1..last];
    var q := [u] + mid + [v];
    forall i | 0 <= i < |q| - 1
      ensures q[i] in g && q[i + 1] in g[q[i]]
    {
      if 0 < i < |q| - 2 {
        assert mid[i - 1] in g && mid[i - 1 + 1] in g[mid[i - 1]];
      }
    }
    assert p[1] !in s;
    assert q[1] !in s;
    assert Escape(g, s, q);
  }

  /** Some cycle that meets m can be turned so that it begins and ends at m and meets
      it nowhere else. */
  lemma TurnCycle(h: Graph, m: nat, p: seq<nat>, i: nat) returns (q: seq<nat>)
    requires IsCycle(h, p) && i < |p| && p[i] == m
    ensures IsChain(h, q) && |q| >= 2 && q[0] == m && q[|q| - 1] == m
    ensures forall j :: 0 < j < |q| - 1 ==> q[j] != m
  {
    var last := |p| - 1;
    var i' := if i == last then 0 else i;
    var turned := p[i'..last] + p[0..i' + 1];
    forall j | 0 <= j < |turned| - 1
      ensures turned[j] in h && turned[j + 1] in h[turned[j]]
    {
      var l := if j < last - i' then i' + j else j - (last - i');
      assert p[l] in h && p[l + 1] in h[p[l]];
    }
    q := FirstReturn(h, m, turned);
  }

  lemma {:induction false} FirstReturn(h: Graph, m: nat, p: seq<nat>) returns (q: seq<nat>)
    requires IsChain(h, p) && |p| >= 2 && p[0] == m && p[|p| - 1] == m
    ensures IsChain(h, q) && |q| >= 2 && q[0] == m && q[|q| - 1] == m
    ensures forall j :: 0 < j < |q| - 1 ==> q[j] != m
    decreases |p|
  {
    if j :| 0 < j < |p| - 1 && p[j] == m {
      SubChain(h, p, 0, j + 1);
      q := FirstReturn(h, m, p[0..j + 1]);
    } else {
      q := p;
    }
  }

  /** Merging nodes of an acyclic graph keeps it acyclic exactly when no dependency
      chain between two of them passes through a node outside. */
  lemma QuotientAcyclicIff(g: Graph, s: set<nat>, m: nat)
    requires Closed(g) && Acyclic(g) && s <= g.Keys && m !in g
    ensures Acyclic(Quotient(g, s, m)) <==> NoEscape(g, s)
  {
    var h := Quotient(g, s, m);
    if !NoEscape(g, s) {
      var p :| Escape(g, s, p);
      var q := Tighten(g, s, p);
      EscapeIsCycle(g, s, m, q);
    }
    if !Acyclic(h) {
      var p :| IsCycle(h, p);
      if i :| 0 <= i < |p| && p[i] == m {
        var q := TurnCycle(h, m, p, i);
        CycleIsEscape(g, s, m, q);
      } else {
        assert IsCycle(g, p);
      }
    }
  }

  lemma QuotientNoLoops(g: Graph, s: set<nat>, m: nat)
    requires Closed(g) && NoLoops(g) && s <= g.Keys && m !in g
    ensures Closed(Quotient(g, s, m)) && NoLoops(Quotient(g, s, m))
  {
  }

  // ----- splitting -----

  function Spread(deps: set<nat>, u: nat, parts: set<nat>): set<nat> {
    if u in deps then deps - {u} + parts else deps
  }

  /** The graph with u replaced by the parts: each part has u's dependencies, and
      whatever depended on u depends on all of them. */
  function BlowUp(g: Graph, u: nat, parts: set<nat>): Graph
    requires u in g
  {
    map k | k in g.Keys - {u} + parts :: if k in parts then g[u] else Spread(g[k], u, parts)
  }

  lemma BlowUpNoLoops(g: Graph, u: nat, parts: set<nat>)
    requires Closed(g) && NoLoops(g) && u in g && parts * (g.Keys - {u}) == {}
    ensures Closed(BlowUp(g, u, parts)) && NoLoops(BlowUp(g, u, parts))
  {
  }

  /** Splitting a node never makes a cycle. */
  lemma BlowUpAcyclic(g: Graph, u: nat, parts: set<nat>)
    requires Closed(g) && NoLoops(g) && Acyclic(g) && u in g && parts * (g.Keys - {u}) == {}
    ensures Acyclic(BlowUp(g, u, parts))
  {
    var h := BlowUp(g, u, parts);
    forall p
      ensures !IsCycle(h, p)
    {
      if IsCycle(h, p) {
        CycleOfParts(g, u, parts, p);
      }
    }
  }

  lemma CycleOfParts(g: Graph, u: nat, parts: set<nat>, p: seq<nat>)
    requires Closed(g) && u in g && parts * (g.Keys - {u}) == {} && u !in g[u]
    requires IsCycle(BlowUp(g, u, parts), p)
    ensures !Acyclic(g)
  {
    var h := BlowUp(g, u, parts);
    var q := seq(|p|, i requires 0 <= i < |p| => if p[i] in parts then u else p[i]);
    forall i | 0 <= i < |p| - 1
      ensures q[i] in g && q[i + 1] in g[q[i]]
    {
      assert p[i] in h && p[i + 1] in h[p[i]];
    }
    assert IsCycle(g, q);
  }
}
