/** What it is to order the entries of a list that carry an identifier and name others:
    of two entries with one identifier the later counts.
 */
module KeyedOrders {
  import opened Dag
  import opened TopologicalOrder
  import opened KeyedLists

  /** Position n of the order holds k, behind everything k needs. */
  ghost predicate Placed(order: seq<nat>, n: nat, k: nat, needs: set<nat>) {
    n < |order| && order[n] == k && forall d :: d in needs ==> Earlier(order, n, d)
  }

  ghost predicate HasLast(keys: seq<nat>, k: nat) {
    exists i: nat :: Last(keys, i) && keys[i] == k
  }

  /** The keys of the last entries, each once and behind everything its entry needs. */
  ghost predicate IsOrder(keys: seq<nat>, needs: seq<set<nat>>, order: seq<nat>)
    requires |needs| == |keys|
  {
    && (forall m, n :: 0 <= m < n < |order| ==> order[m] != order[n])
    && (forall i: nat :: Last(keys, i) ==> exists n: nat :: Placed(order, n, keys[i], needs[i]))
    && (forall n: nat :: n < |order| ==> HasLast(keys, order[n]))
  }

  /** The graph in which every last entry depends on what it needs. */
  ghost predicate IsGraph(g: Graph, keys: seq<nat>, needs: seq<set<nat>>)
    requires |needs| == |keys|
  {
    && (forall i: nat :: Last(keys, i) ==> keys[i] in g && g[keys[i]] == needs[i])
    && (forall k :: k in g ==> HasLast(keys, k))
  }

  lemma OrderIsListing(g: Graph, keys: seq<nat>, needs: seq<set<nat>>, order: seq<nat>)
    requires |needs| == |keys| && IsGraph(g, keys, needs) && IsOrder(keys, needs, order)
    ensures ListsFirst(g, order)
  {
    forall k
      ensures k in Elements(order) <==> k in g
    {
      if k in g {
        var i: nat :| Last(keys, i) && keys[i] == k;
        var n: nat :| Placed(order, n, keys[i], needs[i]);
      }
    }
    forall n, d | 0 <= n < |order| && order[n] in g && d in g[order[n]]
      ensures Earlier(order, n, d)
    {
      var i: nat :| Last(keys, i) && keys[i] == order[n];
      var m: nat :| Placed(order, m, keys[i], needs[i]);
      assert m == n;
    }
  }

  lemma ListingIsOrder(g: Graph, keys: seq<nat>, needs: seq<set<nat>>, order: seq<nat>)
    requires |needs| == |keys| && IsGraph(g, keys, needs) && ListsFirst(g, order)
    ensures IsOrder(keys, needs, order)
  {
    forall i: nat | Last(keys, i)
      ensures exists n: nat :: Placed(order, n, keys[i], needs[i])
    {
      assert keys[i] in Elements(order);
      var n: nat :| n < |order| && order[n] == keys[i];
      forall d | d in needs[i]
        ensures Earlier(order, n, d)
      {
        assert d in g[order[n]];
      }
      assert Placed(order, n, keys[i], needs[i]);
    }
    forall n: nat | n < |order|
      ensures HasLast(keys, order[n])
    {
      assert order[n] in Elements(order);
    }
  }

  /** The layered order is such an order, and where the layers get stuck there is none. */
  lemma OrderedIff(g: Graph, keys: seq<nat>, needs: seq<set<nat>>)
    requires |needs| == |keys| && IsGraph(g, keys, needs)
    ensures Closed(g) && Acyclic(g) ==> IsOrder(keys, needs, Order(g))
    ensures forall order :: IsOrder(keys, needs, order) ==> Closed(g) && Acyclic(g)
  {
    if Closed(g) && Acyclic(g) {
      OrderListsFirst(g);
      ListingIsOrder(g, keys, needs, Order(g));
    }
    forall order | IsOrder(keys, needs, order)
      ensures Closed(g) && Acyclic(g)
    {
      OrderIsListing(g, keys, needs, order);
      ListedIsDag(g, order);
    }
  }
}
