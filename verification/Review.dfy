/** Captured atoms, the dependencies between them, and the connected components into
    which planning divides them.
 */
module Review {
  import opened Model
  import opened TopologicalOrder

  datatype DependencyKind = Hard | Causal | Import | Test | Configuration

  type U16 = n: nat | n < 0x1_0000

  datatype AtomDependency = AtomDependency(from: AtomId, to: AtomId, kind: DependencyKind, confidenceMilli: U16)

  datatype ReviewUnit = ReviewUnit(id: nat, atoms: set<AtomId>, dependsOn: set<nat>, confidenceMilli: nat)

  /** The unit identifier: a digest of the atom set, assumed free of collisions. */
  ghost predicate Injective(unitId: set<AtomId> -> nat) {
    forall a, b :: unitId(a) == unitId(b) ==> a == b
  }

  // ----- connected components -----

  /** The hard neighbours of an atom, in either direction. */
  function Neighbours(deps: seq<AtomDependency>, a: AtomId): set<AtomId> {
    (set d | d in deps && d.kind.Hard? && d.from == a :: d.to)
    + (set d | d in deps && d.kind.Hard? && d.to == a :: d.from)
  }

  /** A walk inside `ids` along hard dependencies. */
  ghost predicate IsWalk(deps: seq<AtomDependency>, ids: set<AtomId>, p: seq<AtomId>) {
    && p != []
    && (forall i :: 0 <= i < |p| ==> p[i] in ids)
    && (forall i :: 0 <= i < |p| - 1 ==> p[i + 1] in Neighbours(deps, p[i]))
  }

  ghost predicate Connected(deps: seq<AtomDependency>, ids: set<AtomId>, a: AtomId, b: AtomId) {
    exists p :: IsWalk(deps, ids, p) && p[0] == a && p[|p| - 1] == b
  }

  lemma ConnectedSelf(deps: seq<AtomDependency>, ids: set<AtomId>, a: AtomId)
    requires a in ids
    ensures Connected(deps, ids, a, a)
  {
    assert IsWalk(deps, ids, [a]) && [a][0] == a;
  }

  lemma ConnectedStep(deps: seq<AtomDependency>, ids: set<AtomId>, a: AtomId, b: AtomId, c: AtomId)
    requires Connected(deps, ids, a, b) && c in Neighbours(deps, b) && c in ids
    ensures Connected(deps, ids, a, c)
  {
    var p :| IsWalk(deps, ids, p) && p[0] == a && p[|p| - 1] == b;
    var q := p + [c];
    assert forall i :: 0 <= i < |p| ==> q[i] == p[i];
    assert IsWalk(deps, ids, q) && q[0] == a && q[|q| - 1] == c;
  }

  /** A set that holds all its neighbours within ids is never left by a walk. */
  ghost predicate Saturated(deps: seq<AtomDependency>, ids: set<AtomId>, s: set<AtomId>) {
    forall x, y :: x in s && y in Neighbours(deps, x) && y in ids ==> y in s
  }

  lemma {:induction false} WalkStays(deps: seq<AtomDependency>, ids: set<AtomId>, s: set<AtomId>, p: seq<AtomId>)
    requires Saturated(deps, ids, s) && IsWalk(deps, ids, p) && p[0] in s
    ensures p[|p| - 1] in s
    decreases |p|
  {
    if |p| > 1 {
      var rest := p[1..];
      assert p[0 + 1] in Neighbours(deps, p[0]);
      assert forall i :: 0 <= i < |rest| ==> rest[i] == p[i + 1];
      assert IsWalk(deps, ids, rest);
      WalkStays(deps, ids, s, rest);
    }
  }

  lemma NeighboursSymmetric(deps: seq<AtomDependency>, a: AtomId, b: AtomId)
    requires b in Neighbours(deps, a)
    ensures a in Neighbours(deps, b)
  {
  }

  lemma ConnectedBack(deps: seq<AtomDependency>, ids: set<AtomId>, a: AtomId, b: AtomId)
    requires Connected(deps, ids, a, b)
    ensures Connected(deps, ids, b, a)
  {
    var p :| IsWalk(deps, ids, p) && p[0] == a && p[|p| - 1] == b;
    var q := seq(|p|, i requires 0 <= i < |p| => p[|p| - 1 - i]);
    forall i | 0 <= i < |q| - 1
      ensures q[i + 1] in Neighbours(deps, q[i])
    {
      var j := |p| - 2 - i;
      assert p[j + 1] in Neighbours(deps, p[j]);
      NeighboursSymmetric(deps, p[j], p[j + 1]);
    }
    assert IsWalk(deps, ids, q) && q[0] == b && q[|q| - 1] == a;
  }

  lemma ConnectedJoin(deps: seq<AtomDependency>, ids: set<AtomId>, a: AtomId, b: AtomId, c: AtomId)
    requires Connected(deps, ids, a, b) && Connected(deps, ids, b, c)
    ensures Connected(deps, ids, a, c)
  {
    var s := set x | x in ids && Connected(deps, ids, a, x);
    forall x, y | x in s && y in Neighbours(deps, x) && y in ids
      ensures y in s
    {
      ConnectedStep(deps, ids, a, x, y);
    }
    var p :| IsWalk(deps, ids, p) && p[0] == b && p[|p| - 1] == c;
    WalkStays(deps, ids, s, p);
  }

  /** The component of `start`: everything connected to it, and nothing else. */
  ghost predicate IsComponent(deps: seq<AtomDependency>, ids: set<AtomId>, start: AtomId, part: set<AtomId>) {
    && start in part && part <= ids
    && forall b :: b in ids ==> (b in part <==> Connected(deps, ids, start, b))
  }

  /** The loop invariant of the search from `start`. */
  ghost predicate Searching(deps: seq<AtomDependency>, ids: set<AtomId>, start: AtomId, part: set<AtomId>,
                            queue: seq<AtomId>) {
    && (start in part || start in queue)
    && (forall x :: x in part || (x in queue && x in ids) ==> Connected(deps, ids, start, x))
    && (forall x, y :: x in part && y in Neighbours(deps, x) && y in ids ==> y in part || y in queue)
  }

  lemma Skip(deps: seq<AtomDependency>, ids: set<AtomId>, start: AtomId, part: set<AtomId>, queue: seq<AtomId>)
    requires Searching(deps, ids, start, part, queue) && queue != [] && (queue[0] in part || queue[0] !in ids)
    requires start in ids
    ensures Searching(deps, ids, start, part, queue[1..])
  {
    hide Neighbours;
    assert queue == [queue[0]] + queue[1..];
    assert forall x :: x in queue <==> x == queue[0] || x in queue[1..];
  }

  lemma Visit(deps: seq<AtomDependency>, ids: set<AtomId>, start: AtomId, part: set<AtomId>, queue: seq<AtomId>,
              more: seq<AtomId>)
    requires Searching(deps, ids, start, part, queue) && queue != [] && queue[0] in ids
    requires forall x :: x in more <==> x in Neighbours(deps, queue[0])
    ensures Searching(deps, ids, start, part + {queue[0]}, queue[1..] + more)
  {
    hide Neighbours;
    var current, next := queue[0], queue[1..] + more;
    assert queue == [current] + queue[1..];
    assert forall x :: x in queue <==> x == current || x in queue[1..];
    assert forall x :: x in next <==> x in queue[1..] || x in more;
    forall x | x in more && x in ids
      ensures Connected(deps, ids, start, x)
    {
      ConnectedStep(deps, ids, start, current, x);
    }
  }

  function SortedAtoms(s: set<AtomId>): (r: seq<AtomId>)
    ensures forall x :: x in r <==> x in s
  {
    SortedSeqSorts(s);
    var sorted := SortedSeq(s);
    assert forall x :: x in sorted <==> x in Elements(sorted);
    assert forall k :: 0 <= k < |sorted| ==> sorted[k] in s;
    sorted
  }

  /** One pass of the queue: the component of `start` leaves the remaining atoms. */
  method Component(deps: seq<AtomDependency>, adj: map<AtomId, set<AtomId>>, ghost ids: set<AtomId>,
                   before: set<AtomId>, start: AtomId)
    returns (part: set<AtomId>, left: set<AtomId>)
    requires start in before && before <= ids && Saturated(deps, ids, before)
    requires adj.Keys == ids && forall a :: a in ids ==> adj[a] == Neighbours(deps, a)
    ensures IsComponent(deps, ids, start, part) && part <= before && left == before - part
    ensures Saturated(deps, ids, left)
  {
    hide Searching, Neighbours, Connected, Saturated, IsComponent;
    var queue: seq<AtomId> := [start];
    part := {};
    left := before;
    SearchStarts(deps, ids, start);
    while queue != []
      invariant part <= before && left == before - part
      invariant Searching(deps, ids, start, part, queue)
      invariant forall x :: x in queue && x in ids ==> x in before
      decreases |left|, |queue|
    {
      var current := queue[0];
      assert current in queue;
      if current in left {
        left := left - {current};
        var edges := if current in adj then adj[current] else {};
        Visit(deps, ids, start, part, queue, SortedAtoms(edges));
        EdgesStay(deps, ids, before, current, queue, SortedAtoms(edges));
        part := part + {current};
        queue := queue[1..] + SortedAtoms(edges);
      } else {
        Skip(deps, ids, start, part, queue);
        queue := queue[1..];
      }
    }
    SearchEnds(deps, ids, start, part, before);
  }

  lemma SearchStarts(deps: seq<AtomDependency>, ids: set<AtomId>, start: AtomId)
    requires start in ids
    ensures Searching(deps, ids, start, {}, [start])
  {
    ConnectedSelf(deps, ids, start);
  }

  lemma EdgesStay(deps: seq<AtomDependency>, ids: set<AtomId>, before: set<AtomId>, current: AtomId,
                  queue: seq<AtomId>, more: seq<AtomId>)
    requires queue != [] && queue[0] == current && current in before && Saturated(deps, ids, before)
    requires forall x :: x in queue && x in ids ==> x in before
    requires forall x :: x in more <==> x in Neighbours(deps, current)
    ensures forall x :: x in queue[1..] + more && x in ids ==> x in before
  {
    assert forall x :: x in queue[1..] + more ==> x in queue || x in more;
  }

  lemma SearchEnds(deps: seq<AtomDependency>, ids: set<AtomId>, start: AtomId, part: set<AtomId>, before: set<AtomId>)
    requires Searching(deps, ids, start, part, []) && part <= before <= ids && Saturated(deps, ids, before)
    ensures IsComponent(deps, ids, start, part) && Saturated(deps, ids, before - part)
  {
    PartIsComponent(deps, ids, start, part);
    forall x, y | x in before - part && y in Neighbours(deps, x) && y in ids
      ensures y in before - part
    {
      NeighboursSymmetric(deps, x, y);
    }
  }

  lemma PartIsComponent(deps: seq<AtomDependency>, ids: set<AtomId>, start: AtomId, part: set<AtomId>)
    requires start in part && part <= ids && Saturated(deps, ids, part)
    requires forall x :: x in part ==> Connected(deps, ids, start, x)
    ensures IsComponent(deps, ids, start, part)
  {
    forall b | b in ids && Connected(deps, ids, start, b)
      ensures b in part
    {
      var p :| IsWalk(deps, ids, p) && p[0] == start && p[|p| - 1] == b;
      WalkStays(deps, ids, part, p);
    }
  }

  /** Exactly the connected components, each listed where its least atom comes. */
  ghost predicate AreComponents(deps: seq<AtomDependency>, ids: set<AtomId>, parts: seq<set<AtomId>>,
                                covered: set<AtomId>) {
    && (forall i :: 0 <= i < |parts| ==> parts[i] != {} && IsComponent(deps, ids, Min(parts[i]), parts[i]))
    && (forall i, j :: 0 <= i < j < |parts| ==> parts[i] !! parts[j] && Min(parts[i]) < Min(parts[j]))
    && (forall a :: a in covered <==> InSomePart(parts, a))
  }

  ghost predicate InSomePart(parts: seq<set<AtomId>>, a: AtomId) {
    exists i :: 0 <= i < |parts| && a in parts[i]
  }

  lemma InSomePartSnoc(parts: seq<set<AtomId>>, part: set<AtomId>, a: AtomId)
    ensures InSomePart(parts + [part], a) <==> InSomePart(parts, a) || a in part
  {
    var all := parts + [part];
    if InSomePart(parts, a) {
      var i :| 0 <= i < |parts| && a in parts[i];
      assert a in all[i];
    }
    assert a in part ==> a in all[|parts|];
  }

  method HardComponents(atoms: seq<ChangeAtom>, deps: seq<AtomDependency>) returns (parts: seq<set<AtomId>>)
    ensures AreComponents(deps, AtomIds(atoms), parts, AtomIds(atoms))
  {
    var ids := AtomIds(atoms);
    var adj := map a | a in ids :: Neighbours(deps, a);
    var left := ids;
    parts := [];
    while left != {}
      invariant left <= ids && Saturated(deps, ids, left)
      invariant AreComponents(deps, ids, parts, ids - left)
      invariant forall i, a :: 0 <= i < |parts| && a in left ==> Min(parts[i]) < a
      decreases |left|
    {
      var start := Min(left);
      var part, rest := Component(deps, adj, ids, left, start);
      AddComponent(deps, ids, parts, left, part);
      parts := parts + [part];
      left := rest;
    }
    assert ids - left == ids;
  }

  lemma AddComponent(deps: seq<AtomDependency>, ids: set<AtomId>, parts: seq<set<AtomId>>, left: set<AtomId>,
                     part: set<AtomId>)
    requires left <= ids && left != {} && part <= left && AreComponents(deps, ids, parts, ids - left)
    requires forall i, a :: 0 <= i < |parts| && a in left ==> Min(parts[i]) < a
    requires IsComponent(deps, ids, Min(left), part)
    ensures AreComponents(deps, ids, parts + [part], ids - (left - part))
    ensures forall i, a :: 0 <= i < |parts| + 1 && a in left - part ==> Min((parts + [part])[i]) < a
  {
    assert Min(part) == Min(left);
    hide IsComponent, Min;
    var all := parts + [part];
    assert forall i :: 0 <= i < |parts| ==> all[i] == parts[i];
    PartsStayApart(deps, ids, parts, left, part);
    forall a
      ensures a in ids - (left - part) <==> InSomePart(all, a)
    {
      InSomePartSnoc(parts, part, a);
    }
  }

  lemma PartsStayApart(deps: seq<AtomDependency>, ids: set<AtomId>, parts: seq<set<AtomId>>, left: set<AtomId>,
                       part: set<AtomId>)
    requires part != {} && part <= left && Min(part) in left && AreComponents(deps, ids, parts, ids - left)
    requires forall i, a :: 0 <= i < |parts| && a in left ==> Min(parts[i]) < a
    ensures
      var all := parts + [part];
      forall i, j :: 0 <= i < j < |all| ==> all[i] !! all[j] && Min(all[i]) < Min(all[j])
  {
    hide IsComponent, Min;
    var all := parts + [part];
    forall i, j | 0 <= i < j < |all|
      ensures all[i] !! all[j] && Min(all[i]) < Min(all[j])
    {
      assert all[i] == parts[i];
      if j == |parts| {
        forall a | a in parts[i]
          ensures a !in left
        {
          assert InSomePart(parts, a);
        }
      }
    }
  }
}
