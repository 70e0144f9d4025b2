/** The hash-chained ledger: appending, the time-sorted read of the Git store, and the
    verification of the chain.
 */
module Ledger {
  import opened Wrappers
  import opened CanonicalJson
  import opened JsonReading

  datatype UnsignedEvent = UnsignedEvent(
    id: nat, repository: nat, actor: nat, occurredAt: int, previousHash: Option<nat>, event: string)

  datatype LedgerEvent = LedgerEvent(unsigned: UnsignedEvent, hash: nat, signature: string)

  /** The foreign parts: the JSON document of an event, the older serialization in
      field order, the digest, and the signatures of the actors. */
  datatype Scheme = Scheme(
    document: UnsignedEvent -> Json,
    legacy: UnsignedEvent -> string,
    digest: string -> nat,
    sign: (nat, string) -> string,
    verifies: (string, string, string) -> bool)

  function Canonical(s: Scheme, u: UnsignedEvent): string {
    Text(s.document(u))
  }

  /** Documents determine events, both serializations read back to the event they were
      made of, and digests do not collide. */
  ghost predicate Sound(s: Scheme) {
    && (forall u, v :: s.document(u) == s.document(v) ==> u == v)
    && (forall u, v :: s.legacy(u) == s.legacy(v) ==> u == v)
    && (forall u, v :: s.legacy(u) == Text(s.document(v)) ==> u == v)
    && (forall a, b :: s.digest(a) == s.digest(b) ==> a == b)
  }

  // ----- verify_chain -----

  /** The serialization that the recorded hash belongs to. */
  function HashedBytes(s: Scheme, e: LedgerEvent): Option<string> {
    if s.digest(Canonical(s, e.unsigned)) == e.hash then Some(Canonical(s, e.unsigned))
    else if s.digest(s.legacy(e.unsigned)) == e.hash then Some(s.legacy(e.unsigned))
    else None
  }

  ghost predicate Authentic(s: Scheme, actors: map<nat, string>, e: LedgerEvent) {
    && HashedBytes(s, e).Some?
    && e.unsigned.actor in actors
    && s.verifies(actors[e.unsigned.actor], HashedBytes(s, e).value, e.signature)
  }

  function LastHash(events: seq<LedgerEvent>): Option<nat> {
    if events == [] then None else Some(events[|events| - 1].hash)
  }

  ghost predicate Chained(events: seq<LedgerEvent>) {
    forall i :: 0 <= i < |events| ==> events[i].unsigned.previousHash == LastHash(events[..i])
  }

  ghost predicate Accepted(s: Scheme, actors: map<nat, string>, events: seq<LedgerEvent>) {
    Chained(events) && forall i :: 0 <= i < |events| ==> Authentic(s, actors, events[i])
  }

  lemma AcceptedPrefix(s: Scheme, actors: map<nat, string>, events: seq<LedgerEvent>, n: nat)
    requires Accepted(s, actors, events) && n <= |events|
    ensures Accepted(s, actors, events[..n])
  {
    hide Authentic;
    assert forall i :: 0 <= i < n ==> events[..n][..i] == events[..i];
  }

  lemma AcceptedSnoc(s: Scheme, actors: map<nat, string>, events: seq<LedgerEvent>, e: LedgerEvent)
    ensures Accepted(s, actors, events + [e])
       <==> Accepted(s, actors, events) && e.unsigned.previousHash == LastHash(events) && Authentic(s, actors, e)
  {
    hide Authentic;
    var all := events + [e];
    var n := |events|;
    assert all[n] == e && all[..n] == events;
    assert forall i :: 0 <= i < n ==> all[i] == events[i] && all[..i] == events[..i];
  }

  /** The checks of one event that do not concern its predecessor. */
  method CheckEvent(s: Scheme, event: LedgerEvent, actors: map<nat, string>) returns (ok: bool)
    ensures ok <==> Authentic(s, actors, event)
  {
    var canonical := Canonical(s, event.unsigned);
    var bytes := canonical;
    if s.digest(canonical) != event.hash {
      var legacy := s.legacy(event.unsigned);
      if s.digest(legacy) != event.hash {
        return false;
      }
      bytes := legacy;
    }
    if event.unsigned.actor !in actors {
      return false;
    }
    ok := s.verifies(actors[event.unsigned.actor], bytes, event.signature);
  }

  /** Some serialization of the event has the recorded hash and the actor's signature. */
  ghost predicate Signed(s: Scheme, actors: map<nat, string>, e: LedgerEvent) {
    && e.unsigned.actor in actors
    && exists bytes | bytes in {Text(s.document(e.unsigned)), s.legacy(e.unsigned)} ::
         s.digest(bytes) == e.hash && s.verifies(actors[e.unsigned.actor], bytes, e.signature)
  }

  /** What acceptance means: every event is signed and names the hash of the one before. */
  lemma AcceptedIff(s: Scheme, actors: map<nat, string>, events: seq<LedgerEvent>)
    requires Sound(s)
    ensures Accepted(s, actors, events)
       <==> && (forall i :: 0 <= i < |events| ==> Signed(s, actors, events[i]))
            && (forall i :: 0 <= i < |events| ==>
                  events[i].unsigned.previousHash == if i == 0 then None else Some(events[i - 1].hash))
  {
    hide Signed, Authentic, Sound;
    forall i | 0 <= i < |events|
      ensures Signed(s, actors, events[i]) <==> Authentic(s, actors, events[i])
    {
      SignedIff(s, actors, events[i]);
    }
    forall i | 0 <= i < |events|
      ensures LastHash(events[..i]) == if i == 0 then None else Some(events[i - 1].hash)
    {
    }
  }

  lemma SignedIff(s: Scheme, actors: map<nat, string>, e: LedgerEvent)
    requires Sound(s)
    ensures Signed(s, actors, e) <==> Authentic(s, actors, e)
  {
    var canonical, legacy := Text(s.document(e.unsigned)), s.legacy(e.unsigned);
    assert s.digest(canonical) == s.digest(legacy) ==> canonical == legacy;
  }

  method VerifyChain(s: Scheme, events: seq<LedgerEvent>, actors: map<nat, string>) returns (result: Result<()>)
    ensures result == if Accepted(s, actors, events) then Ok(()) else Err(Integrity)
  {
    hide Accepted, Authentic;
    var previous: Option<nat> := None;
    NothingAccepted(s, actors);
    assert events[..0] == [];
    for i := 0 to |events|
      invariant previous == LastHash(events[..i])
      invariant Accepted(s, actors, events[..i])
    {
      var event := events[i];
      assert events[..i + 1] == events[..i] + [event];
      AcceptedSnoc(s, actors, events[..i], event);
      var authentic := CheckEvent(s, event, actors);
      if event.unsigned.previousHash != previous || !authentic {
        ghost var accepted := Accepted(s, actors, events);
        if accepted {
          AcceptedPrefix(s, actors, events, i + 1);
        }
        return Err(Integrity);
      }
      previous := Some(event.hash);
    }
    assert events[..|events|] == events;
    result := Ok(());
  }

  lemma NothingAccepted(s: Scheme, actors: map<nat, string>)
    ensures Accepted(s, actors, [])
  {
  }

  // ----- the chain fixes the history -----

  lemma SameHashSameEvent(s: Scheme, a: LedgerEvent, b: LedgerEvent)
    requires Sound(s) && HashedBytes(s, a).Some? && HashedBytes(s, b).Some? && a.hash == b.hash
    ensures a.unsigned == b.unsigned
  {
    assert HashedBytes(s, a) == HashedBytes(s, b);
    if HashedBytes(s, a).value == Canonical(s, a.unsigned) && HashedBytes(s, b).value == Canonical(s, b.unsigned) {
      CanonicalIsInjective(s.document(a.unsigned), s.document(b.unsigned));
    }
  }

  function Unsigned(events: seq<LedgerEvent>): seq<UnsignedEvent> {
    seq(|events|, i requires 0 <= i < |events| => events[i].unsigned)
  }

  lemma LastStep(s: Scheme, actors: map<nat, string>, events: seq<LedgerEvent>)
    requires Accepted(s, actors, events) && events != []
    ensures
      var n := |events| - 1;
      && Accepted(s, actors, events[..n]) && events[n].unsigned.previousHash == LastHash(events[..n])
      && HashedBytes(s, events[n]).Some?
  {
    var n := |events| - 1;
    assert Authentic(s, actors, events[n]);
    hide Authentic, LastHash;
    AcceptedPrefix(s, actors, events, n);
  }

  /** Two accepted logs with the same last hash hold the same events. */
  lemma {:induction false} LastHashFixesHistory(s: Scheme, actors: map<nat, string>, others: map<nat, string>,
                                                a: seq<LedgerEvent>, b: seq<LedgerEvent>)
    requires Sound(s) && Accepted(s, actors, a) && Accepted(s, others, b) && LastHash(a) == LastHash(b)
    ensures Unsigned(a) == Unsigned(b)
    decreases |a|
  {
    if a != [] {
      var m, n := |a| - 1, |b| - 1;
      LastStep(s, actors, a);
      LastStep(s, others, b);
      hide Accepted, HashedBytes, Sound, Unsigned;
      SameHashSameEvent(s, a[m], b[n]);
      LastHashFixesHistory(s, actors, others, a[..m], b[..n]);
      UnsignedLast(a);
      UnsignedLast(b);
    }
  }

  lemma UnsignedLast(events: seq<LedgerEvent>)
    requires events != []
    ensures Unsigned(events) == Unsigned(events[..|events| - 1]) + [events[|events| - 1].unsigned]
  {
  }

  // ----- the order of the read -----

  predicate Before(a: LedgerEvent, b: LedgerEvent) {
    var u, v := a.unsigned, b.unsigned;
    if u.occurredAt != v.occurredAt then u.occurredAt < v.occurredAt
    else if u.actor != v.actor then u.actor < v.actor
    else if u.id != v.id then u.id < v.id
    else a.hash < b.hash
  }

  ghost predicate Sorted(events: seq<LedgerEvent>) {
    forall i, j :: 0 <= i < j < |events| ==> Before(events[i], events[j])
  }

  /** The stable `sort_by`. */
  function InsertEvent(e: LedgerEvent, sorted: seq<LedgerEvent>): seq<LedgerEvent> {
    if sorted == [] || !Before(sorted[0], e) then [e] + sorted
    else [sorted[0]] + InsertEvent(e, sorted[1..])
  }

  function SortEvents(events: seq<LedgerEvent>): seq<LedgerEvent> {
    if events == [] then [] else InsertEvent(events[0], SortEvents(events[1..]))
  }

  /** No event shares the place of e in the order, unless it is e. */
  ghost predicate HasOwnPlace(e: LedgerEvent, events: seq<LedgerEvent>) {
    forall o :: o in events ==> Before(e, o) || Before(o, e)
  }

  lemma {:induction false} InsertHolds(e: LedgerEvent, sorted: seq<LedgerEvent>)
    ensures forall o :: o in InsertEvent(e, sorted) <==> o == e || o in sorted
    ensures |InsertEvent(e, sorted)| == |sorted| + 1
    decreases |sorted|
  {
    if sorted != [] {
      assert sorted == [sorted[0]] + sorted[1..];
      InsertHolds(e, sorted[1..]);
    }
  }

  lemma {:induction false} InsertSorts(e: LedgerEvent, sorted: seq<LedgerEvent>)
    requires Sorted(sorted) && HasOwnPlace(e, sorted)
    ensures Sorted(InsertEvent(e, sorted))
    decreases |sorted|
  {
    hide Before;
    if sorted == [] {
      assert [e] + sorted == [e];
    } else {
      var first, rest := sorted[0], sorted[1..];
      SortedRest(sorted);
      assert sorted == [first] + rest;
      if Before(first, e) {
        InsertSorts(e, rest);
        InsertHolds(e, rest);
        SortedCons(first, InsertEvent(e, rest));
      } else {
        assert first in sorted;
        BeforeAll(e, first, rest);
        SortedCons(e, sorted);
      }
    }
  }

  lemma SortedCons(e: LedgerEvent, sorted: seq<LedgerEvent>)
    requires Sorted(sorted) && forall o :: o in sorted ==> Before(e, o)
    ensures Sorted([e] + sorted)
  {
    hide Before;
  }

  lemma SortedRest(sorted: seq<LedgerEvent>)
    requires Sorted(sorted) && sorted != []
    ensures Sorted(sorted[1..]) && forall o :: o in sorted[1..] ==> Before(sorted[0], o)
  {
    hide Before;
  }

  lemma BeforeAll(e: LedgerEvent, first: LedgerEvent, rest: seq<LedgerEvent>)
    requires Before(e, first) && forall o :: o in rest ==> Before(first, o)
    ensures forall o :: o in rest ==> Before(e, o)
  {
  }

  lemma {:induction false} InsertLast(e: LedgerEvent, sorted: seq<LedgerEvent>)
    requires forall o :: o in sorted ==> Before(o, e)
    ensures InsertEvent(e, sorted) == sorted + [e]
    decreases |sorted|
  {
    if sorted != [] {
      assert sorted == [sorted[0]] + sorted[1..];
      InsertLast(e, sorted[1..]);
    }
  }

  /** A sorted list is determined by its elements. */
  lemma {:induction false} SortedIsUnique(a: seq<LedgerEvent>, b: seq<LedgerEvent>)
    requires Sorted(a) && Sorted(b) && forall e :: e in a <==> e in b
    ensures a == b
    decreases |a|
  {
    assert b != [] ==> b[0] in a;
    if a != [] {
      assert a[0] in b;
      var i :| 0 <= i < |b| && b[i] == a[0];
      var j :| 0 <= j < |a| && a[j] == b[0] by { assert b[0] in a; }
      assert i == 0 && j == 0;
      assert a == [a[0]] + a[1..] && b == [b[0]] + b[1..];
      assert a[0] !in a[1..] && b[0] !in b[1..];
      assert forall e :: e in a[1..] <==> e in a && e != a[0];
      assert forall e :: e in b[1..] <==> e in b && e != b[0];
      SortedIsUnique(a[1..], b[1..]);
    }
  }

  lemma {:induction false} SortSorts(events: seq<LedgerEvent>)
    requires forall i, j :: 0 <= i < j < |events| ==> Before(events[i], events[j]) || Before(events[j], events[i])
    ensures Sorted(SortEvents(events)) && forall e :: e in SortEvents(events) <==> e in events
    decreases |events|
  {
    if events != [] {
      var rest := events[1..];
      assert events == [events[0]] + rest;
      assert forall i :: 0 <= i < |rest| ==> rest[i] == events[i + 1];
      SortSorts(rest);
      InsertSorts(events[0], SortEvents(rest));
      InsertHolds(events[0], SortEvents(rest));
    }
  }
}
