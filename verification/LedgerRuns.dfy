/** Runs of the ledger over the Git store: one immutable ref per event, appended to by
    one writer at a time.
 */
module LedgerRuns {
  import opened Wrappers
  import opened CanonicalJson
  import opened Ledger

  type RefName = (nat, nat)

  function NameOf(e: LedgerEvent): RefName {
    (e.unsigned.actor, e.hash)
  }

  ghost predicate WellNamed(refs: map<RefName, LedgerEvent>) {
    forall name :: name in refs ==> NameOf(refs[name]) == name
  }

  /** The sorted list of everything that is stored. */
  ghost predicate IsReading(refs: map<RefName, LedgerEvent>, events: seq<LedgerEvent>) {
    Sorted(events) && forall e :: e in events <==> NameOf(e) in refs && refs[NameOf(e)] == e
  }

  /** What the caller, the clock and the random source supply to one append. */
  datatype Entry = Entry(id: nat, repository: nat, actor: nat, at: int, event: string)

  /** The event that an append makes when the store reads `log`. */
  function Make(s: Scheme, log: seq<LedgerEvent>, entry: Entry): LedgerEvent {
    var unsigned := UnsignedEvent(entry.id, entry.repository, entry.actor, entry.at, LastHash(log), entry.event);
    var bytes := Canonical(s, unsigned);
    LedgerEvent(unsigned, s.digest(bytes), s.sign(entry.actor, bytes))
  }

  /** The event holds what was supplied, the hash of the last event of the read, and the
      digest and the actor's signature of its own document. */
  ghost predicate Carries(s: Scheme, e: LedgerEvent, entry: Entry, log: seq<LedgerEvent>) {
    && e.unsigned.id == entry.id && e.unsigned.repository == entry.repository && e.unsigned.actor == entry.actor
    && e.unsigned.occurredAt == entry.at && e.unsigned.event == entry.event
    && (log == [] ==> e.unsigned.previousHash == None)
    && (log != [] ==> e.unsigned.previousHash == Some(log[|log| - 1].hash))
    && e.hash == s.digest(Text(s.document(e.unsigned)))
    && e.signature == s.sign(entry.actor, Text(s.document(e.unsigned)))
  }

  class GitLedgerStore {
    var refs: map<RefName, LedgerEvent>

    constructor ()
      ensures refs == map[]
    {
      refs := map[];
    }

    /** A ref is written once; writing the same event again changes nothing. */
    method Append(event: LedgerEvent) returns (result: Result<()>)
      modifies this
      ensures
        var name := NameOf(event);
        if name !in old(refs) then result.Ok? && refs == old(refs)[name := event]
        else refs == old(refs) && result == if old(refs)[name] == event then Ok(()) else Err(Integrity)
    {
      var name := NameOf(event);
      if name in refs {
        if refs[name] == event {
          return Ok(());
        }
        return Err(Integrity);
      }
      refs := refs[name := event];
      result := Ok(());
    }

    method ReadAll() returns (events: seq<LedgerEvent>)
      requires WellNamed(refs)
      ensures IsReading(refs, events)
    {
      events := [];
      var names := refs.Keys;
      while names != {}
        invariant names <= refs.Keys
        invariant forall e :: e in events <==> NameOf(e) in refs.Keys - names && refs[NameOf(e)] == e
        invariant forall i, j :: 0 <= i < j < |events| ==> NameOf(events[i]) != NameOf(events[j])
        decreases names
      {
        var name :| name in names;
        assert forall e :: e in events + [refs[name]] <==> e in events || e == refs[name];
        assert forall i :: 0 <= i < |events| ==> events[i] in events;
        events := events + [refs[name]];
        names := names - {name};
      }
      SortSorts(events);
      events := SortEvents(events);
    }
  }

  /** `Ledger::append`; the repository and the identity come with the entry. */
  method Append(s: Scheme, store: GitLedgerStore, entry: Entry) returns (result: Result<LedgerEvent>)
    requires WellNamed(store.refs)
    modifies store
    ensures WellNamed(store.refs)
    ensures forall log :: IsReading(old(store.refs), log) ==>
      var event := Make(s, log, entry);
      if NameOf(event) !in old(store.refs) then
        result == Ok(event) && store.refs == old(store.refs)[NameOf(event) := event]
      else
        && store.refs == old(store.refs)
        && result == if old(store.refs)[NameOf(event)] == event then Ok(event) else Err(Integrity)
    ensures result.Ok? ==>
      && store.refs == old(store.refs)[(entry.actor, result.value.hash) := result.value]
      && forall log :: IsReading(old(store.refs), log) ==> Carries(s, result.value, entry, log)
  {
    var existing := store.ReadAll();
    ReadingIsUnique(store.refs, existing);
    var unsigned := UnsignedEvent(entry.id, entry.repository, entry.actor, entry.at, LastHash(existing), entry.event);
    var bytes := Canonical(s, unsigned);
    var signed := LedgerEvent(unsigned, s.digest(bytes), s.sign(entry.actor, bytes));
    var stored := store.Append(signed);
    match stored
    case Ok(_) => return Ok(signed);
    case Err(error) => return Err(error);
  }

  lemma ReadingIsUnique(refs: map<RefName, LedgerEvent>, events: seq<LedgerEvent>)
    requires IsReading(refs, events)
    ensures forall log :: IsReading(refs, log) ==> log == events
  {
    forall log | IsReading(refs, log)
      ensures log == events
    {
      SortedIsUnique(log, events);
    }
  }

  // ----- runs -----

  /** What the store reads after a run of appends. */
  function Log(s: Scheme, entries: seq<Entry>): seq<LedgerEvent> {
    if entries == [] then []
    else
      var before := Log(s, entries[..|entries| - 1]);
      InsertEvent(Make(s, before, entries[|entries| - 1]), before)
  }

  function Made(s: Scheme, entries: seq<Entry>, i: nat): LedgerEvent
    requires i < |entries|
  {
    Make(s, Log(s, entries[..i]), entries[i])
  }

  function RefsAfter(s: Scheme, entries: seq<Entry>): map<RefName, LedgerEvent> {
    if entries == [] then map[]
    else
      var event := Made(s, entries, |entries| - 1);
      RefsAfter(s, entries[..|entries| - 1])[NameOf(event) := event]
  }

  /** Identifiers are new for each event. */
  ghost predicate FreshIds(entries: seq<Entry>) {
    forall i, j :: 0 <= i < j < |entries| ==> entries[i].id != entries[j].id
  }

  predicate EntryBefore(a: Entry, b: Entry) {
    if a.at != b.at then a.at < b.at
    else if a.actor != b.actor then a.actor < b.actor
    else a.id < b.id
  }

  /** Every append comes later in the order of the read than those before it. */
  ghost predicate InOrder(entries: seq<Entry>) {
    forall i, j :: 0 <= i < j < |entries| ==> EntryBefore(entries[i], entries[j])
  }

  ghost predicate StrictClock(entries: seq<Entry>) {
    forall i, j :: 0 <= i < j < |entries| ==> entries[i].at < entries[j].at
  }

  /** The actors are known by the public keys that match what they sign with. */
  ghost predicate KnownActors(s: Scheme, actors: map<nat, string>, entries: seq<Entry>) {
    forall i :: 0 <= i < |entries| ==>
      && entries[i].actor in actors
      && forall bytes :: s.verifies(actors[entries[i].actor], bytes, s.sign(entries[i].actor, bytes))
  }

  lemma MadePrefix(s: Scheme, entries: seq<Entry>, n: nat, i: nat)
    requires i < n <= |entries|
    ensures Made(s, entries[..n], i) == Made(s, entries, i)
  {
    assert entries[..n][..i] == entries[..i];
  }

  lemma LogStep(s: Scheme, entries: seq<Entry>, e: LedgerEvent)
    requires entries != []
    ensures
      var n := |entries| - 1;
      e in Log(s, entries) <==> e == Made(s, entries, n) || e in Log(s, entries[..n])
  {
    var n := |entries| - 1;
    InsertHolds(Made(s, entries, n), Log(s, entries[..n]));
    hide InsertEvent, Make;
  }

  lemma {:induction false} LogHolds(s: Scheme, entries: seq<Entry>, i: nat)
    requires i < |entries|
    ensures Made(s, entries, i) in Log(s, entries)
    decreases |entries|
  {
    var n := |entries| - 1;
    hide Log, Made;
    if i < n {
      LogHolds(s, entries[..n], i);
      MadePrefix(s, entries, n, i);
    }
    LogStep(s, entries, Made(s, entries, i));
  }

  lemma {:induction false} LogOnly(s: Scheme, entries: seq<Entry>, e: LedgerEvent) returns (i: nat)
    requires e in Log(s, entries)
    ensures i < |entries| && e == Made(s, entries, i)
    decreases |entries|
  {
    var n := |entries| - 1;
    LogStep(s, entries, e);
    hide Made;
    if e == Made(s, entries, n) {
      i := n;
    } else {
      i := LogOnly(s, entries[..n], e);
      MadePrefix(s, entries, n, i);
    }
  }

  /** The log holds the made events and nothing else. */
  lemma LogMembers(s: Scheme, entries: seq<Entry>, e: LedgerEvent)
    ensures e in Log(s, entries) <==> exists i :: 0 <= i < |entries| && e == Made(s, entries, i)
  {
    hide Log, Made;
    if e in Log(s, entries) {
      var i := LogOnly(s, entries, e);
    }
    if i :| 0 <= i < |entries| && e == Made(s, entries, i) {
      LogHolds(s, entries, i);
    }
  }

  /** Made events of different entries have different identifiers, so one comes first. */
  lemma FreshAreApart(s: Scheme, entries: seq<Entry>, i: nat, j: nat)
    requires FreshIds(entries) && i < j < |entries|
    ensures Before(Made(s, entries, i), Made(s, entries, j)) <==> EntryBefore(entries[i], entries[j])
    ensures Before(Made(s, entries, j), Made(s, entries, i)) <==> !EntryBefore(entries[i], entries[j])
  {
    hide Log, LastHash;
  }

  lemma HasPlace(s: Scheme, entries: seq<Entry>, n: nat)
    requires FreshIds(entries) && n < |entries|
    ensures HasOwnPlace(Made(s, entries, n), Log(s, entries[..n]))
  {
    hide Log, Made, Before, EntryBefore;
    forall e | e in Log(s, entries[..n])
      ensures Before(Made(s, entries, n), e) || Before(e, Made(s, entries, n))
    {
      LogMembers(s, entries[..n], e);
      var i :| 0 <= i < n && e == Made(s, entries[..n], i);
      MadePrefix(s, entries, n, i);
      FreshAreApart(s, entries, i, n);
    }
  }

  lemma {:induction false} LogIsSorted(s: Scheme, entries: seq<Entry>)
    requires FreshIds(entries)
    ensures Sorted(Log(s, entries))
    decreases |entries|
  {
    if entries != [] {
      var n := |entries| - 1;
      LogIsSorted(s, entries[..n]);
      HasPlace(s, entries, n);
      InsertSorts(Made(s, entries, n), Log(s, entries[..n]));
    }
  }

  /** An append in order goes to the end of the log. */
  lemma AppendedLast(s: Scheme, entries: seq<Entry>)
    requires FreshIds(entries) && InOrder(entries) && entries != []
    ensures
      var n := |entries| - 1;
      Log(s, entries) == Log(s, entries[..n]) + [Made(s, entries, n)]
  {
    var n := |entries| - 1;
    forall e | e in Log(s, entries[..n])
      ensures Before(e, Made(s, entries, n))
    {
      hide Log, Made, Before, EntryBefore;
      LogMembers(s, entries[..n], e);
      var i :| 0 <= i < n && e == Made(s, entries[..n], i);
      MadePrefix(s, entries, n, i);
      FreshAreApart(s, entries, i, n);
    }
    InsertLast(Made(s, entries, n), Log(s, entries[..n]));
  }

  lemma {:induction false} InOrderAccepted(s: Scheme, actors: map<nat, string>, entries: seq<Entry>)
    requires FreshIds(entries) && InOrder(entries) && KnownActors(s, actors, entries)
    ensures Accepted(s, actors, Log(s, entries))
    decreases |entries|
  {
    if entries != [] {
      var n := |entries| - 1;
      InOrderAccepted(s, actors, entries[..n]);
      AppendedLast(s, entries);
      AcceptedSnoc(s, actors, Log(s, entries[..n]), Made(s, entries, n));
    } else {
      NothingAccepted(s, actors);
    }
  }

  lemma {:induction false} LogLength(s: Scheme, entries: seq<Entry>)
    ensures |Log(s, entries)| == |entries|
    decreases |entries|
  {
    if entries != [] {
      var n := |entries| - 1;
      LogLength(s, entries[..n]);
      InsertHolds(Make(s, Log(s, entries[..n]), entries[n]), Log(s, entries[..n]));
    }
  }

  /** In order, the read is the order of the appends. */
  lemma {:induction false} InOrderReads(s: Scheme, entries: seq<Entry>, i: nat)
    requires FreshIds(entries) && InOrder(entries) && i < |entries|
    ensures |Log(s, entries)| == |entries| && Log(s, entries)[i] == Made(s, entries, i)
    decreases |entries|
  {
    var n := |entries| - 1;
    AppendedLast(s, entries);
    LogLength(s, entries);
    LogLength(s, entries[..n]);
    hide Made, Log;
    if i < n {
      InOrderReads(s, entries[..n], i);
      MadePrefix(s, entries, n, i);
    }
  }

  // ----- appends out of order -----

  /** An event that comes before the one it was chained to. */
  ghost predicate Tangled(events: seq<LedgerEvent>) {
    exists e, l :: e in events && l in events && Before(e, l) && e.unsigned.previousHash == Some(l.hash)
  }

  lemma DifferentHashes(s: Scheme, a: LedgerEvent, b: LedgerEvent)
    requires Sound(s) && HashedBytes(s, a).Some? && HashedBytes(s, b).Some? && Before(a, b)
    ensures a.hash != b.hash
  {
    if a.hash == b.hash {
      SameHashSameEvent(s, a, b);
    }
  }

  /** A tangled log is never accepted. */
  lemma TangledRejected(s: Scheme, actors: map<nat, string>, events: seq<LedgerEvent>, e: LedgerEvent, l: LedgerEvent)
    requires Sound(s) && Sorted(events) && Accepted(s, actors, events)
    requires e in events && l in events && Before(e, l)
    ensures e.unsigned.previousHash != Some(l.hash)
  {
    hide Before, HashedBytes, Sound;
    var i :| 0 <= i < |events| && events[i] == e;
    var j :| 0 <= j < |events| && events[j] == l;
    SortedPositions(events, i, j);
    if i > 0 {
      HashedAt(s, actors, events, i - 1);
      HashedAt(s, actors, events, j);
      DifferentHashes(s, events[i - 1], l);
    }
    PreviousOf(s, actors, events, i);
  }

  lemma SortedPositions(events: seq<LedgerEvent>, i: nat, j: nat)
    requires Sorted(events) && i < |events| && j < |events| && Before(events[i], events[j])
    ensures i < j
  {
  }

  lemma HashedAt(s: Scheme, actors: map<nat, string>, events: seq<LedgerEvent>, i: nat)
    requires Accepted(s, actors, events) && i < |events|
    ensures HashedBytes(s, events[i]).Some?
  {
    hide HashedBytes, Chained;
    assert Authentic(s, actors, events[i]);
  }

  lemma PreviousOf(s: Scheme, actors: map<nat, string>, events: seq<LedgerEvent>, i: nat)
    requires Accepted(s, actors, events) && i < |events|
    ensures events[i].unsigned.previousHash == if i == 0 then None else Some(events[i - 1].hash)
  {
    hide Authentic;
    assert 0 < i ==> events[..i][|events[..i]| - 1] == events[i - 1];
  }

  lemma BeforeTransitive(a: LedgerEvent, b: LedgerEvent, c: LedgerEvent)
    requires Before(a, b) && (b == c || Before(b, c))
    ensures Before(a, c)
  {
  }

  /** The last event of a sorted log comes after, or is, any event of it. */
  lemma LastComesLast(log: seq<LedgerEvent>, e: LedgerEvent) returns (l: LedgerEvent)
    requires Sorted(log) && e in log
    ensures l in log && LastHash(log) == Some(l.hash) && (e == l || Before(e, l))
  {
    hide Before;
    l := log[|log| - 1];
    var k :| 0 <= k < |log| && log[k] == e;
  }

  lemma Kept(s: Scheme, entries: seq<Entry>, n: nat, e: LedgerEvent)
    requires n <= |entries| && e in Log(s, entries[..n])
    ensures e in Log(s, entries)
  {
    LogMembers(s, entries[..n], e);
    LogMembers(s, entries, e);
    hide Log, Made;
    var m :| 0 <= m < n && e == Made(s, entries[..n], m);
    MadePrefix(s, entries, n, m);
  }

  /** An append that does not come last is chained to the event that stays last. */
  lemma OutOfOrderTangles(s: Scheme, entries: seq<Entry>, i: nat, n: nat)
    requires FreshIds(entries) && i < n < |entries| && !EntryBefore(entries[i], entries[n])
    ensures Tangled(Log(s, entries))
  {
    var e, first := Made(s, entries, n), Made(s, entries, i);
    assert e.unsigned.previousHash == LastHash(Log(s, entries[..n]));
    hide Log, Made, Before, EntryBefore, LastHash;
    MadePrefix(s, entries, n, i);
    LogMembers(s, entries[..n], first);
    LogIsSorted(s, entries[..n]);
    var l := LastComesLast(Log(s, entries[..n]), first);
    FreshAreApart(s, entries, i, n);
    BeforeTransitive(e, first, l);
    Kept(s, entries, n, l);
    LogMembers(s, entries, e);
  }

  /** The read of a run of appends with new identifiers is accepted if and only if each
      append came later, by time, actor and identifier, than all before it. */
  lemma LogAcceptedIff(s: Scheme, actors: map<nat, string>, entries: seq<Entry>)
    requires Sound(s) && FreshIds(entries) && KnownActors(s, actors, entries)
    ensures Accepted(s, actors, Log(s, entries)) <==> InOrder(entries)
  {
    if InOrder(entries) {
      InOrderAccepted(s, actors, entries);
    } else {
      var i, n :| 0 <= i < n < |entries| && !EntryBefore(entries[i], entries[n]);
      OutOfOrderTangles(s, entries, i, n);
      LogIsSorted(s, entries);
      var e, l :| e in Log(s, entries) && l in Log(s, entries) && Before(e, l)
          && e.unsigned.previousHash == Some(l.hash);
      if Accepted(s, actors, Log(s, entries)) {
        TangledRejected(s, actors, Log(s, entries), e, l);
      }
    }
  }

  // ----- the refs of a run -----

  lemma NewName(s: Scheme, entries: seq<Entry>, n: nat, refs: map<RefName, LedgerEvent>)
    requires Sound(s) && FreshIds(entries) && n < |entries|
    requires WellNamed(refs) && IsReading(refs, Log(s, entries[..n]))
    ensures NameOf(Made(s, entries, n)) !in refs
  {
    var e := Made(s, entries, n);
    hide Log;
    if NameOf(e) in refs {
      var o := refs[NameOf(e)];
      assert o in Log(s, entries[..n]);
      var i := LogOnly(s, entries[..n], o);
      MadePrefix(s, entries, n, i);
      SameHashSameEvent(s, o, e);
    }
  }

  lemma ReadingGrows(refs: map<RefName, LedgerEvent>, log: seq<LedgerEvent>, e: LedgerEvent)
    requires WellNamed(refs) && IsReading(refs, log) && NameOf(e) !in refs && HasOwnPlace(e, log)
    ensures WellNamed(refs[NameOf(e) := e]) && IsReading(refs[NameOf(e) := e], InsertEvent(e, log))
  {
    InsertSorts(e, log);
    InsertHolds(e, log);
    hide InsertEvent, Sorted, HasOwnPlace;
  }

  /** Whatever the clock does, the time-sorted read of the store after a run is the log
      of the run, and every event has its own ref. */
  lemma {:induction false} StoreReadsLog(s: Scheme, entries: seq<Entry>)
    requires Sound(s) && FreshIds(entries)
    ensures WellNamed(RefsAfter(s, entries)) && IsReading(RefsAfter(s, entries), Log(s, entries))
    ensures |RefsAfter(s, entries)| == |entries|
    decreases |entries|
  {
    if entries != [] {
      var n := |entries| - 1;
      var refs, log, e := RefsAfter(s, entries[..n]), Log(s, entries[..n]), Made(s, entries, n);
      StoreReadsLog(s, entries[..n]);
      NewName(s, entries, n, refs);
      HasPlace(s, entries, n);
      ReadingGrows(refs, log, e);
      assert Log(s, entries) == InsertEvent(e, log);
    }
  }

  lemma NothingStored(s: Scheme)
    ensures RefsAfter(s, []) == map[]
  {
  }

  lemma RefsSnoc(s: Scheme, entries: seq<Entry>, i: nat)
    requires i < |entries|
    ensures RefsAfter(s, entries[..i + 1])
         == RefsAfter(s, entries[..i])[NameOf(Made(s, entries, i)) := Made(s, entries, i)]
  {
    assert entries[..i + 1][..i] == entries[..i] && entries[..i + 1][i] == entries[i];
    MadePrefix(s, entries, i + 1, i);
  }

  lemma FreshPrefix(entries: seq<Entry>, i: nat)
    requires FreshIds(entries) && i <= |entries|
    ensures FreshIds(entries[..i])
  {
  }

  /** Event i carries the entry behind the sorted read of the events before it. */
  ghost predicate IsAppended(s: Scheme, events: seq<LedgerEvent>, entry: Entry, i: nat)
    requires i < |events|
  {
    exists log :: Sorted(log) && (forall e :: e in log <==> e in events[..i]) && Carries(s, events[i], entry, log)
  }

  lemma LogIsEvents(s: Scheme, entries: seq<Entry>, events: seq<LedgerEvent>, n: nat)
    requires n <= |entries| == |events| && forall i :: 0 <= i < |entries| ==> events[i] == Made(s, entries, i)
    ensures forall e :: e in Log(s, entries[..n]) <==> e in events[..n]
  {
    hide Log, Made;
    forall e
      ensures e in Log(s, entries[..n]) <==> e in events[..n]
    {
      LogMembers(s, entries[..n], e);
      forall i | 0 <= i < n
        ensures Made(s, entries[..n], i) == events[..n][i]
      {
        MadePrefix(s, entries, n, i);
      }
    }
  }

  lemma MadeIsAppended(s: Scheme, entries: seq<Entry>, events: seq<LedgerEvent>, i: nat)
    requires FreshIds(entries) && i < |entries| == |events|
    requires forall k :: 0 <= k < |entries| ==> events[k] == Made(s, entries, k)
    ensures IsAppended(s, events, entries[i], i)
  {
    var log := Log(s, entries[..i]);
    LogIsEvents(s, entries, events, i);
    FreshPrefix(entries, i);
    LogIsSorted(s, entries[..i]);
    hide Log, Sorted, FreshIds;
    assert Carries(s, events[i], entries[i], log);
  }

  /** A run through the methods: the entries are appended one after the other to an
      empty store, each succeeds with its made event, and the store ends with the refs
      of the run. */
  method AppendRun(s: Scheme, store: GitLedgerStore, entries: seq<Entry>) returns (events: seq<LedgerEvent>)
    requires Sound(s) && FreshIds(entries) && store.refs == map[]
    modifies store
    ensures store.refs == RefsAfter(s, entries)
    ensures |events| == |entries| && forall i :: 0 <= i < |entries| ==> events[i] == Made(s, entries, i)
    ensures forall i :: 0 <= i < |entries| ==> IsAppended(s, events, entries[i], i)
    ensures |store.refs| == |events|
    ensures forall log :: IsReading(store.refs, log) ==> |log| == |events| && forall e :: e in log <==> e in events
  {
    hide Sound, FreshIds, RefsAfter, Log, NameOf, Make, IsReading;
    events := [];
    NothingStored(s);
    assert entries[..0] == [];
    for i := 0 to |entries|
      invariant store.refs == RefsAfter(s, entries[..i])
      invariant |events| == i && forall k :: 0 <= k < i ==> events[k] == Made(s, entries, k)
    {
      FreshPrefix(entries, i);
      StoreReadsLog(s, entries[..i]);
      NewName(s, entries, i, store.refs);
      RefsSnoc(s, entries, i);
      var event := Append(s, store, entries[i]);
      assert event == Ok(Made(s, entries, i));
      events := events + [event.value];
    }
    assert entries[..|entries|] == entries;
    RunHolds(s, entries, events);
  }

  lemma RunHolds(s: Scheme, entries: seq<Entry>, events: seq<LedgerEvent>)
    requires Sound(s) && FreshIds(entries) && |events| == |entries|
    requires forall i :: 0 <= i < |entries| ==> events[i] == Made(s, entries, i)
    ensures forall i :: 0 <= i < |entries| ==> IsAppended(s, events, entries[i], i)
    ensures |RefsAfter(s, entries)| == |entries|
    ensures forall log :: IsReading(RefsAfter(s, entries), log) ==>
      |log| == |events| && forall e :: e in log <==> e in events
  {
    hide Sound, FreshIds, RefsAfter, Log, Made, IsReading, IsAppended;
    forall i | 0 <= i < |entries|
      ensures IsAppended(s, events, entries[i], i)
    {
      MadeIsAppended(s, entries, events, i);
    }
    StoreReadsLog(s, entries);
    ReadingIsUnique(RefsAfter(s, entries), Log(s, entries));
    LogLength(s, entries);
    LogIsEvents(s, entries, events, |entries|);
    assert entries[..|entries|] == entries && events[..|events|] == events;
  }

  /** The whole way through the methods: a run is read back and verified if and only if
      each append came later in the order of the read than those before it. */
  method RunAndVerify(s: Scheme, store: GitLedgerStore, entries: seq<Entry>, actors: map<nat, string>)
    returns (result: Result<()>)
    requires Sound(s) && FreshIds(entries) && KnownActors(s, actors, entries) && store.refs == map[]
    modifies store
    ensures result.Ok? <==> InOrder(entries)
  {
    hide KnownActors, FreshIds, Sound, IsReading, InOrder, Log;
    var made := AppendRun(s, store, entries);
    StoreReadsLog(s, entries);
    var events := store.ReadAll();
    ReadingIsUnique(store.refs, events);
    LogAcceptedIff(s, actors, entries);
    result := VerifyChain(s, events, actors);
  }

  /** Under a strictly increasing clock the store reads back the events in the order
      they were appended, each chained to the one before, and the chain is accepted. */
  lemma StrictClockAccepted(s: Scheme, actors: map<nat, string>, entries: seq<Entry>)
    requires Sound(s) && FreshIds(entries) && KnownActors(s, actors, entries) && StrictClock(entries)
    ensures
      var log := Log(s, entries);
      && IsReading(RefsAfter(s, entries), log) && Accepted(s, actors, log)
      && |log| == |entries| && forall i :: 0 <= i < |log| ==> log[i] == Made(s, entries, i)
  {
    StoreReadsLog(s, entries);
    InOrderAccepted(s, actors, entries);
    LogLength(s, entries);
    forall i | 0 <= i < |entries|
      ensures Log(s, entries)[i] == Made(s, entries, i)
    {
      InOrderReads(s, entries, i);
    }
  }

  /** A clock that goes back once spoils the chain. */
  lemma ClockExample(s: Scheme, actors: map<nat, string>)
    requires Sound(s) && KnownActors(s, actors, [Entry(1, 0, 0, 5, "a"), Entry(2, 0, 0, 3, "b")])
    ensures !Accepted(s, actors, Log(s, [Entry(1, 0, 0, 5, "a"), Entry(2, 0, 0, 3, "b")]))
  {
    var entries := [Entry(1, 0, 0, 5, "a"), Entry(2, 0, 0, 3, "b")];
    assert !EntryBefore(entries[0], entries[1]);
    LogAcceptedIff(s, actors, entries);
  }
}
