/** The semantic object store: content-addressed documents in Git refs, their dependency
    closure, and the signature quorum.
 */
module SemanticObjects {
  import opened Wrappers

  /** The object kinds that the modelled code distinguishes. */
  datatype ObjectKind = Operation | State | Signature | Document

  datatype ObjectRef = ObjectRef(kind: ObjectKind, hash: nat)

  datatype Manifest = Manifest(commit: nat, operations: seq<ObjectRef>, files: seq<nat>)

  datatype SignatureDocument = SignatureDocument(subject: ObjectRef, signer: nat, publicKey: string, signature: string)

  /** The foreign parts: Git's blob identifiers, the readers of documents, which also
      validate them, the writer of signature documents, and the signatures. */
  datatype Scheme = Scheme(
    blobId: string -> nat,
    operationOf: string -> Result<seq<ObjectRef>>,
    stateOf: string -> Result<Manifest>,
    signatureOf: string -> Result<SignatureDocument>,
    signatureText: SignatureDocument -> string,
    publicKey: nat -> string,
    sign: (nat, string) -> string,
    verifies: (string, string, string) -> bool)

  ghost predicate Sound(s: Scheme) {
    && (forall a, b :: s.blobId(a) == s.blobId(b) ==> a == b)
    && (forall d :: s.signatureOf(s.signatureText(d)) == Ok(d))
    && (forall actor, bytes :: s.verifies(s.publicKey(actor), bytes, s.sign(actor, bytes)))
  }

  /** What the repository holds: blobs, object refs with their targets, revision refs,
      the states bound to commits, and the commits. */
  datatype Snapshot = Snapshot(
    blobs: map<nat, string>,
    refs: map<ObjectRef, nat>,
    revisions: map<string, nat>,
    active: map<nat, nat>,
    commits: set<nat>)

  /** Every object ref points to the blob it is named after. */
  ghost predicate Intact(s: Scheme, g: Snapshot) {
    && (forall h :: h in g.blobs ==> s.blobId(g.blobs[h]) == h)
    && (forall o :: o in g.refs ==> g.refs[o] == o.hash && o.hash in g.blobs)
  }

  function Get(g: Snapshot, o: ObjectRef): Result<string> {
    if o !in g.refs then Err(NotFound)
    else if g.refs[o] != o.hash then Err(Integrity)
    else if o.hash !in g.blobs then Err(External)
    else Ok(g.blobs[o.hash])
  }

  /** The object has a ref to the blob it is named after, and that blob is there. */
  ghost predicate Stored(g: Snapshot, o: ObjectRef, bytes: string) {
    o in g.refs && g.refs[o] == o.hash && o.hash in g.blobs && g.blobs[o.hash] == bytes
  }

  lemma GetIff(g: Snapshot, o: ObjectRef, bytes: string)
    ensures Get(g, o) == Ok(bytes) <==> Stored(g, o, bytes)
    ensures Get(g, o) == Err(NotFound) <==> o !in g.refs
    ensures Get(g, o) == Err(Integrity) <==> o in g.refs && g.refs[o] != o.hash
  {
  }

  lemma GetStored(g: Snapshot, o: ObjectRef)
    ensures Get(g, o).Ok? <==> exists bytes :: Stored(g, o, bytes)
    ensures forall bytes :: Stored(g, o, bytes) ==> Get(g, o) == Ok(bytes)
  {
    if Get(g, o).Ok? {
      GetIff(g, o, Get(g, o).value);
    }
    forall bytes | Stored(g, o, bytes)
      ensures Get(g, o) == Ok(bytes)
    {
      GetIff(g, o, bytes);
    }
  }

  function Put(s: Scheme, g: Snapshot, kind: ObjectKind, bytes: string): Snapshot {
    var id := s.blobId(bytes);
    g.(blobs := g.blobs[id := bytes], refs := g.refs[ObjectRef(kind, id) := id])
  }

  function GetOperation(s: Scheme, g: Snapshot, o: ObjectRef): Result<seq<ObjectRef>> {
    if !o.kind.Operation? then Err(Invalid)
    else match Get(g, o)
      case Err(error) => Err(error)
      case Ok(bytes) => s.operationOf(bytes)
  }

  // ----- the dependency closure -----

  ghost predicate IsOperation(s: Scheme, g: Snapshot, o: ObjectRef) {
    GetOperation(s, g, o).Ok?
  }

  ghost predicate DependsOn(s: Scheme, g: Snapshot, a: ObjectRef, b: ObjectRef) {
    GetOperation(s, g, a).Ok? && b in GetOperation(s, g, a).value
  }

  /** A chain of dependencies from one of the roots. */
  /** An operation depends on what its stored document says. */
  lemma DependsOnIff(s: Scheme, g: Snapshot, a: ObjectRef, b: ObjectRef)
    ensures DependsOn(s, g, a, b)
       <==> && a.kind.Operation?
            && exists bytes :: Stored(g, a, bytes) && s.operationOf(bytes).Ok? && b in s.operationOf(bytes).value
    ensures IsOperation(s, g, a) <==>
      a.kind.Operation? && exists bytes :: Stored(g, a, bytes) && s.operationOf(bytes).Ok?
  {
    GetStored(g, a);
  }

  ghost predicate IsTrail(s: Scheme, g: Snapshot, roots: seq<ObjectRef>, p: seq<ObjectRef>) {
    && p != [] && p[0] in roots
    && forall i :: 0 <= i < |p| - 1 ==> DependsOn(s, g, p[i], p[i + 1])
  }

  ghost predicate Reached(s: Scheme, g: Snapshot, roots: seq<ObjectRef>, o: ObjectRef) {
    exists p :: IsTrail(s, g, roots, p) && p[|p| - 1] == o
  }

  ghost predicate ClosedSet(s: Scheme, g: Snapshot, roots: seq<ObjectRef>, closed: set<ObjectRef>) {
    && (forall r :: r in roots ==> r in closed)
    && (forall a, b :: a in closed && DependsOn(s, g, a, b) ==> b in closed)
  }

  lemma RootReached(s: Scheme, g: Snapshot, roots: seq<ObjectRef>, r: ObjectRef)
    requires r in roots
    ensures Reached(s, g, roots, r)
  {
    assert IsTrail(s, g, roots, [r]) && [r][0] == r;
  }

  lemma StepReached(s: Scheme, g: Snapshot, roots: seq<ObjectRef>, a: ObjectRef, b: ObjectRef)
    requires Reached(s, g, roots, a) && DependsOn(s, g, a, b)
    ensures Reached(s, g, roots, b)
  {
    hide DependsOn;
    var p :| IsTrail(s, g, roots, p) && p[|p| - 1] == a;
    var q := p + [b];
    assert forall i :: 0 <= i < |p| ==> q[i] == p[i];
    assert IsTrail(s, g, roots, q) && q[|q| - 1] == b;
  }

  lemma {:induction false} TrailStays(s: Scheme, g: Snapshot, roots: seq<ObjectRef>, closed: set<ObjectRef>,
                                      p: seq<ObjectRef>)
    requires ClosedSet(s, g, roots, closed) && IsTrail(s, g, roots, p)
    ensures p[|p| - 1] in closed
    decreases |p|
  {
    hide DependsOn;
    if |p| > 1 {
      var init := p[..|p| - 1];
      assert forall i :: 0 <= i < |init| ==> init[i] == p[i];
      TrailStays(s, g, roots, closed, init);
      assert DependsOn(s, g, p[|p| - 2], p[|p| - 2 + 1]);
    }
  }

  /** Whatever is reached lies in every closed set. */
  lemma ReachedIsLeast(s: Scheme, g: Snapshot, roots: seq<ObjectRef>, closed: set<ObjectRef>, o: ObjectRef)
    requires ClosedSet(s, g, roots, closed) && Reached(s, g, roots, o)
    ensures o in closed
  {
    var p :| IsTrail(s, g, roots, p) && p[|p| - 1] == o;
    TrailStays(s, g, roots, closed, p);
  }

  /** The invariant of the worklist. */
  ghost predicate Searching(s: Scheme, g: Snapshot, roots: seq<ObjectRef>, pending: seq<ObjectRef>,
                            visited: set<ObjectRef>) {
    && (forall o :: o in visited || o in pending ==> Reached(s, g, roots, o))
    && (forall r :: r in roots ==> r in visited || r in pending)
    && (forall a :: a in visited ==> IsOperation(s, g, a))
    && (forall a, b :: a in visited && DependsOn(s, g, a, b) ==> b in visited || b in pending)
  }

  lemma SearchStarts(s: Scheme, g: Snapshot, roots: seq<ObjectRef>)
    ensures Searching(s, g, roots, roots, {})
  {
    forall r | r in roots
      ensures Reached(s, g, roots, r)
    {
      RootReached(s, g, roots, r);
    }
  }

  lemma SearchSkips(s: Scheme, g: Snapshot, roots: seq<ObjectRef>, pending: seq<ObjectRef>, o: ObjectRef,
                    visited: set<ObjectRef>)
    requires Searching(s, g, roots, pending + [o], visited) && o in visited
    ensures Searching(s, g, roots, pending, visited)
  {
    hide Reached, IsOperation, DependsOn;
    assert forall x :: x in pending + [o] <==> x in pending || x == o;
  }

  lemma SearchVisits(s: Scheme, g: Snapshot, roots: seq<ObjectRef>, pending: seq<ObjectRef>, o: ObjectRef,
                     visited: set<ObjectRef>)
    requires Searching(s, g, roots, pending + [o], visited) && IsOperation(s, g, o)
    ensures Searching(s, g, roots, pending + GetOperation(s, g, o).value, visited + {o})
  {
    var more := GetOperation(s, g, o).value;
    assert forall b :: DependsOn(s, g, o, b) <==> b in more;
    hide Reached, IsOperation, DependsOn, GetOperation;
    assert forall x :: x in pending + [o] <==> x in pending || x == o;
    assert forall x :: x in pending + more <==> x in pending || x in more;
    assert Reached(s, g, roots, o);
    forall b | b in more
      ensures Reached(s, g, roots, b)
    {
      StepReached(s, g, roots, o, b);
    }
  }

  lemma SearchEnds(s: Scheme, g: Snapshot, roots: seq<ObjectRef>, visited: set<ObjectRef>)
    requires Searching(s, g, roots, [], visited)
    ensures forall o :: o in visited <==> Reached(s, g, roots, o)
  {
    hide Reached, IsOperation, DependsOn;
    assert ClosedSet(s, g, roots, visited);
    forall o | Reached(s, g, roots, o)
      ensures o in visited
    {
      ReachedIsLeast(s, g, roots, visited, o);
    }
  }

  /** Everything reached is a readable operation. */
  ghost predicate Complete(s: Scheme, g: Snapshot, roots: seq<ObjectRef>) {
    forall o :: Reached(s, g, roots, o) ==> IsOperation(s, g, o)
  }

  method OperationClosure(s: Scheme, g: Snapshot, roots: seq<ObjectRef>) returns (result: Result<set<ObjectRef>>)
    ensures result.Ok? <==> Complete(s, g, roots)
    ensures result.Ok? ==> forall o :: o in result.value <==> Reached(s, g, roots, o)
  {
    hide Searching, Reached;
    var pending := roots;
    var visited: set<ObjectRef> := {};
    SearchStarts(s, g, roots);
    while pending != []
      invariant Searching(s, g, roots, pending, visited)
      invariant visited <= g.refs.Keys
      decreases g.refs.Keys - visited, |pending|
    {
      var operation := pending[|pending| - 1];
      var rest := pending[..|pending| - 1];
      assert pending == rest + [operation];
      PendingReached(s, g, roots, pending, visited, operation);
      pending := rest;
      if !operation.kind.Operation? {
        return Err(Integrity);
      }
      if operation in visited {
        SearchSkips(s, g, roots, rest, operation, visited);
        continue;
      }
      var dependencies := GetOperation(s, g, operation);
      if dependencies.Err? {
        return Err(dependencies.error);
      }
      SearchVisits(s, g, roots, rest, operation, visited);
      visited := visited + {operation};
      pending := pending + dependencies.value;
    }
    SearchEnds(s, g, roots, visited);
    VisitedComplete(s, g, roots, visited);
    result := Ok(visited);
  }

  lemma PendingReached(s: Scheme, g: Snapshot, roots: seq<ObjectRef>, pending: seq<ObjectRef>, visited: set<ObjectRef>,
                       o: ObjectRef)
    requires Searching(s, g, roots, pending, visited) && o in pending
    ensures Reached(s, g, roots, o)
  {
  }

  lemma VisitedComplete(s: Scheme, g: Snapshot, roots: seq<ObjectRef>, visited: set<ObjectRef>)
    requires Searching(s, g, roots, [], visited) && forall o :: o in visited <==> Reached(s, g, roots, o)
    ensures Complete(s, g, roots)
  {
  }
}
