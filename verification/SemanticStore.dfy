/** The steps on the semantic store and what every run of them keeps: refs are written
    once, publishing is idempotent, and a verified state stays verified.
 */
module SemanticStore {
  import opened Wrappers
  import opened SemanticObjects

  // ----- signatures -----

  function GetSignature(s: Scheme, g: Snapshot, o: ObjectRef): Result<SignatureDocument> {
    if !o.kind.Signature? then Err(Invalid)
    else match Get(g, o)
      case Err(error) => Err(error)
      case Ok(bytes) => s.signatureOf(bytes)
  }

  /** The signature document that a signature ref points to, when it is readable and
      signs the subject. */
  function Signing(s: Scheme, g: Snapshot, o: ObjectRef, subject: ObjectRef): Option<SignatureDocument> {
    if o !in g.refs || !o.kind.Signature? then None
    else match GetSignature(s, g, ObjectRef(Signature, g.refs[o]))
      case Err(_) => None
      case Ok(document) => if document.subject == subject then Some(document) else None
  }

  /** The actors with a valid signature over the subject's bytes. */
  ghost function Signers(s: Scheme, g: Snapshot, subject: ObjectRef, bytes: string): set<nat> {
    set o | o in g.refs.Keys && IsSigner(s, g, o, subject, bytes) :: Signing(s, g, o, subject).value.signer
  }

  predicate IsSigner(s: Scheme, g: Snapshot, o: ObjectRef, subject: ObjectRef, bytes: string) {
    && Signing(s, g, o, subject).Some?
    && var d := Signing(s, g, o, subject).value;
       s.verifies(d.publicKey, bytes, d.signature)
  }

  /** A stored signature document of the actor for the subject that verifies. */
  ghost predicate HasSigned(s: Scheme, g: Snapshot, subject: ObjectRef, bytes: string, actor: nat, o: ObjectRef) {
    && o in g.refs && o.kind.Signature?
    && exists text :: Stored(g, ObjectRef(Signature, g.refs[o]), text) && s.signatureOf(text).Ok?
                      && var d := s.signatureOf(text).value;
                         d.subject == subject && d.signer == actor && s.verifies(d.publicKey, bytes, d.signature)
  }

  lemma HasSignedIff(s: Scheme, g: Snapshot, subject: ObjectRef, bytes: string, actor: nat, o: ObjectRef)
    ensures HasSigned(s, g, subject, bytes, actor, o)
       <==> o in g.refs && IsSigner(s, g, o, subject, bytes) && Signing(s, g, o, subject).value.signer == actor
  {
    if o in g.refs {
      var found := ObjectRef(Signature, g.refs[o]);
      GetStored(g, found);
    }
  }

  /** The signers are the actors with a stored signature that verifies. */
  lemma SignersAre(s: Scheme, g: Snapshot, subject: ObjectRef, bytes: string, actor: nat)
    ensures actor in Signers(s, g, subject, bytes) <==> exists o :: HasSigned(s, g, subject, bytes, actor, o)
  {
    hide HasSigned;
    if actor in Signers(s, g, subject, bytes) {
      var o :| o in g.refs && IsSigner(s, g, o, subject, bytes) && Signing(s, g, o, subject).value.signer == actor;
      HasSignedIff(s, g, subject, bytes, actor, o);
    }
    if o :| HasSigned(s, g, subject, bytes, actor, o) {
      HasSignedIff(s, g, subject, bytes, actor, o);
    }
  }

  ghost predicate Quorum(s: Scheme, g: Snapshot, subject: ObjectRef, minimum: nat) {
    Get(g, subject).Ok? && |Signers(s, g, subject, Get(g, subject).value)| >= minimum
  }

  /** At least so many different actors have signed what is stored for the subject. */
  ghost predicate SignedByMany(s: Scheme, g: Snapshot, subject: ObjectRef, minimum: nat) {
    exists bytes, actors: set<nat> ::
      Stored(g, subject, bytes) && |actors| >= minimum && AllSigned(s, g, subject, bytes, actors)
  }

  ghost predicate AllSigned(s: Scheme, g: Snapshot, subject: ObjectRef, bytes: string, actors: set<nat>) {
    forall actor :: actor in actors ==> exists o :: HasSigned(s, g, subject, bytes, actor, o)
  }

  lemma QuorumIff(s: Scheme, g: Snapshot, subject: ObjectRef, minimum: nat)
    ensures Quorum(s, g, subject, minimum) <==> SignedByMany(s, g, subject, minimum)
  {
    hide HasSigned, Signers;
    GetStored(g, subject);
    forall bytes, actors | Stored(g, subject, bytes)
      ensures AllSigned(s, g, subject, bytes, actors) <==> actors <= Signers(s, g, subject, bytes)
    {
      forall actor
        ensures actor in Signers(s, g, subject, bytes) <==> exists o :: HasSigned(s, g, subject, bytes, actor, o)
      {
        SignersAre(s, g, subject, bytes, actor);
      }
    }
    if Quorum(s, g, subject, minimum) {
      var bytes := Get(g, subject).value;
      GetIff(g, subject, bytes);
      assert AllSigned(s, g, subject, bytes, Signers(s, g, subject, bytes));
    }
    if SignedByMany(s, g, subject, minimum) {
      var bytes, actors: set<nat> :|
        Stored(g, subject, bytes) && |actors| >= minimum && AllSigned(s, g, subject, bytes, actors);
      SubsetSize(actors, Signers(s, g, subject, bytes));
    }
  }

  method RequireSignatureQuorum(s: Scheme, g: Snapshot, subject: ObjectRef, minimum: nat) returns (result: Result<()>)
    ensures result.Ok? <==> Quorum(s, g, subject, minimum)
    ensures Get(g, subject).Ok? && result.Err? ==> result == Err(Policy)
  {
    var bytes := Get(g, subject);
    if bytes.Err? {
      return Err(bytes.error);
    }
    hide IsSigner, Signing, Get;
    var signers: set<nat> := {};
    var names := g.refs.Keys;
    while names != {}
      invariant names <= g.refs.Keys
      invariant signers
             == set o | o in g.refs.Keys - names && IsSigner(s, g, o, subject, bytes.value) ::
                  Signing(s, g, o, subject).value.signer
      decreases names
    {
      var name :| name in names;
      var counts := IsSigner(s, g, name, subject, bytes.value);
      if counts {
        signers := signers + {SignerAt(s, g, name, subject, bytes.value)};
      }
      names := names - {name};
    }
    assert signers == Signers(s, g, subject, bytes.value);
    if |signers| < minimum {
      return Err(Policy);
    }
    result := Ok(());
  }

  function SignerAt(s: Scheme, g: Snapshot, o: ObjectRef, subject: ObjectRef, bytes: string): nat
    requires IsSigner(s, g, o, subject, bytes)
  {
    Signing(s, g, o, subject).value.signer
  }

  // ----- states -----

  function ManifestOf(s: Scheme, g: Snapshot, o: ObjectRef): Result<Manifest> {
    if !o.kind.State? then Err(Invalid)
    else match Get(g, o)
      case Err(error) => Err(error)
      case Ok(bytes) => s.stateOf(bytes)
  }

  /** The state document is readable, its operations are complete and its files exist. */
  ghost predicate Readable(s: Scheme, g: Snapshot, o: ObjectRef) {
    && ManifestOf(s, g, o).Ok?
    && var manifest := ManifestOf(s, g, o).value;
       Complete(s, g, manifest.operations) && forall f :: f in manifest.files ==> f in g.blobs
  }

  /** What `verify_active_state` demands. */
  /** A state is readable when its stored document is one, its operations are complete,
      and its files are there. */
  lemma ReadableIff(s: Scheme, g: Snapshot, o: ObjectRef)
    ensures Readable(s, g, o)
       <==> && o.kind.State?
            && exists bytes :: Stored(g, o, bytes) && s.stateOf(bytes).Ok?
                               && Complete(s, g, s.stateOf(bytes).value.operations)
                               && forall f :: f in s.stateOf(bytes).value.files ==> f in g.blobs
  {
    hide Complete;
    GetStored(g, o);
  }

  ghost predicate Verified(s: Scheme, g: Snapshot, o: ObjectRef, minimum: nat) {
    && Readable(s, g, o) && Quorum(s, g, o, minimum)
    && forall operation :: Reached(s, g, ManifestOf(s, g, o).value.operations, operation) ==>
        Quorum(s, g, operation, minimum)
  }

  method GetState(s: Scheme, g: Snapshot, o: ObjectRef) returns (result: Result<Manifest>)
    ensures result.Ok? <==> Readable(s, g, o)
    ensures result.Ok? ==> result == ManifestOf(s, g, o)
  {
    var manifest := ManifestOf(s, g, o);
    if manifest.Err? {
      return manifest;
    }
    hide Complete;
    var closure := OperationClosure(s, g, manifest.value.operations);
    if closure.Err? {
      return Err(closure.error);
    }
    for i := 0 to |manifest.value.files|
      invariant forall k :: 0 <= k < i ==> manifest.value.files[k] in g.blobs
    {
      if manifest.value.files[i] !in g.blobs {
        return Err(Integrity);
      }
    }
    result := manifest;
  }

  /** A state is verified when it is readable and it and every operation behind it are
      signed by enough actors. */
  lemma VerifiedIff(s: Scheme, g: Snapshot, o: ObjectRef, minimum: nat)
    ensures Verified(s, g, o, minimum)
       <==> && Readable(s, g, o) && SignedByMany(s, g, o, minimum)
            && forall operation :: Reached(s, g, ManifestOf(s, g, o).value.operations, operation) ==>
                 SignedByMany(s, g, operation, minimum)
  {
    hide Quorum, SignedByMany, Reached, Complete;
    QuorumIff(s, g, o, minimum);
    forall operation: ObjectRef
      ensures Quorum(s, g, operation, minimum) <==> SignedByMany(s, g, operation, minimum)
    {
      QuorumIff(s, g, operation, minimum);
    }
  }

  method VerifyActiveState(s: Scheme, g: Snapshot, o: ObjectRef, minimum: nat) returns (result: Result<Manifest>)
    ensures result.Ok? <==> Verified(s, g, o, minimum)
    ensures result.Ok? ==> result == ManifestOf(s, g, o)
  {
    hide Readable, Quorum, Complete, Reached, ManifestOf;
    var manifest := GetState(s, g, o);
    if manifest.Err? {
      return manifest;
    }
    ReadableIs(s, g, o);
    var quorum := RequireSignatureQuorum(s, g, o, minimum);
    if quorum.Err? {
      return Err(quorum.error);
    }
    var closure := OperationClosure(s, g, manifest.value.operations);
    // The read of the state has already closed over the same operations.
    assert closure.Ok?;
    var left := closure.value;
    while left != {}
      invariant left <= closure.value
      invariant forall operation :: operation in closure.value - left ==> Quorum(s, g, operation, minimum)
      decreases left
    {
      var operation :| operation in left;
      var each := RequireSignatureQuorum(s, g, operation, minimum);
      if each.Err? {
        return Err(each.error);
      }
      left := left - {operation};
    }
    result := manifest;
  }

  lemma ReadableIs(s: Scheme, g: Snapshot, o: ObjectRef)
    ensures Readable(s, g, o) ==> ManifestOf(s, g, o).Ok? && Complete(s, g, ManifestOf(s, g, o).value.operations)
  {
  }

  // ----- what growth keeps -----

  /** b keeps every blob, ref, revision and commit of a. */
  ghost predicate Extends(a: Snapshot, b: Snapshot) {
    && (forall h :: h in a.blobs ==> h in b.blobs && b.blobs[h] == a.blobs[h])
    && (forall o :: o in a.refs ==> o in b.refs && b.refs[o] == a.refs[o])
    && (forall r :: r in a.revisions ==> r in b.revisions && b.revisions[r] == a.revisions[r])
    && a.commits <= b.commits
  }

  lemma SameOperation(s: Scheme, a: Snapshot, b: Snapshot, o: ObjectRef)
    requires Extends(a, b) && IsOperation(s, a, o)
    ensures GetOperation(s, b, o) == GetOperation(s, a, o)
  {
  }

  /** A complete closure cannot grow. */
  lemma {:induction false} TrailBack(s: Scheme, a: Snapshot, b: Snapshot, roots: seq<ObjectRef>, p: seq<ObjectRef>)
    requires Extends(a, b) && Complete(s, a, roots) && IsTrail(s, b, roots, p)
    ensures Reached(s, a, roots, p[|p| - 1])
    decreases |p|
  {
    hide Extends, Complete, Reached, DependsOn;
    if |p| == 1 {
      RootReached(s, a, roots, p[0]);
    } else {
      var init := p[..|p| - 1];
      assert forall i :: 0 <= i < |init| ==> init[i] == p[i];
      TrailBack(s, a, b, roots, init);
      var x, y := p[|p| - 2], p[|p| - 2 + 1];
      assert DependsOn(s, b, x, y);
      DependsBack(s, a, b, roots, x, y);
      StepReached(s, a, roots, x, y);
    }
  }

  lemma DependsBack(s: Scheme, a: Snapshot, b: Snapshot, roots: seq<ObjectRef>, x: ObjectRef, y: ObjectRef)
    requires Extends(a, b) && Complete(s, a, roots) && Reached(s, a, roots, x) && DependsOn(s, b, x, y)
    ensures DependsOn(s, a, x, y)
  {
    SameOperation(s, a, b, x);
  }

  lemma CompleteStays(s: Scheme, a: Snapshot, b: Snapshot, roots: seq<ObjectRef>)
    requires Extends(a, b) && Complete(s, a, roots)
    ensures Complete(s, b, roots)
    ensures forall o :: Reached(s, b, roots, o) ==> Reached(s, a, roots, o)
  {
    forall o | Reached(s, b, roots, o)
      ensures Reached(s, a, roots, o) && IsOperation(s, b, o)
    {
      var p :| IsTrail(s, b, roots, p) && p[|p| - 1] == o;
      TrailBack(s, a, b, roots, p);
      SameOperation(s, a, b, o);
    }
  }

  lemma SubsetSize(a: set<nat>, b: set<nat>)
    requires a <= b
    ensures |a| <= |b|
  {
    assert b == a + (b - a);
  }

  lemma SigningStays(s: Scheme, a: Snapshot, b: Snapshot, o: ObjectRef, subject: ObjectRef)
    requires Extends(a, b) && Signing(s, a, o, subject).Some?
    ensures Signing(s, b, o, subject) == Signing(s, a, o, subject)
  {
  }

  lemma QuorumStays(s: Scheme, a: Snapshot, b: Snapshot, subject: ObjectRef, minimum: nat)
    requires Extends(a, b) && Quorum(s, a, subject, minimum)
    ensures Quorum(s, b, subject, minimum)
  {
    var bytes := Get(a, subject).value;
    assert Get(b, subject) == Ok(bytes);
    forall o | o in a.refs && IsSigner(s, a, o, subject, bytes)
      ensures o in b.refs && IsSigner(s, b, o, subject, bytes) && Signing(s, b, o, subject) == Signing(s, a, o, subject)
    {
      SigningStays(s, a, b, o, subject);
    }
    hide IsSigner, Signing;
    SubsetSize(Signers(s, a, subject, bytes), Signers(s, b, subject, bytes));
  }

  /** A state that passed verification still passes when the store has grown. */
  lemma VerifiedStays(s: Scheme, a: Snapshot, b: Snapshot, o: ObjectRef, minimum: nat)
    requires Extends(a, b) && Verified(s, a, o, minimum)
    ensures Verified(s, b, o, minimum) && ManifestOf(s, b, o) == ManifestOf(s, a, o)
  {
    var operations := ManifestOf(s, a, o).value.operations;
    assert ManifestOf(s, b, o) == ManifestOf(s, a, o);
    CompleteStays(s, a, b, operations);
    QuorumStays(s, a, b, o, minimum);
    hide Quorum, Reached, Complete;
    forall operation | Reached(s, b, operations, operation)
      ensures Quorum(s, b, operation, minimum)
    {
      QuorumStays(s, a, b, operation, minimum);
    }
  }

  // ----- the steps -----

  function SignedDocument(s: Scheme, o: ObjectRef, actor: nat, bytes: string): string {
    s.signatureText(SignatureDocument(o, actor, s.publicKey(actor), s.sign(actor, bytes)))
  }

  /** The store after signing a stored object. */
  function Sign(s: Scheme, g: Snapshot, o: ObjectRef, actor: nat): Result<Snapshot> {
    match Get(g, o)
    case Err(error) => Err(error)
    case Ok(bytes) => Ok(Put(s, g, Signature, SignedDocument(s, o, actor, bytes)))
  }

  /** The store after publishing a revision under a write-once ref. */
  function Publish(s: Scheme, g: Snapshot, o: ObjectRef, reference: string, actor: nat): Result<Snapshot> {
    if reference in g.revisions && g.revisions[reference] != o.hash then Err(Integrity)
    else match Sign(s, g, o, actor)
      case Err(error) => Err(error)
      case Ok(signed) => Ok(signed.(revisions := signed.revisions[reference := o.hash]))
  }

  ghost predicate CanActivate(s: Scheme, g: Snapshot, commit: nat, o: ObjectRef, minimum: nat) {
    Verified(s, g, o, minimum) && ManifestOf(s, g, o).value.commit == commit && commit in g.commits
  }

  class GitSemanticStore {
    var blobs: map<nat, string>
    var refs: map<ObjectRef, nat>
    var revisions: map<string, nat>
    var active: map<nat, nat>
    const commits: set<nat>

    constructor (commits: set<nat>)
      ensures Contents() == Snapshot(map[], map[], map[], map[], commits)
    {
      blobs, refs, revisions, active := map[], map[], map[], map[];
      this.commits := commits;
    }

    function Contents(): Snapshot
      reads this
    {
      Snapshot(blobs, refs, revisions, active, commits)
    }

    method Put(s: Scheme, kind: ObjectKind, bytes: string) returns (o: ObjectRef)
      modifies this
      ensures o == ObjectRef(kind, s.blobId(bytes))
      ensures Contents() == SemanticObjects.Put(s, old(Contents()), kind, bytes)
    {
      var id := s.blobId(bytes);
      blobs := blobs[id := bytes];
      o := ObjectRef(kind, id);
      refs := refs[o := id];
    }

    method SignDocument(s: Scheme, o: ObjectRef, actor: nat) returns (result: Result<ObjectRef>)
      modifies this
      ensures result == match Get(old(Contents()), o)
                        case Ok(bytes) => Ok(ObjectRef(Signature, s.blobId(SignedDocument(s, o, actor, bytes))))
                        case Err(error) => Err(error)
      ensures Contents() == match Sign(s, old(Contents()), o, actor)
                            case Ok(signed) => signed
                            case Err(_) => old(Contents())
      ensures result.Ok? <==> exists bytes :: Stored(old(Contents()), o, bytes)
      ensures forall bytes :: Stored(old(Contents()), o, bytes) ==>
        var text := s.signatureText(SignatureDocument(o, actor, s.publicKey(actor), s.sign(actor, bytes)));
        && result == Ok(ObjectRef(Signature, s.blobId(text)))
        && blobs == old(blobs)[s.blobId(text) := text]
        && refs == old(refs)[result.value := s.blobId(text)]
      ensures revisions == old(revisions) && active == old(active)
    {
      GetStored(Contents(), o);
      var bytes := Get(Contents(), o);
      if bytes.Err? {
        return Err(bytes.error);
      }
      var signature := Put(s, Signature, SignedDocument(s, o, actor, bytes.value));
      result := Ok(signature);
    }

    method PublishSignedRevision(s: Scheme, o: ObjectRef, reference: string, actor: nat)
      returns (result: Result<ObjectRef>)
      modifies this
      ensures result == match Publish(s, old(Contents()), o, reference, actor)
                        case Ok(_) => Ok(o)
                        case Err(error) => Err(error)
      ensures Contents() == match Publish(s, old(Contents()), o, reference, actor)
                            case Ok(published) => published
                            case Err(_) => old(Contents())
      ensures reference in old(revisions) && old(revisions)[reference] != o.hash ==> result == Err(Integrity)
      ensures result.Ok? <==>
        && (reference in old(revisions) ==> old(revisions)[reference] == o.hash)
        && exists bytes :: Stored(old(Contents()), o, bytes)
      ensures result.Ok? ==> result == Ok(o) && revisions == old(revisions)[reference := o.hash]
      ensures result.Ok? ==> forall bytes :: Stored(old(Contents()), o, bytes) ==>
        var text := s.signatureText(SignatureDocument(o, actor, s.publicKey(actor), s.sign(actor, bytes)));
        && blobs == old(blobs)[s.blobId(text) := text]
        && refs == old(refs)[ObjectRef(Signature, s.blobId(text)) := s.blobId(text)]
      ensures result.Err? ==> Contents() == old(Contents())
      ensures active == old(active)
    {
      GetStored(Contents(), o);
      if reference in revisions {
        if revisions[reference] != o.hash {
          return Err(Integrity);
        }
        var resigned := SignDocument(s, o, actor);
        if resigned.Err? {
          return Err(resigned.error);
        }
        assert revisions == revisions[reference := o.hash];
        return Ok(o);
      }
      var signed := SignDocument(s, o, actor);
      if signed.Err? {
        return Err(signed.error);
      }
      revisions := revisions[reference := o.hash];
      result := Ok(o);
    }

    /** `activate_state`: verify, then bind to the commit. */
    method ActivateState(s: Scheme, commit: nat, state: ObjectRef, minimum: nat) returns (result: Result<()>)
      modifies this
      ensures result.Ok? <==> CanActivate(s, old(Contents()), commit, state, minimum)
      ensures Contents() == if result.Ok? then old(Contents()).(active := old(active[commit := state.hash]))
          else old(Contents())
    {
      hide Verified;
      var verified := VerifyActiveState(s, Contents(), state, minimum);
      if verified.Err? {
        return Err(verified.error);
      }
      var bound := BindStateUnchecked(s, commit, state);
      VerifiedIs(s, old(Contents()), state, minimum);
      result := bound;
    }

    method BindStateUnchecked(s: Scheme, commit: nat, state: ObjectRef) returns (result: Result<()>)
      modifies this
      ensures result.Ok? <==>
        && Readable(s, old(Contents()), state)
        && ManifestOf(s, old(Contents()), state).value.commit == commit && commit in commits
      ensures Contents() == if result.Ok? then old(Contents()).(active := old(active[commit := state.hash]))
          else old(Contents())
    {
      if !state.kind.State? {
        return Err(Invalid);
      }
      hide Complete;
      var manifest := GetState(s, Contents(), state);
      if manifest.Err? {
        return Err(manifest.error);
      }
      if manifest.value.commit != commit {
        return Err(Integrity);
      }
      if commit !in commits {
        return Err(External);
      }
      active := active[commit := state.hash];
      result := Ok(());
    }
  }

  lemma VerifiedIs(s: Scheme, g: Snapshot, o: ObjectRef, minimum: nat)
    ensures Verified(s, g, o, minimum) ==> Readable(s, g, o) && ManifestOf(s, g, o).Ok?
  {
  }

  // ----- runs -----

  datatype Step =
    | PutStep(kind: ObjectKind, bytes: string)
    | SignStep(subject: ObjectRef, actor: nat)
    | PublishStep(subject: ObjectRef, reference: string, actor: nat)
    | ActivateStep(commit: nat, state: ObjectRef)

  ghost function After(s: Scheme, g: Snapshot, step: Step, minimum: nat): Snapshot {
    match step
    case PutStep(kind, bytes) => Put(s, g, kind, bytes)
    case SignStep(subject, actor) => (match Sign(s, g, subject, actor) case Ok(signed) => signed case Err(_) => g)
    case PublishStep(subject, reference, actor) =>
      (match Publish(s, g, subject, reference, actor) case Ok(published) => published case Err(_) => g)
    case ActivateStep(commit, state) =>
      if CanActivate(s, g, commit, state, minimum) then g.(active := g.active[commit := state.hash]) else g
  }

  ghost function Run(s: Scheme, g: Snapshot, steps: seq<Step>, minimum: nat): Snapshot {
    if steps == [] then g else After(s, Run(s, g, steps[..|steps| - 1], minimum), steps[|steps| - 1], minimum)
  }

  lemma PutExtends(s: Scheme, g: Snapshot, kind: ObjectKind, bytes: string)
    requires Sound(s) && Intact(s, g)
    ensures Intact(s, Put(s, g, kind, bytes)) && Extends(g, Put(s, g, kind, bytes))
  {
  }

  lemma SignExtends(s: Scheme, g: Snapshot, o: ObjectRef, actor: nat)
    requires Sound(s) && Intact(s, g) && Sign(s, g, o, actor).Ok?
    ensures Intact(s, Sign(s, g, o, actor).value) && Extends(g, Sign(s, g, o, actor).value)
    ensures Sign(s, g, o, actor).value.revisions == g.revisions
  {
    hide Intact, Extends, Sound;
    PutExtends(s, g, Signature, SignedDocument(s, o, actor, Get(g, o).value));
  }

  lemma PublishExtends(s: Scheme, g: Snapshot, o: ObjectRef, reference: string, actor: nat)
    requires Sound(s) && Intact(s, g) && Publish(s, g, o, reference, actor).Ok?
    ensures Intact(s, Publish(s, g, o, reference, actor).value) && Extends(g, Publish(s, g, o, reference, actor).value)
  {
    SignExtends(s, g, o, actor);
    hide Sign, Sound;
    RevisionExtends(s, g, Sign(s, g, o, actor).value, reference, o.hash);
  }

  lemma RevisionExtends(s: Scheme, g: Snapshot, signed: Snapshot, reference: string, target: nat)
    requires Intact(s, signed) && Extends(g, signed) && signed.revisions == g.revisions
    requires reference in g.revisions ==> g.revisions[reference] == target
    ensures
      var published := signed.(revisions := signed.revisions[reference := target]);
      Intact(s, published) && Extends(g, published)
  {
  }

  lemma StepExtends(s: Scheme, g: Snapshot, step: Step, minimum: nat)
    requires Sound(s) && Intact(s, g)
    ensures Intact(s, After(s, g, step, minimum)) && Extends(g, After(s, g, step, minimum))
  {
    match step
    case PutStep(kind, bytes) => PutExtends(s, g, kind, bytes);
    case SignStep(subject, actor) =>
      hide Sign, Sound;
      if Sign(s, g, subject, actor).Ok? {
        SignExtends(s, g, subject, actor);
      }
    case PublishStep(subject, reference, actor) =>
      hide Publish, Sound;
      if Publish(s, g, subject, reference, actor).Ok? {
        PublishExtends(s, g, subject, reference, actor);
      }
    case ActivateStep(commit, state) =>
      hide CanActivate, Sound;
  }

  lemma ExtendsTransitive(a: Snapshot, b: Snapshot, c: Snapshot)
    requires Extends(a, b) && Extends(b, c)
    ensures Extends(a, c)
  {
  }

  /** Every active state passes the policy, is for its commit, and the commit exists. */
  ghost predicate ActiveVerified(s: Scheme, g: Snapshot, minimum: nat) {
    forall commit :: commit in g.active ==> CanActivate(s, g, commit, ObjectRef(State, g.active[commit]), minimum)
  }

  lemma StepKeepsActive(s: Scheme, g: Snapshot, step: Step, minimum: nat)
    requires Sound(s) && Intact(s, g) && ActiveVerified(s, g, minimum)
    ensures ActiveVerified(s, After(s, g, step, minimum), minimum)
  {
    var h := After(s, g, step, minimum);
    StepExtends(s, g, step, minimum);
    forall commit | commit in h.active
      ensures CanActivate(s, h, commit, ObjectRef(State, h.active[commit]), minimum)
    {
      var o := ObjectRef(State, h.active[commit]);
      ActiveBefore(s, g, step, minimum, commit);
      VerifiedStays(s, g, h, o, minimum);
    }
  }

  lemma ActiveBefore(s: Scheme, g: Snapshot, step: Step, minimum: nat, commit: nat)
    requires ActiveVerified(s, g, minimum) && commit in After(s, g, step, minimum).active
    ensures CanActivate(s, g, commit, ObjectRef(State, After(s, g, step, minimum).active[commit]), minimum)
  {
    hide Quorum, Reached, Complete;
  }

  /** Over any run of put, sign, publish and activate steps nothing stored and no
      revision ref changes, a verified state stays verified, and the active states are
      verified. */
  lemma {:induction false} RunKeeps(s: Scheme, g: Snapshot, steps: seq<Step>, minimum: nat)
    requires Sound(s) && Intact(s, g)
    ensures Intact(s, Run(s, g, steps, minimum)) && Extends(g, Run(s, g, steps, minimum))
    ensures forall o, m: nat :: Verified(s, g, o, m) ==> Verified(s, Run(s, g, steps, minimum), o, m)
    ensures ActiveVerified(s, g, minimum) ==> ActiveVerified(s, Run(s, g, steps, minimum), minimum)
    decreases |steps|
  {
    hide Verified, ActiveVerified, Extends, Intact, After, Sound;
    var h := Run(s, g, steps, minimum);
    if steps == [] {
      ExtendsItself(g);
    } else {
      var init := Run(s, g, steps[..|steps| - 1], minimum);
      RunKeeps(s, g, steps[..|steps| - 1], minimum);
      StepExtends(s, init, steps[|steps| - 1], minimum);
      ExtendsTransitive(g, init, h);
      if ActiveVerified(s, g, minimum) {
        StepKeepsActive(s, init, steps[|steps| - 1], minimum);
      }
    }
    forall o, m: nat | Verified(s, g, o, m)
      ensures Verified(s, h, o, m)
    {
      VerifiedStays(s, g, h, o, m);
    }
  }

  lemma ExtendsItself(g: Snapshot)
    ensures Extends(g, g)
  {
  }

  /** The store already holds an object with these bytes. */
  ghost predicate Holds(s: Scheme, g: Snapshot, kind: ObjectKind, bytes: string) {
    var id := s.blobId(bytes);
    id in g.blobs && g.blobs[id] == bytes && ObjectRef(kind, id) in g.refs && g.refs[ObjectRef(kind, id)] == id
  }

  lemma PutAgain(s: Scheme, g: Snapshot, kind: ObjectKind, bytes: string)
    requires Holds(s, g, kind, bytes)
    ensures Put(s, g, kind, bytes) == g
  {
    var id := s.blobId(bytes);
    assert g.blobs[id := bytes] == g.blobs && g.refs[ObjectRef(kind, id) := id] == g.refs;
  }

  lemma HoldsStays(s: Scheme, a: Snapshot, b: Snapshot, kind: ObjectKind, bytes: string)
    requires Extends(a, b) && Holds(s, a, kind, bytes)
    ensures Holds(s, b, kind, bytes)
  {
  }

  lemma GetStays(a: Snapshot, b: Snapshot, o: ObjectRef)
    requires Extends(a, b) && Get(a, o).Ok?
    ensures Get(b, o) == Get(a, o)
  {
  }

  /** Publishing again what was published before, however much the store has grown in
      between, succeeds and changes nothing. */
  lemma PublishAgain(s: Scheme, g: Snapshot, h: Snapshot, o: ObjectRef, reference: string, actor: nat)
    requires Sound(s) && Intact(s, g) && Publish(s, g, o, reference, actor).Ok?
    requires Extends(Publish(s, g, o, reference, actor).value, h)
    ensures Publish(s, h, o, reference, actor) == Ok(h)
  {
    var published := Publish(s, g, o, reference, actor).value;
    PublishExtends(s, g, o, reference, actor);
    Published(s, g, o, reference, actor);
    hide Publish, Intact, Sound, SignedDocument, Get, Put, Holds;
    GetStays(g, published, o);
    GetStays(published, h, o);
    var text := SignedDocument(s, o, actor, Get(g, o).value);
    HoldsStays(s, published, h, Signature, text);
    PutAgain(s, h, Signature, text);
    Republish(s, h, o, reference, actor);
  }

  lemma Published(s: Scheme, g: Snapshot, o: ObjectRef, reference: string, actor: nat)
    requires Publish(s, g, o, reference, actor).Ok?
    ensures
      var published := Publish(s, g, o, reference, actor).value;
      && Get(g, o).Ok? && Holds(s, published, Signature, SignedDocument(s, o, actor, Get(g, o).value))
      && reference in published.revisions && published.revisions[reference] == o.hash
  {
  }

  lemma Republish(s: Scheme, h: Snapshot, o: ObjectRef, reference: string, actor: nat)
    requires reference in h.revisions && h.revisions[reference] == o.hash && Get(h, o).Ok?
    requires Put(s, h, Signature, SignedDocument(s, o, actor, Get(h, o).value)) == h
    ensures Publish(s, h, o, reference, actor) == Ok(h)
  {
    assert h.revisions[reference := o.hash] == h.revisions;
  }

  /** A retry of a publication after any run of steps changes nothing. */
  lemma ReplayInRun(s: Scheme, g: Snapshot, o: ObjectRef, reference: string, actor: nat, steps: seq<Step>, minimum: nat)
    requires Sound(s) && Intact(s, g) && Publish(s, g, o, reference, actor).Ok?
    ensures
      var step := PublishStep(o, reference, actor);
      var h := Run(s, After(s, g, step, minimum), steps, minimum);
      Publish(s, h, o, reference, actor) == Ok(h) && After(s, h, step, minimum) == h
  {
    var published := Publish(s, g, o, reference, actor).value;
    PublishExtends(s, g, o, reference, actor);
    RunKeeps(s, published, steps, minimum);
    PublishAgain(s, g, Run(s, published, steps, minimum), o, reference, actor);
    hide Publish, Run, Extends, Intact, Sound;
  }

  lemma SignedRef(s: Scheme, g: Snapshot, o: ObjectRef, actor: nat, subject: ObjectRef)
    requires Sound(s) && Intact(s, g) && Get(g, o).Ok?
    ensures
      var text := SignedDocument(s, o, actor, Get(g, o).value);
      var added := ObjectRef(Signature, s.blobId(text));
      var document := SignatureDocument(o, actor, s.publicKey(actor), s.sign(actor, Get(g, o).value));
      Signing(s, Sign(s, g, o, actor).value, added, subject) == if subject == o then Some(document) else None
  {
  }

  lemma OtherRefs(s: Scheme, g: Snapshot, bytes: string, r: ObjectRef, subject: ObjectRef)
    requires Sound(s) && Intact(s, g) && r != ObjectRef(Signature, s.blobId(bytes))
    ensures Signing(s, Put(s, g, Signature, bytes), r, subject) == Signing(s, g, r, subject)
  {
    if r in g.refs && r.kind.Signature? {
      var o := ObjectRef(Signature, g.refs[r]);
      assert Get(Put(s, g, Signature, bytes), o) == Get(g, o);
    }
  }

  /** A store that gains one signature gains its signer and no other. */
  lemma OneMoreSigner(s: Scheme, g: Snapshot, h: Snapshot, added: ObjectRef, subject: ObjectRef, bytes: string)
    requires h.refs.Keys == g.refs.Keys + {added}
    requires forall r :: r != added ==> Signing(s, h, r, subject) == Signing(s, g, r, subject)
    requires added in g.refs && IsSigner(s, g, added, subject, bytes) ==>
        Signing(s, h, added, subject) == Signing(s, g, added, subject)
    ensures Signers(s, h, subject, bytes)
         == Signers(s, g, subject, bytes)
          + (if IsSigner(s, h, added, subject, bytes) then {Signing(s, h, added, subject).value.signer} else {})
  {
    forall r | r in g.refs && IsSigner(s, g, r, subject, bytes)
      ensures r in h.refs && IsSigner(s, h, r, subject, bytes) && Signing(s, h, r, subject) == Signing(s, g, r, subject)
    {
    }
    hide Signing;
  }

  /** Signing adds the actor to the signers of the object, and no one else to those of
      any object. */
  lemma SignAddsSigner(s: Scheme, g: Snapshot, o: ObjectRef, actor: nat, subject: ObjectRef)
    requires Sound(s) && Intact(s, g) && Get(g, o).Ok? && Get(g, subject).Ok?
    ensures
      var signed := Sign(s, g, o, actor).value;
      && Get(signed, subject) == Get(g, subject)
      && Signers(s, signed, subject, Get(g, subject).value)
         == Signers(s, g, subject, Get(g, subject).value) + (if subject == o then {actor} else {})
  {
    var signed := Sign(s, g, o, actor).value;
    var bytes := Get(g, subject).value;
    var text := SignedDocument(s, o, actor, Get(g, o).value);
    var added := ObjectRef(Signature, s.blobId(text));
    PutExtends(s, g, Signature, text);
    assert Get(signed, subject) == Ok(bytes);
    SignedRef(s, g, o, actor, subject);
    assert IsSigner(s, signed, added, subject, bytes) <==> subject == o;
    if added in g.refs && IsSigner(s, g, added, subject, bytes) {
      SigningStays(s, g, signed, added, subject);
    }
    hide IsSigner, Signers, Signing, Get, SignedDocument, Extends, Intact;
    forall r | r != added
      ensures Signing(s, signed, r, subject) == Signing(s, g, r, subject)
    {
      OtherRefs(s, g, text, r, subject);
    }
    OneMoreSigner(s, g, signed, added, subject, bytes);
  }
}
