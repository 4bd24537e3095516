/** The generated handlers as they run, each in a transaction of its own on the in-memory backend. */
module EntityHandlers {
  import opened Options
  import opened Json
  import opened EntityKeys
  import opened MemoryStore
  import opened MemoryBackend
  import opened Interleavings
  import opened EntityLifecycle
  import opened StatusResponses
  import opened Codecs

  datatype Response =
    | Created(record: VersionedRecord)
    | Changed(record: VersionedRecord, body: Json)
    | NotFound
    | Failed(reason: string)
    | Conflict

  /** A transaction and the log of what it has done so far, on a state that nobody else changes. */
  class Session {
    const state: InMemoryState
    const tx: InMemoryTransaction
    ghost const before: Store
    ghost var log: Log

    ghost predicate Valid()
      reads this, state, tx
    {
      && tx.state == state && tx.rule == KeepFirst && tx.open && StoredWell(before) && state.Contents() == before
      && tx.Staged() == RunAlone(before, log) && Repeats(before, log)
    }

    constructor (state: InMemoryState)
      requires StoredWell(state.Contents())
      ensures this.state == state && fresh(tx) && Valid() && log == [] && before == state.Contents()
    {
      this.state := state;
      tx := new InMemoryTransaction(state, KeepFirst);
      before, log := state.Contents(), [];
    }

    method ReadAt(k: RecordKey) returns (found: Option<VersionedRecord>)
      requires Valid()
      modifies this, tx
      ensures Valid() && log == old(log) + [Done(Read(k), found)]
    {
      var r := tx.GetRecord(k);
      found := r.value;
      RunOneMore(before, log, Done(Read(k), found));
      log := log + [Done(Read(k), found)];
    }

    method WriteAt(k: RecordKey, document: Json)
      requires Valid()
      modifies this, tx
      ensures Valid() && log == old(log) + [Done(Write(k, document), None)]
    {
      var _ := tx.PutRecord(k, document);
      RunOneMore(before, log, Done(Write(k, document), None));
      log := log + [Done(Write(k, document), None)];
    }

    /** Publishes what was done, which fails only if it touched an erased key. */
    method Finish() returns (committed: bool)
      requires Valid()
      modifies this, tx, state
      ensures committed <==> forall k :: k in RunAlone(before, log).seen ==> !Erased(before, k)
      ensures state.Contents() == if committed then Applied(before, RunAlone(before, log)) else before
      ensures log == old(log)
    {
      RunAloneStaged(before, log);
      CommitsAloneIff(before, log);
      var r := tx.Commit();
      committed := r.Ok?;
    }
  }

  /** The store changes as by a log that a handler of the request leaves behind. */
  ghost predicate Ran(e: Entity, request: Request, s: Store, z: Store) {
    exists log: Log :: Handles(e, request, log) && Repeats(s, log) && z == Applied(s, RunAlone(s, log))
  }

  /** The body of a change's response, assembled field by field once the change is committed. */
  method Assemble(request: Request, output: Option<seq<Field>>, document: Json) returns (body: Option<Json>)
    requires !request.Create?
    ensures body == Body(request, output, document)
  {
    if request.Delete? { return Some(Obj(map[])); }
    if output.None? { return Some(document); }
    var record := DecodeResponse(Required(output.value), document);
    if record.None? { return None; }
    AssembledEncodes(output.value, document);
    var members := EncodeResponse(output.value, record.value);
    return Some(Obj(members.value));
  }

  /**
   The update_status and delete handlers, which differ in the status they ask for.  An error other
   than a failed assembly leaves the store as it was; a failed assembly comes after the commit.
   */
  method ChangeStatus(state: InMemoryState, e: Entity, request: Request, output: Option<seq<Field>>)
    returns (response: Response)
    requires StoredWell(state.Contents()) && Asks(e, request)
    modifies state
    ensures var (s, k) := (old(state.Contents()), KeyOf(e, request.key));
      && (state.Contents() == if MayChange(s, e, request) then PutRecord(s, WrittenRecord(s, e, request)) else s)
      && (MayChange(s, e, request) ==> Ran(e, request, s, state.Contents()))
      && (response.NotFound? <==> k !in s.records && !Erased(s, k))
      && (response.Conflict? <==> Erased(s, k))
      && !response.Created?
      && (response.Changed? <==>
            MayChange(s, e, request) && CanAnswer(request, output, WrittenRecord(s, e, request).document))
      && (response.Changed? ==>
            response.record == WrittenRecord(s, e, request) &&
            Body(request, output, response.record.document) == Some(response.body))
    ensures ChangedAsAsked(old(state.Contents()), state.Contents(), e, request)
    ensures response.Changed? && (request.Delete? || output.None?) ==>
      response.body == if request.Delete? then Obj(map[]) else response.record.document
    ensures var s := old(state.Contents());
      !response.Changed? && state.Contents() != s <==>
        MayChange(s, e, request) && !CanAnswer(request, output, WrittenRecord(s, e, request).document)
  {
    hide Applied, KeyOf, DocumentWithKeys, Restatus, Perform, RunAlone, Repeats, CanAnswer, Keyed, Restated;
    BodyIsPlain(request, output);
    hide Body;
    var s := new Session(state);
    ghost var before := s.before;
    WrittenAsAsked(before, e, request);
    MayChangeIff(before, e, request);
    hide WellFormed, MayChange, Allowed, ChangedAsAsked;
    var k, status := KeyOf(e, request.key), StatusOfRequest(request);
    var found := s.ReadAt(k);
    assert s.log == [Done(Read(k), found)];
    ReadFirst(before, k, found);
    if found.None? {
      var finished := s.Finish();
      return if finished then NotFound else Conflict;
    }
    var current := StatusOf(found.value.document);
    if current.None? { return Failed("missing required API field"); }
    if !Allowed(e, current.value, status) { return Failed("invalid entity status transition"); }
    var again := s.ReadAt(k);
    ReadAgain(before, k, found, again);
    if again.None? || again.value.version != found.value.version { return Conflict; }
    var document :=
      DocumentWithKeys(Restatus(found.value.document, status, request.now), KeyPairs(e.keyFields, request.key));
    s.WriteAt(k, document);
    var made := s.ReadAt(k);
    WrittenOnce(before, [Done(Read(k), found)], k, document, again, made);
    if made.None? { return Failed("entity update failed"); }
    ghost var log := s.log;
    assert StatusWritten(e, k, request.key, status, request.now, found.value, again.value, made, log);
    var committed := s.Finish();
    if !committed { return Conflict; }
    assert Handles(e, request, log);
    var body := Assemble(request, output, made.value.document);
    if body.None? { return Failed("missing required API field"); }
    return Changed(made.value, body.value);
  }

  /** A delete answers with an empty object, an update without an output shape with the document. */
  lemma BodyIsPlain(request: Request, output: Option<seq<Field>>)
    requires !request.Create?
    ensures request.Delete? || output.None? ==>
      forall document :: Body(request, output, document) == Some(if request.Delete? then Obj(map[]) else document)
  {
  }

  lemma ReadFirst(s: Store, k: RecordKey, found: Option<VersionedRecord>)
    requires StoredWell(s) && Repeats(s, [Done(Read(k), found)])
    ensures var log := [Done(Read(k), found)];
      && found == Lookup(s, k) && Applied(s, RunAlone(s, log)) == s
      && RunAlone(s, log).seen.Keys == {k}
  {
    var log := [Done(Read(k), found)];
    assert log[..0] == [];
    AppliedNothing(s, RunAlone(s, log));
  }

  lemma ReadAgain(s: Store, k: RecordKey, found: Option<VersionedRecord>, again: Option<VersionedRecord>)
    requires StoredWell(s) && Repeats(s, [Done(Read(k), found)] + [Done(Read(k), again)])
    ensures found == again == Lookup(s, k)
  {
    var log := [Done(Read(k), found)];
    assert log[..0] == [] && (log + [Done(Read(k), again)])[..1] == log;
  }

  /** After looking up records that are there, a handler reads a key, writes it and reads it back. */
  lemma WrittenOnce(
    s: Store, looked: Log, k: RecordKey, document: Json, found: Option<VersionedRecord>, made: Option<VersionedRecord>)
    requires StoredWell(s) && OnlyReads(looked) && RunAlone(s, looked).seen.Keys <= s.records.Keys
    requires Repeats(s, looked + [Done(Read(k), found)] + [Done(Write(k, document), None)] + [Done(Read(k), made)])
    ensures var log := looked + [Done(Read(k), found)] + [Done(Write(k, document), None)] + [Done(Read(k), made)];
      && made == Some(VersionedRecord(k, 0, document))
      && Applied(s, RunAlone(s, log)) == PutRecord(s, VersionedRecord(k, 0, document))
      && ((forall x :: x in RunAlone(s, log).seen ==> !Erased(s, x)) <==> !Erased(s, k))
  {
    var first := looked + [Done(Read(k), found)];
    var log := first + [Done(Write(k, document), None)] + [Done(Read(k), made)];
    ReadsStageNothing(s, looked);
    ReadPlain(s, looked, k, found);
    WriteOnce(s, first, k, document, made);
    hide RunAlone, Repeats;
    assert RunAlone(s, log).seen.Keys == RunAlone(s, looked).seen.Keys + {k};
    assert forall x :: x in RunAlone(s, log).seen <==> x in RunAlone(s, log).seen.Keys;
    PutOne(s, RunAlone(s, log), VersionedRecord(k, 0, document));
  }

  lemma PutOne(s: Store, tx: Tx, r: VersionedRecord)
    requires tx.puts == map[r.key := r] && tx.erases == {}
    ensures Applied(s, tx) == PutRecord(s, r)
  {
    var none := tx.(puts := map[]);
    AppliedNothing(s, none);
    AppliedPut(s, none, r);
    assert none.(puts := none.puts[r.key := r]) == tx;
  }

  // ------------------------------------------------------------------------------------ creation

  predicate ParentsThere(s: Store, parents: seq<RecordKey>) {
    forall p :: p in parents ==> p in s.records
  }

  predicate HasNewKey(e: Entity, values: map<string, Json>, now: string) {
    forall f :: f in e.keyFields ==>
      f in e.fields && (f in {"created_at", "updated_at", "status"} || f in values)
  }

  function NewKey(e: Entity, values: map<string, Json>, now: string): RecordKey
    requires HasNewKey(e, values, now)
  {
    KeyOf(e, KeyTuple(e.keyFields, NewDocument(e, values, now)))
  }

  function NewRecord(e: Entity, values: map<string, Json>, now: string): VersionedRecord
    requires HasNewKey(e, values, now)
  {
    VersionedRecord(NewKey(e, values, now), 0, Obj(NewDocument(e, values, now)))
  }

  /** The key of a new record is made of the values requested for the key fields. */
  lemma NewKeyIsRequested(e: Entity, values: map<string, Json>, now: string, key: seq<Json>)
    requires HasNewKey(e, values, now) && |key| == |e.keyFields|
    requires forall i :: 0 <= i < |key| ==>
      e.keyFields[i] !in {"created_at", "updated_at", "status"} && key[i] == values[e.keyFields[i]]
    ensures NewKey(e, values, now) == KeyOf(e, key)
  {
    hide KeyOf;
    assert KeyTuple(e.keyFields, NewDocument(e, values, now)) == key;
  }

  /** Two creations whose requests differ in a key field do not stand in each other's way. */
  lemma CreatesApart(
    s: Store, e: Entity, a: map<string, Json>, b: map<string, Json>, now: string, later: string, f: string)
    requires HasNewKey(e, a, now) && HasNewKey(e, b, later)
    requires f in e.keyFields && f !in {"created_at", "updated_at", "status"} && a[f] != b[f]
    ensures var (z, k) := (PutRecord(s, NewRecord(e, a, now)), NewKey(e, b, later));
      (k in z.records <==> k in s.records) && (Erased(z, k) <==> Erased(s, k))
  {
    hide KeyText;
    var p, q := KeyTuple(e.keyFields, NewDocument(e, a, now)), KeyTuple(e.keyFields, NewDocument(e, b, later));
    var i :| 0 <= i < |e.keyFields| && e.keyFields[i] == f;
    assert p[i] == a[f] && q[i] == b[f];
    if KeyText(e.keyFields, p) == KeyText(e.keyFields, q) { KeyTextInjective(e.keyFields, p, q); }
  }

  lemma NewDocumentFields(e: Entity, values: map<string, Json>, now: string)
    ensures HasNewKey(e, values, now) <==> HasKeys(e.keyFields, NewDocument(e, values, now))
  {
  }

  lemma NewRecordHolds(e: Entity, values: map<string, Json>, now: string)
    requires HasNewKey(e, values, now)
    ensures HoldsRequest(e, values, now, NewRecord(e, values, now).document)
    ensures Keyed(e, NewRecord(e, values, now).document, NewKey(e, values, now))
  {
    hide KeyOf;
  }

  lemma NothingSeen(s: Store)
    ensures OnlyReads([]) && RunAlone(s, []).seen.Keys == {}
  {
  }

  /** One more read, of a key that was not written, returns what the store has. */
  lemma LookedUp(s: Store, looked: Log, k: RecordKey, found: Option<VersionedRecord>)
    requires OnlyReads(looked) && Repeats(s, looked + [Done(Read(k), found)])
    ensures found == Lookup(s, k) && OnlyReads(looked + [Done(Read(k), found)])
    ensures RunAlone(s, looked + [Done(Read(k), found)]).seen.Keys == RunAlone(s, looked).seen.Keys + {k}
  {
    ReadsStageNothing(s, looked);
    ReadPlain(s, looked, k, found);
  }

  /** Reads the parents of a new record, up to the first that is missing. */
  method FindParents(s: Session, parents: seq<RecordKey>) returns (allFound: bool)
    requires s.Valid() && s.log == []
    modifies s, s.tx
    ensures s.Valid() && OnlyReads(s.log)
    ensures allFound <==> ParentsThere(s.before, parents)
    ensures allFound ==> RunAlone(s.before, s.log).seen.Keys <= s.before.records.Keys
  {
    hide RunAlone, Repeats, OnlyReads;
    NothingSeen(s.before);
    for i := 0 to |parents|
      invariant s.Valid() && OnlyReads(s.log) && RunAlone(s.before, s.log).seen.Keys <= s.before.records.Keys
      invariant forall j :: 0 <= j < i ==> parents[j] in s.before.records
    {
      ghost var log := s.log;
      var parent := s.ReadAt(parents[i]);
      LookedUp(s.before, log, parents[i], parent);
      if parent.None? {
        assert parents[i] in parents;
        return false;
      }
    }
    return true;
  }

  /** The create handler, after `parents` were found to be needed. */
  method CreateRecord(
    state: InMemoryState, e: Entity, values: map<string, Json>, now: string, parents: seq<RecordKey>)
    returns (response: Response)
    requires StoredWell(state.Contents())
    modifies state
    ensures var s := old(state.Contents());
      var ready := ParentsThere(s, parents) && HasNewKey(e, values, now);
      && (response.Created? || response.Failed? || response.Conflict?)
      && (response.Failed? <==> !ready)
      && (response.Created? <==>
            ready && NewKey(e, values, now) !in s.records && !Erased(s, NewKey(e, values, now)))
      && (response.Created? ==>
            && HoldsRequest(e, values, now, response.record.document)
            && Keyed(e, response.record.document, response.record.key)
            && response.record == NewRecord(e, values, now)
            && state.Contents() == PutRecord(s, NewRecord(e, values, now))
            && Ran(e, Create(values, now), s, state.Contents()))
      && (!response.Created? ==> state.Contents() == s)
  {
    hide Applied, KeyOf, DocumentWithKeys, NewDocument, RunAlone, Repeats, OnlyReads;
    var s := new Session(state);
    ghost var before := s.before;
    var allFound := FindParents(s, parents);
    if !allFound { return Failed("missing required parent"); }
    ghost var looked := s.log;
    var fields := NewDocument(e, values, now);
    NewDocumentFields(e, values, now);
    if exists f :: f in e.keyFields && f !in fields { return Failed("entity create failed"); }
    NewRecordHolds(e, values, now);
    hide HoldsRequest, Keyed;
    var k := KeyOf(e, KeyTuple(e.keyFields, fields));
    var existing := s.ReadAt(k);
    LookedUp(before, looked, k, existing);
    if existing.Some? { return Conflict; }
    var document := DocumentWithKeys(Obj(fields), KeyValuesOf(e.keyFields, fields));
    NewDocumentSame(e, fields);
    s.WriteAt(k, document);
    var made := s.ReadAt(k);
    WrittenOnce(before, looked, k, document, existing, made);
    if made.None? { return Failed("entity create failed"); }
    ghost var log := s.log;
    assert CreateLog(e, values, now, looked, log);
    var committed := s.Finish();
    if !committed { return Conflict; }
    assert Handles(e, Create(values, now), log);
    return Created(made.value);
  }
}
