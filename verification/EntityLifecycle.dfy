/** The generated create, update_status and delete handlers, and what they keep of the records of an entity. */
module EntityLifecycle {
  import opened Options
  import opened Json
  import opened EntityKeys
  import opened MemoryStore
  import opened Interleavings

  datatype Entity = Entity(
    name: string, fields: set<string>, keyFields: seq<string>,
    initialState: Option<string>, transitions: set<(string, string)>)

  const STATUS := "status"
  const CREATED_AT := "created_at"
  const UPDATED_AT := "updated_at"
  const DELETED := "Deleted"

  predicate WellFormed(e: Entity) {
    STATUS in e.fields && STATUS !in e.keyFields && UPDATED_AT !in e.keyFields
  }

  function Initial(e: Entity): string {
    if e.initialState.Some? then e.initialState.value else "Created"
  }

  predicate Allowed(e: Entity, from: string, target: string) {
    from == target || (from, target) in e.transitions
  }

  // ---------------------------------------------------------------------------------- documents

  /** The document of a new record; `values` are what the request and the path give. */
  function NewDocument(e: Entity, values: map<string, Json>, now: string): map<string, Json> {
    map f | f in e.fields && (f == CREATED_AT || f == UPDATED_AT || f == STATUS || f in values) ::
      if f == CREATED_AT || f == UPDATED_AT then Str(now)
      else if f == STATUS then Str(Initial(e))
      else values[f]
  }

  /** The key fields a document has, with their values. */
  function KeyValuesOf(keyFields: seq<string>, fields: map<string, Json>): seq<KeyValue> {
    if keyFields == [] then []
    else (if keyFields[0] in fields then [KeyValue(keyFields[0], fields[keyFields[0]])] else [])
         + KeyValuesOf(keyFields[1..], fields)
  }

  predicate HasKeys(keyFields: seq<string>, fields: map<string, Json>) {
    forall f :: f in keyFields ==> f in fields
  }

  function KeyTuple(keyFields: seq<string>, fields: map<string, Json>): seq<Json>
    requires HasKeys(keyFields, fields)
  {
    seq(|keyFields|, i requires 0 <= i < |keyFields| => fields[keyFields[i]])
  }

  function KeyOf(e: Entity, values: seq<Json>): RecordKey
    requires |values| == |e.keyFields|
  {
    RecordKey(e.name, KeyText(e.keyFields, values))
  }

  function StatusOf(document: Json): Option<string> {
    if document.Obj? && STATUS in document.fields && document.fields[STATUS].Str?
    then Some(document.fields[STATUS].s) else None
  }

  /** A record's document with a new status, and the time of the change. */
  function Restatus(document: Json, status: string, now: string): Json
    requires document.Obj?
  {
    Obj(document.fields[STATUS := Str(status)][UPDATED_AT := Str(now)])
  }

  // ----------------------------------------------------------------------------------- handlers

  datatype Request =
    | Create(values: map<string, Json>, now: string)
    | UpdateStatus(key: seq<Json>, status: string, now: string)
    | Delete(key: seq<Json>, now: string)

  /** The key values that update and delete put over the document: one for each key field. */
  function KeyPairs(keyFields: seq<string>, key: seq<Json>): seq<KeyValue>
    requires |keyFields| == |key|
  {
    seq(|keyFields|, i requires 0 <= i < |keyFields| => KeyValue(keyFields[i], key[i]))
  }

  ghost predicate OnlyReads(log: Log) {
    forall i :: 0 <= i < |log| ==> log[i].op.Read?
  }

  /** What a create handler that gets as far as its commit has done, after looking up the parents. */
  ghost predicate CreateLog(e: Entity, values: map<string, Json>, now: string, parents: Log, log: Log) {
    var fields := NewDocument(e, values, now);
    && OnlyReads(parents) && HasKeys(e.keyFields, fields)
    && var k := KeyOf(e, KeyTuple(e.keyFields, fields));
       var document := DocumentWithKeys(Obj(fields), KeyValuesOf(e.keyFields, fields));
       exists made :: log == parents + [Done(Read(k), None)] + [Done(Write(k, document), None)] + [Done(Read(k), made)]
  }

  /** What a handler that changes the status has done by its commit: nothing if there is no record. */
  ghost predicate StatusLog(e: Entity, key: seq<Json>, status: string, now: string, log: Log)
  {
    && |key| == |e.keyFields|
    && var k := KeyOf(e, key);
       || log == [Done(Read(k), None)]
       || exists found, again, made :: StatusWritten(e, k, key, status, now, found, again, made, log)
  }

  ghost predicate StatusWritten(
    e: Entity, k: RecordKey, key: seq<Json>, status: string, now: string,
    found: VersionedRecord, again: VersionedRecord, made: Option<VersionedRecord>, log: Log)
  {
    && |key| == |e.keyFields|
    && StatusOf(found.document).Some? && Allowed(e, StatusOf(found.document).value, status)
    && again.version == found.version
    && var document := DocumentWithKeys(Restatus(found.document, status, now), KeyPairs(e.keyFields, key));
       log == [Done(Read(k), Some(found))] + [Done(Read(k), Some(again))]
              + [Done(Write(k, document), None)] + [Done(Read(k), made)]
  }

  ghost predicate Handles(e: Entity, request: Request, log: Log) {
    match request
    case Create(values, now) => exists parents :: CreateLog(e, values, now, parents, log)
    case UpdateStatus(key, status, now) => StatusLog(e, key, status, now, log)
    case Delete(key, now) => StatusLog(e, key, DELETED, now, log)
  }

  /** Nothing is written to the collection of the entity; records of it may be removed for good. */
  ghost predicate Elsewhere(e: Entity, log: Log) {
    forall i :: 0 <= i < |log| && log[i].op.Write? ==> log[i].op.key.collection != e.name
  }

  ghost predicate Permitted(e: Entity, log: Log) {
    Elsewhere(e, log) || exists request :: Handles(e, request, log)
  }

  // ------------------------------------------------------------------------- the life of a record

  /** The documents written under a key by a log, and by a history of committed logs, in order. */
  function WritesTo(log: Log, k: RecordKey): seq<Json> {
    if log == [] then []
    else
      var last := log[|log| - 1].op;
      WritesTo(log[..|log| - 1], k) + if last.Write? && last.key == k then [last.document] else []
  }

  function Documents(history: seq<Log>, k: RecordKey): seq<Json> {
    if history == [] then [] else Documents(history[..|history| - 1], k) + WritesTo(history[|history| - 1], k)
  }

  /** Two documents that may differ in the status and the time of the last change only. */
  ghost predicate SameApartFromStatus(a: Json, b: Json) {
    && a.Obj? && b.Obj?
    && forall f :: f != STATUS && f != UPDATED_AT ==>
         (f in a.fields <==> f in b.fields) && (f in a.fields ==> a.fields[f] == b.fields[f])
  }

  /** A status may follow itself, or one that a declared transition leads from. */
  ghost predicate StaysOrMoves(e: Entity, from: string, target: string) {
    from != target ==> exists t :: t in e.transitions && t.0 == from && t.1 == target
  }

  /** The document with the status asked for and the time of the change, and otherwise as it was. */
  ghost predicate Restated(before: Json, after: Json, status: string, now: string) {
    && SameApartFromStatus(before, after)
    && "status" in after.fields && after.fields["status"] == Str(status)
    && "updated_at" in after.fields && after.fields["updated_at"] == Str(now)
  }

  /**
   A new document: the time and the initial state in the fields of those names, what was requested
   in every other field of the entity that the request gives, and nothing else.
   */
  ghost predicate HoldsRequest(e: Entity, values: map<string, Json>, now: string, document: Json) {
    && document.Obj?
    && (forall f :: f in document.fields <==>
          f in e.fields && (f in {"created_at", "updated_at", "status"} || f in values))
    && (forall f :: f in {"created_at", "updated_at"} && f in e.fields ==> document.fields[f] == Str(now))
    && ("status" in e.fields ==>
          document.fields["status"] == Str(if e.initialState.Some? then e.initialState.value else "Created"))
    && (forall f :: f in e.fields && f in values && f !in {"created_at", "updated_at", "status"} ==>
          document.fields[f] == values[f])
  }

  /** What a request adds to the documents of a record. */
  ghost predicate Obeys(e: Entity, request: Request, before: seq<Json>, after: Json) {
    match request
    case Create(values, now) => before == [] && HoldsRequest(e, values, now, after)
    case UpdateStatus(_, status, now) => before != [] && Restated(before[|before| - 1], after, status, now)
    case Delete(_, now) => before != [] && Restated(before[|before| - 1], after, "Deleted", now)
  }

  /** The life of a record: from the initial state by declared transitions, all else unchanged. */
  ghost predicate Lives(e: Entity, documents: seq<Json>) {
    && (documents != [] ==> StatusOf(documents[0]) == Some(Initial(e)))
    && (forall i :: 0 <= i < |documents| ==> StatusOf(documents[i]).Some?)
    && (forall i :: 0 < i < |documents| ==>
          && StaysOrMoves(e, StatusOf(documents[i - 1]).value, StatusOf(documents[i]).value)
          && SameApartFromStatus(documents[i - 1], documents[i]))
  }

  ghost predicate Keyed(e: Entity, document: Json, k: RecordKey) {
    document.Obj? && HasKeys(e.keyFields, document.fields) && KeyOf(e, KeyTuple(e.keyFields, document.fields)) == k
  }

  /** The record lives on until it is removed, in the last document written. */
  ghost predicate Kept(e: Entity, s: Store, documents: seq<Json>, k: RecordKey) {
    && (k in s.records <==> documents != [] && !Erased(s, k))
    && Lives(e, documents)
    && (k in s.records ==>
          && s.records[k].document == documents[|documents| - 1]
          && Keyed(e, documents[|documents| - 1], k))
  }

  // ---------------------------------------------------------------------- running a log by hand

  lemma RunOneMore(s: Store, log: Log, d: Done)
    ensures RunAlone(s, log + [d]) == Perform(s, RunAlone(s, log), d.op).0
    ensures Repeats(s, log + [d]) <==> Repeats(s, log) && Perform(s, RunAlone(s, log), d.op).1 == d.result
    ensures forall k ::
      WritesTo(log + [d], k) == WritesTo(log, k) + if d.op.Write? && d.op.key == k then [d.op.document] else []
  {
    hide Perform;
    assert (log + [d])[..|log|] == log;
  }

  lemma {:induction false} ReadsStageNothing(s: Store, log: Log)
    requires OnlyReads(log)
    ensures RunAlone(s, log).puts == map[] && RunAlone(s, log).erases == {}
    ensures forall k :: WritesTo(log, k) == []
  {
    if log != [] { ReadsStageNothing(s, log[..|log| - 1]); }
  }

  lemma {:induction false} UnwrittenStays(s: Store, log: Log, k: RecordKey)
    requires forall i :: 0 <= i < |log| && log[i].op.Write? ==> log[i].op.key != k
    ensures k !in RunAlone(s, log).puts && WritesTo(log, k) == []
    ensures k in RunAlone(s, log).erases <==> Removes(log, k)
  {
    if log != [] {
      var n := |log| - 1;
      UnwrittenStays(s, log[..n], k);
      assert Removes(log, k) <==> Removes(log[..n], k) || log[n].op == Remove(k);
    }
  }

  ghost predicate Removes(log: Log, k: RecordKey) {
    exists i :: 0 <= i < |log| && log[i].op == Remove(k)
  }

  /** A log that has staged nothing reads the key as the store has it, writes it, and reads it again. */
  lemma WriteOnce(s: Store, before: Log, k: RecordKey, document: Json, made: Option<VersionedRecord>)
    requires RunAlone(s, before).puts == map[] && RunAlone(s, before).erases == {}
    ensures var log := before + [Done(Write(k, document), None)] + [Done(Read(k), made)];
      && RunAlone(s, log).puts == map[k := VersionedRecord(k, 0, document)] && RunAlone(s, log).erases == {}
      && RunAlone(s, log).seen.Keys == RunAlone(s, before).seen.Keys + {k}
      && (Repeats(s, log) ==> Repeats(s, before) && made == Some(VersionedRecord(k, 0, document)))
      && forall x :: WritesTo(log, x) == WritesTo(before, x) + if x == k then [document] else []
  {
    var written := before + [Done(Write(k, document), None)];
    RunOneMore(s, before, Done(Write(k, document), None));
    RunOneMore(s, written, Done(Read(k), made));
  }

  lemma ReadPlain(s: Store, before: Log, k: RecordKey, result: Option<VersionedRecord>)
    requires RunAlone(s, before).puts == map[] && RunAlone(s, before).erases == {}
    ensures var log := before + [Done(Read(k), result)];
      && RunAlone(s, log).puts == map[] && RunAlone(s, log).erases == {}
      && RunAlone(s, log).seen.Keys == RunAlone(s, before).seen.Keys + {k}
      && (Repeats(s, log) ==> Repeats(s, before) && result == Lookup(s, k))
      && forall x :: WritesTo(log, x) == WritesTo(before, x)
  {
    RunOneMore(s, before, Done(Read(k), result));
  }

  /** What a committed log does to the store: at most one document is written. */
  ghost predicate Effect(s: Store, log: Log, k: RecordKey, document: Json) {
    && RunAlone(s, log).puts == map[k := VersionedRecord(k, 0, document)] && RunAlone(s, log).erases == {}
    && forall x :: WritesTo(log, x) == if x == k then [document] else []
  }

  lemma CreateEffect(e: Entity, values: map<string, Json>, now: string, parents: Log, log: Log, s: Store)
    returns (k: RecordKey, document: Json)
    requires WellFormed(e) && CreateLog(e, values, now, parents, log) && Repeats(s, log)
    ensures Effect(s, log, k, document) && k !in s.records && Done(Read(k), None) in log
    ensures Keyed(e, document, k) && StatusOf(document) == Some(Initial(e)) && HoldsRequest(e, values, now, document)
  {
    var fields := NewDocument(e, values, now);
    k := KeyOf(e, KeyTuple(e.keyFields, fields));
    NewDocumentSame(e, fields);
    document := Obj(fields);
    var made :| log == parents + [Done(Read(k), None)] + [Done(Write(k, document), None)] + [Done(Read(k), made)];
    ReadsStageNothing(s, parents);
    ReadPlain(s, parents, k, None);
    WriteOnce(s, parents + [Done(Read(k), None)], k, document, made);
    assert log[|parents|] == Done(Read(k), None);
  }

  lemma {:induction false} KeyValuesAreThere(keyFields: seq<string>, fields: map<string, Json>)
    ensures forall kv :: kv in KeyValuesOf(keyFields, fields) ==> kv.field in fields && fields[kv.field] == kv.value
  {
    if keyFields != [] { KeyValuesAreThere(keyFields[1..], fields); }
  }

  /** The key values put over a new document are those it has. */
  lemma NewDocumentSame(e: Entity, fields: map<string, Json>)
    ensures DocumentWithKeys(Obj(fields), KeyValuesOf(e.keyFields, fields)) == Obj(fields)
  {
    KeyValuesAreThere(e.keyFields, fields);
    OverlaySame(fields, KeyValuesOf(e.keyFields, fields));
  }

  lemma StatusEffect(
    e: Entity, k: RecordKey, key: seq<Json>, status: string, now: string,
    found: VersionedRecord, again: VersionedRecord, made: Option<VersionedRecord>, log: Log, s: Store)
    requires WellFormed(e) && StatusWritten(e, k, key, status, now, found, again, made, log) && Repeats(s, log)
    requires k == KeyOf(e, key) && (k in s.records ==> Keyed(e, s.records[k].document, k))
    ensures Lookup(s, k) == Some(found) && Effect(s, log, k, Restatus(found.document, status, now))
    ensures Restated(found.document, Restatus(found.document, status, now), status, now)
  {
    var first: Log := [Done(Read(k), Some(found))];
    var second := first + [Done(Read(k), Some(again))];
    assert [] + first == first;
    ReadsStageNothing(s, []);
    ReadPlain(s, [], k, Some(found));
    ReadPlain(s, first, k, Some(again));
    var document := DocumentWithKeys(Restatus(found.document, status, now), KeyPairs(e.keyFields, key));
    WriteOnce(s, second, k, document, made);
    assert Lookup(s, k) == Some(found);
    KeysUnchanged(e, key, found.document, status, now);
  }

  /** The key values written over the document are those it has. */
  lemma KeysUnchanged(e: Entity, key: seq<Json>, document: Json, status: string, now: string)
    requires WellFormed(e) && |key| == |e.keyFields| && Keyed(e, document, KeyOf(e, key))
    ensures DocumentWithKeys(Restatus(document, status, now), KeyPairs(e.keyFields, key))
      == Restatus(document, status, now)
  {
    KeyTextInjective(e.keyFields, KeyTuple(e.keyFields, document.fields), key);
    OverlaySame(Restatus(document, status, now).fields, KeyPairs(e.keyFields, key));
  }

  // ------------------------------------------------------------------------- every serial history

  lemma KeptUnwritten(e: Entity, s: Store, log: Log, documents: seq<Json>, k: RecordKey)
    requires Kept(e, s, documents, k)
    requires k !in RunAlone(s, log).puts
    requires WritesTo(log, k) == []
    ensures Kept(e, Applied(s, RunAlone(s, log)), documents + WritesTo(log, k), k)
  {
    assert documents + [] == documents;
  }

  lemma KeptWritten(e: Entity, s: Store, log: Log, documents: seq<Json>, k: RecordKey, document: Json)
    requires Kept(e, s, documents, k) && Effect(s, log, k, document)
    requires Keyed(e, document, k) && StatusOf(document).Some?
    requires if documents == [] then StatusOf(document) == Some(Initial(e))
             else var last := documents[|documents| - 1];
               StaysOrMoves(e, StatusOf(last).value, StatusOf(document).value) && SameApartFromStatus(last, document)
    ensures Kept(e, Applied(s, RunAlone(s, log)), documents + WritesTo(log, k), k)
  {
    assert WritesTo(log, k) == [document];
    StoredWritten(s, RunAlone(s, log), k, document);
    hide Keyed, Applied, Effect, RunAlone, WritesTo;
    LivesOn(e, documents, document);
  }

  lemma StoredWritten(s: Store, tx: Tx, k: RecordKey, document: Json)
    requires tx.puts == map[k := VersionedRecord(k, 0, document)] && tx.erases == {}
    ensures var z := Applied(s, tx); k in z.records && z.records[k].document == document
  {
  }

  lemma LivesOn(e: Entity, documents: seq<Json>, document: Json)
    requires Lives(e, documents) && StatusOf(document).Some?
    requires if documents == [] then StatusOf(document) == Some(Initial(e))
             else var last := documents[|documents| - 1];
               StaysOrMoves(e, StatusOf(last).value, StatusOf(document).value) && SameApartFromStatus(last, document)
    ensures Lives(e, documents + [document])
  {
    hide SameApartFromStatus, StatusOf, StaysOrMoves;
  }

  lemma HandlerKeeps(e: Entity, request: Request, log: Log, s: Store, documents: seq<Json>, k: RecordKey)
    requires WellFormed(e) && k.collection == e.name && Handles(e, request, log)
    requires StoredWell(s) && Repeats(s, log) && Current(s, RunAlone(s, log))
    requires Kept(e, s, documents, k)
    ensures Kept(e, Applied(s, RunAlone(s, log)), documents + WritesTo(log, k), k)
  {
    hide Applied, RunAlone, WritesTo, Current, Erased;
    match request
    case Create(values, now) =>
      var parents :| CreateLog(e, values, now, parents, log);
      var k0, document := CreateEffect(e, values, now, parents, log, s);
      if k == k0 {
        ReadIsNotErased(s, log, k);
        KeptWritten(e, s, log, documents, k, document);
      } else {
        KeptUnwritten(e, s, log, documents, k);
      }
    case UpdateStatus(key, status, now) => StatusKeeps(e, key, status, now, log, s, documents, k);
    case Delete(key, now) => StatusKeeps(e, key, DELETED, now, log, s, documents, k);
  }

  /** What a committed log did something to was not erased. */
  lemma ReadIsNotErased(s: Store, log: Log, k: RecordKey)
    requires StoredWell(s) && Current(s, RunAlone(s, log)) && Done(Read(k), None) in log
    ensures !Erased(s, k)
  {
    var i :| 0 <= i < |log| && log[i] == Done(Read(k), None);
    if Erased(s, k) { CommitAvoidsErased(s, log, k); }
  }

  lemma StatusKeeps(
    e: Entity, key: seq<Json>, status: string, now: string, log: Log, s: Store, documents: seq<Json>, k: RecordKey)
    requires WellFormed(e) && k.collection == e.name && StatusLog(e, key, status, now, log) && Repeats(s, log)
    requires Kept(e, s, documents, k)
    ensures Kept(e, Applied(s, RunAlone(s, log)), documents + WritesTo(log, k), k)
  {
    hide Applied, WritesTo;
    var k0 := KeyOf(e, key);
    if log == [Done(Read(k0), None)] || k != k0 {
      UnwrittenStays(s, log, k);
      KeptUnwritten(e, s, log, documents, k);
    } else {
      var found, again, made :| StatusWritten(e, k0, key, status, now, found, again, made, log);
      StatusEffect(e, k0, key, status, now, found, again, made, log, s);
      var document := Restatus(found.document, status, now);
      KeyTupleSame(e, found.document, document);
      KeptWritten(e, s, log, documents, k, document);
    }
  }

  lemma KeyTupleSame(e: Entity, a: Json, b: Json)
    requires a.Obj? && b.Obj? && SameApartFromStatus(a, b) && WellFormed(e) && HasKeys(e.keyFields, a.fields)
    ensures HasKeys(e.keyFields, b.fields) && KeyTuple(e.keyFields, a.fields) == KeyTuple(e.keyFields, b.fields)
  {
  }

  /**
   Over every serial history of an entity's handlers, whatever else is written elsewhere: each
   record's documents start in the initial state and follow declared transitions, keep every field
   but the status and the time of change, and the last of them is the one stored.
   */
  lemma {:induction false} RecordsLive(e: Entity, history: seq<Log>, k: RecordKey)
    requires WellFormed(e) && k.collection == e.name && Serial(history)
    requires forall i :: 0 <= i < |history| ==> Permitted(e, history[i])
    ensures Kept(e, SerialStore(history), Documents(history, k), k)
  {
    if history != [] {
      hide Kept, Applied, WritesTo, Handles, RunAlone;
      var before, log := history[..|history| - 1], history[|history| - 1];
      RecordsLive(e, before, k);
      var s := SerialStore(before);
      SerialStoredWell(before);
      if Elsewhere(e, log) {
        UnwrittenStays(s, log, k);
        KeptUnwritten(e, s, log, Documents(before, k), k);
      } else {
        assert Permitted(e, history[|history| - 1]);
        var request :| Handles(e, request, log);
        HandlerKeeps(e, request, log, s, Documents(before, k), k);
      }
    }
  }

  /** The same over every interleaving: what was committed is what lives. */
  lemma InterleavedRecordsLive(e: Entity, states: seq<System>, k: RecordKey)
    requires WellFormed(e) && k.collection == e.name && IsRun(KeepFirst, states)
    requires var last := states[|states| - 1];
      forall i :: 0 <= i < |last.committed| ==> Permitted(e, last.committed[i])
    ensures var last := states[|states| - 1]; Kept(e, last.store, Documents(last.committed, k), k)
  {
    Serializable(states);
    RecordsLive(e, states[|states| - 1].committed, k);
  }

  // ----------------------------------------------------------------- what requests are answered by

  lemma {:induction false} SerialPrefix(history: seq<Log>, i: nat)
    requires Serial(history) && i <= |history|
    ensures Serial(history[..i])
    decreases |history|
  {
    if i < |history| {
      var before := history[..|history| - 1];
      assert before[..i] == history[..i];
      SerialPrefix(before, i);
    } else {
      assert history[..i] == history;
    }
  }

  /** A change of status writes at the requested key, what was requested, if there is a record. */
  lemma ChangeWrites(e: Entity, request: Request, log: Log, s: Store) returns (k: RecordKey, added: seq<Json>)
    requires WellFormed(e) && !request.Create? && Handles(e, request, log) && Repeats(s, log)
    requires forall key :: |key| == |e.keyFields| && KeyOf(e, key) in s.records ==>
      Keyed(e, s.records[KeyOf(e, key)].document, KeyOf(e, key))
    ensures |request.key| == |e.keyFields| && k == KeyOf(e, request.key)
    ensures forall x :: WritesTo(log, x) == if x == k then added else []
    ensures if k in s.records then |added| == 1 else added == []
    ensures added != [] ==> Keyed(e, added[0], k) && Obeys(e, request, [s.records[k].document], added[0])
  {
    hide Keyed;
    k := KeyOf(e, request.key);
    var status := if request.UpdateStatus? then request.status else DELETED;
    if log == [Done(Read(k), None)] {
      added := [];
      ReadsStageNothing(s, log);
      assert log[..0] == [];
    } else {
      var found, again, made :| StatusWritten(e, k, request.key, status, request.now, found, again, made, log);
      StatusEffect(e, k, request.key, status, request.now, found, again, made, log, s);
      added := [Restatus(found.document, status, request.now)];
      assert Keyed(e, added[0], k) by { KeyedStays(e, found.document, added[0], k); }
    }
  }

  lemma KeyedStays(e: Entity, a: Json, b: Json, k: RecordKey)
    requires WellFormed(e) && Keyed(e, a, k) && SameApartFromStatus(a, b)
    ensures Keyed(e, b, k)
  {
    KeyTupleSame(e, a, b);
  }

  /**
   Whatever was committed before, the committed transaction of a request adds to the documents of
   one key of the entity only, and what it adds there is what was requested.
   */
  lemma RequestObeyed(e: Entity, history: seq<Log>, i: nat, request: Request)
    returns (k: RecordKey, added: seq<Json>)
    requires WellFormed(e) && Serial(history) && i < |history| && Handles(e, request, history[i])
    requires forall j :: 0 <= j < i ==> Permitted(e, history[j])
    ensures forall x :: Documents(history[..i + 1], x) == Documents(history[..i], x) + if x == k then added else []
    ensures request.Create? ==> |added| == 1
    ensures !request.Create? ==>
      && |request.key| == |e.keyFields| && k == KeyOf(e, request.key)
      && if k in SerialStore(history[..i]).records then |added| == 1 else added == []
    ensures added != [] ==> Keyed(e, added[0], k) && Obeys(e, request, Documents(history[..i], k), added[0])
  {
    var before, upTo, log := history[..i], history[..i + 1], history[i];
    var s := SerialStore(before);
    assert upTo[..i] == before && upTo[i] == log;
    SerialPrefix(history, i);
    SerialPrefix(history, i + 1);
    SerialStoredWell(before);
    hide Handles, Keyed, Obeys, Kept, WellFormed, KeyOf;
    assert Repeats(s, log) && Current(s, RunAlone(s, log));
    hide Serial, Repeats, RunAlone, Current;
    if request.Create? {
      k, added := CreateWrites(e, request, log, s);
      RecordsLive(e, before, k);
      assert Documents(before, k) == [] by { NoneWritten(e, s, Documents(before, k), k); }
    } else {
      forall x: RecordKey | x.collection == e.name ensures Kept(e, s, Documents(before, x), x) {
        RecordsLive(e, before, x);
      }
      KeyedRecords(e, s, before);
      k, added := ChangeWrites(e, request, log, s);
      LastIsStored(e, request, s, Documents(before, k), k, added);
    }
  }

  lemma NoneWritten(e: Entity, s: Store, documents: seq<Json>, k: RecordKey)
    requires Kept(e, s, documents, k) && k !in s.records && !Erased(s, k)
    ensures documents == []
  {
  }

  lemma KeyedRecords(e: Entity, s: Store, before: seq<Log>)
    requires forall x: RecordKey :: x.collection == e.name ==> Kept(e, s, Documents(before, x), x)
    ensures forall key :: |key| == |e.keyFields| && KeyOf(e, key) in s.records ==>
      Keyed(e, s.records[KeyOf(e, key)].document, KeyOf(e, key))
  {
    hide Keyed;
    forall key | |key| == |e.keyFields| && KeyOf(e, key) in s.records
      ensures Keyed(e, s.records[KeyOf(e, key)].document, KeyOf(e, key))
    {
      assert Kept(e, s, Documents(before, KeyOf(e, key)), KeyOf(e, key));
    }
  }

  lemma LastIsStored(
    e: Entity, request: Request, s: Store, documents: seq<Json>, k: RecordKey, added: seq<Json>)
    requires Kept(e, s, documents, k) && !request.Create?
    requires added != [] ==> k in s.records && Obeys(e, request, [s.records[k].document], added[0])
    ensures added != [] ==> Obeys(e, request, documents, added[0])
  {
    hide Restated, Keyed;
  }

  lemma CreateWrites(e: Entity, request: Request, log: Log, s: Store) returns (k: RecordKey, added: seq<Json>)
    requires WellFormed(e) && request.Create? && Handles(e, request, log)
    requires StoredWell(s) && Repeats(s, log) && Current(s, RunAlone(s, log))
    ensures k.collection == e.name && k !in s.records && !Erased(s, k)
    ensures |added| == 1 && forall x :: WritesTo(log, x) == if x == k then added else []
    ensures Keyed(e, added[0], k) && Obeys(e, request, [], added[0])
  {
    hide Current, Erased, HoldsRequest;
    var parents :| CreateLog(e, request.values, request.now, parents, log);
    var document: Json;
    k, document := CreateEffect(e, request.values, request.now, parents, log, s);
    ReadIsNotErased(s, log, k);
    added := [document];
  }

  /** The same over every interleaving. */
  lemma InterleavedRequestObeyed(e: Entity, states: seq<System>, i: nat, request: Request)
    returns (k: RecordKey, added: seq<Json>)
    requires WellFormed(e) && IsRun(KeepFirst, states)
    requires var history := states[|states| - 1].committed;
      && i < |history| && Handles(e, request, history[i])
      && forall j :: 0 <= j < i ==> Permitted(e, history[j])
    ensures var history := states[|states| - 1].committed;
      && (forall x :: Documents(history[..i + 1], x) == Documents(history[..i], x) + if x == k then added else [])
      && |added| <= 1 && (request.Create? ==> added != [])
      && (added != [] ==> Keyed(e, added[0], k) && Obeys(e, request, Documents(history[..i], k), added[0]))
  {
    Serializable(states);
    k, added := RequestObeyed(e, states[|states| - 1].committed, i, request);
  }

  /** Once a key is erased nothing more is done to it, so no document is added to its life. */
  lemma {:induction false} ErasedEndsLife(history: seq<Log>, i: nat, k: RecordKey)
    requires Serial(history) && i <= |history| && Erased(SerialStore(history[..i]), k)
    ensures Erased(SerialStore(history), k) && Documents(history, k) == Documents(history[..i], k)
    decreases |history|
  {
    if i == |history| {
      assert history[..i] == history;
    } else {
      var before, log := history[..|history| - 1], history[|history| - 1];
      assert before[..i] == history[..i];
      ErasedEndsLife(before, i, k);
      SerialStoredWell(before);
      CommitAvoidsErased(SerialStore(before), log, k);
      UnwrittenStays(SerialStore(before), log, k);
    }
  }

  /** A record that is removed is gone for good: its life ends with the documents it had by then. */
  lemma RemovedForGood(e: Entity, history: seq<Log>, i: nat, k: RecordKey)
    requires Serial(history) && i < |history|
    requires k.collection == e.name && Elsewhere(e, history[i]) && Removes(history[i], k)
    ensures k !in SerialStore(history).records && Documents(history, k) == Documents(history[..i], k)
  {
    var upTo := history[..i + 1];
    assert upTo[..i] == history[..i] && upTo[|upTo| - 1] == history[i];
    UnwrittenStays(SerialStore(history[..i]), history[i], k);
    assert Erased(SerialStore(upTo), k);
    ErasedEndsLife(history, i + 1, k);
  }

  /** The same over every interleaving. */
  lemma InterleavedRemovedForGood(e: Entity, states: seq<System>, i: nat, k: RecordKey)
    requires IsRun(KeepFirst, states) && i < |states[|states| - 1].committed| && k.collection == e.name
    requires var log := states[|states| - 1].committed[i]; Elsewhere(e, log) && Removes(log, k)
    ensures var last := states[|states| - 1];
      k !in last.store.records && Documents(last.committed, k) == Documents(last.committed[..i], k)
  {
    Serializable(states);
    RemovedForGood(e, states[|states| - 1].committed, i, k);
  }

  /** A state with no way out is never left. */
  lemma {:induction false} TerminalIsFinal(e: Entity, documents: seq<Json>, i: nat, j: nat)
    requires Lives(e, documents) && i <= j < |documents|
    requires forall t :: t in e.transitions ==> t.0 != StatusOf(documents[i]).value
    ensures StatusOf(documents[j]) == StatusOf(documents[i])
    decreases j
  {
    if i < j { TerminalIsFinal(e, documents, i, j - 1); }
  }
}
