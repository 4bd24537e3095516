/** The operator metadata of external systems: records under string keys, standing for a table keyed by tuples. */
module MetadataTable {
  import opened Options
  import opened Json
  import opened EntityKeys
  import opened MemoryStore

  datatype MetadataLookup = MetadataLookup(metadataEntity: string, keyFields: seq<string>, keyValues: seq<KeyValue>)

  /** The key values of a lookup by field, the last for a field winning. */
  function Values(l: MetadataLookup): map<string, Json> { Overlay(map[], l.keyValues) }

  predicate Complete(l: MetadataLookup) {
    forall f :: f in l.keyFields ==> f in Values(l)
  }

  /** The values of the key fields, in their order. */
  function Tuple(l: MetadataLookup): seq<Json>
    requires Complete(l)
  {
    seq(|l.keyFields|, i requires 0 <= i < |l.keyFields| => Values(l)[l.keyFields[i]])
  }

  function MetadataKey(l: MetadataLookup): Option<string> {
    if Complete(l) then Some(KeyText(l.keyFields, Tuple(l))) else None
  }

  // -------------------------------------------------------------------------------- operations

  datatype Outcome = Absent | Found(record: VersionedRecord) | VersionMismatch

  predicate Expected(existing: Option<VersionedRecord>, expected: Option<nat>) {
    expected.None? || (existing.Some? && existing.value.version == expected.value)
  }

  function GetMetadata(rule: ReadRule, s: Store, tx: Tx, l: MetadataLookup): (Tx, Outcome) {
    if MetadataKey(l).None? then (tx, Absent)
    else
      var (after, found) := GetBy(rule, s, tx, RecordKey(l.metadataEntity, MetadataKey(l).value));
      (after, if found.Some? then Found(found.value) else Absent)
  }

  /** Writes a document and reads it back. */
  function WriteBack(rule: ReadRule, s: Store, tx: Tx, k: RecordKey, document: Json): (Tx, Outcome) {
    var (after, made) := GetBy(rule, s, PutBy(rule, s, tx, k, document), k);
    (after, if made.Some? then Found(made.value) else Absent)
  }

  function UpsertMetadata(
    rule: ReadRule, s: Store, tx: Tx, l: MetadataLookup, document: Json, expected: Option<nat>): (Tx, Outcome)
  {
    if MetadataKey(l).None? then (tx, Absent)
    else
      var k := RecordKey(l.metadataEntity, MetadataKey(l).value);
      var (after, existing) := GetBy(rule, s, tx, k);
      if !Expected(existing, expected) then (after, VersionMismatch)
      else WriteBack(rule, s, after, k, DocumentWithKeys(document, l.keyValues))
  }

  /** Disabling and deleting, which both put a status in the document of an existing record. */
  function SetStatus(
    rule: ReadRule, s: Store, tx: Tx, l: MetadataLookup, expected: Option<nat>, status: string): (Tx, Outcome)
  {
    if MetadataKey(l).None? then (tx, Absent)
    else
      var k := RecordKey(l.metadataEntity, MetadataKey(l).value);
      var (after, existing) := GetBy(rule, s, tx, k);
      if existing.None? then (after, Absent)
      else if !Expected(existing, expected) then (after, VersionMismatch)
      else
        var fields := Overlay(FieldsOf(existing.value.document), l.keyValues);
        WriteBack(rule, s, after, k, Obj(fields["status" := Str(status)]))
  }

  // ------------------------------------------------------------------ the table keyed by tuples

  /** What a transaction sees under the tuple of values of an entity's key fields. */
  function At(rule: ReadRule, s: Store, tx: Tx, entity: string, keyFields: seq<string>, values: seq<Json>): Option<Json>
    requires |values| == |keyFields|
  {
    var found := GetBy(rule, s, tx, RecordKey(entity, KeyText(keyFields, values))).1;
    if found.Some? then Some(found.value.document) else None
  }

  lemma GetChangesNothing(rule: ReadRule, s: Store, tx: Tx, k: RecordKey, other: RecordKey)
    ensures GetBy(rule, s, GetBy(rule, s, tx, k).0, other).1 == GetBy(rule, s, tx, other).1
  {
  }

  lemma WriteBackChangesOne(rule: ReadRule, s: Store, tx: Tx, k: RecordKey, document: Json, other: RecordKey)
    ensures var (after, r) := WriteBack(rule, s, tx, k, document);
      && r == Found(VersionedRecord(k, 0, document))
      && GetBy(rule, s, after, other).1 ==
           if other == k then Some(VersionedRecord(k, 0, document)) else GetBy(rule, s, tx, other).1
  {
  }

  /** The record that a transaction finds for a lookup. */
  function Existing(rule: ReadRule, s: Store, tx: Tx, l: MetadataLookup): Option<VersionedRecord> {
    if Complete(l) then GetBy(rule, s, tx, RecordKey(l.metadataEntity, MetadataKey(l).value)).1 else None
  }

  /** What an operation on one tuple leaves: the new document there, every other tuple as it was. */
  ghost predicate Replaces(rule: ReadRule, s: Store, tx: Tx, after: Tx, l: MetadataLookup, document: Json) {
    && Complete(l)
    && forall entity, keyFields, values :: |values| == |keyFields| ==>
         (keyFields == l.keyFields || entity != l.metadataEntity ==>
            At(rule, s, after, entity, keyFields, values) ==
            if entity == l.metadataEntity && values == Tuple(l) then Some(document)
            else At(rule, s, tx, entity, keyFields, values))
  }

  ghost predicate Unchanged(rule: ReadRule, s: Store, tx: Tx, after: Tx) {
    forall k :: GetBy(rule, s, after, k).1 == GetBy(rule, s, tx, k).1
  }

  lemma WriteBackReplaces(rule: ReadRule, s: Store, tx: Tx, before: Tx, l: MetadataLookup, document: Json)
    requires Complete(l) && Unchanged(rule, s, before, tx)
    ensures var k := RecordKey(l.metadataEntity, MetadataKey(l).value);
      Replaces(rule, s, before, WriteBack(rule, s, tx, k, document).0, l, document)
  {
    hide KeyText;
    var k := RecordKey(l.metadataEntity, MetadataKey(l).value);
    var after := WriteBack(rule, s, tx, k, document).0;
    forall entity, keyFields, values |
      |values| == |keyFields| && (keyFields == l.keyFields || entity != l.metadataEntity)
      ensures At(rule, s, after, entity, keyFields, values) ==
              if entity == l.metadataEntity && values == Tuple(l) then Some(document)
              else At(rule, s, before, entity, keyFields, values)
    {
      var other := RecordKey(entity, KeyText(keyFields, values));
      WriteBackChangesOne(rule, s, tx, k, document, other);
      if other == k { KeyTextInjective(keyFields, values, Tuple(l)); }
    }
  }

  /**
   An upsert with a complete key and the expected version puts the document, overlaid with its
   keys, under the tuple of key values and nowhere else; otherwise it changes nothing.
   */
  lemma UpsertReplaces(rule: ReadRule, s: Store, tx: Tx, l: MetadataLookup, document: Json, expected: Option<nat>)
    ensures var (after, r) := UpsertMetadata(rule, s, tx, l, document, expected);
      var existing := Existing(rule, s, tx, l);
      && (r.Absent? <==> !Complete(l))
      && (r.VersionMismatch? <==> Complete(l) && !Expected(existing, expected))
      && (!r.Found? ==> Unchanged(rule, s, tx, after))
      && (r.Found? ==>
            && r.record.document == DocumentWithKeys(document, l.keyValues)
            && Replaces(rule, s, tx, after, l, DocumentWithKeys(document, l.keyValues)))
  {
    hide KeyText, DocumentWithKeys;
    if Complete(l) {
      var k := RecordKey(l.metadataEntity, MetadataKey(l).value);
      var (after, existing) := GetBy(rule, s, tx, k);
      forall other { GetChangesNothing(rule, s, tx, k, other); }
      WriteBackReplaces(rule, s, after, tx, l, DocumentWithKeys(document, l.keyValues));
      WriteBackChangesOne(rule, s, after, k, DocumentWithKeys(document, l.keyValues), k);
    }
  }

  /** The document that a change of status leaves: status and looked-up keys set, all else kept. */
  ghost predicate StatusSet(before: Json, after: Json, l: MetadataLookup, status: string) {
    && after.Obj? && "status" in after.fields && after.fields["status"] == Str(status)
    && (forall f :: f != "status" && f in Values(l) ==> f in after.fields && after.fields[f] == Values(l)[f])
    && (forall f :: f != "status" && f !in Values(l) ==>
          && (f in after.fields <==> f in FieldsOf(before))
          && (f in after.fields ==> after.fields[f] == FieldsOf(before)[f]))
  }

  lemma {:induction false} OverlaySplits(fields: map<string, Json>, keyValues: seq<KeyValue>)
    ensures Overlay(fields, keyValues) == fields + Overlay(map[], keyValues)
    decreases |keyValues|
  {
    if keyValues != [] {
      var kv, rest := keyValues[0], keyValues[1..];
      OverlaySplits(fields[kv.field := kv.value], rest);
      OverlaySplits(map[kv.field := kv.value], rest);
      assert Overlay(map[], keyValues) == map[kv.field := kv.value] + Overlay(map[], rest);
    } else {
      assert fields + map[] == fields;
    }
  }

  /**
   Disabling or deleting never makes a record: it needs one with the expected version, sets its
   status and the looked-up keys, and leaves its other fields and all other tuples alone.
   */
  lemma SetStatusReplaces(rule: ReadRule, s: Store, tx: Tx, l: MetadataLookup, expected: Option<nat>, status: string)
    ensures var (after, r) := SetStatus(rule, s, tx, l, expected, status);
      var existing := Existing(rule, s, tx, l);
      && (r.Absent? <==> existing.None?)
      && (r.VersionMismatch? <==> existing.Some? && !Expected(existing, expected))
      && (!r.Found? ==> Unchanged(rule, s, tx, after))
      && (r.Found? ==>
            && StatusSet(existing.value.document, r.record.document, l, status)
            && Replaces(rule, s, tx, after, l, r.record.document))
  {
    hide KeyText;
    if Complete(l) {
      var k := RecordKey(l.metadataEntity, MetadataKey(l).value);
      var (after, existing) := GetBy(rule, s, tx, k);
      forall other { GetChangesNothing(rule, s, tx, k, other); }
      if existing.Some? {
        var document := Obj(Overlay(FieldsOf(existing.value.document), l.keyValues)["status" := Str(status)]);
        OverlaySplits(FieldsOf(existing.value.document), l.keyValues);
        WriteBackReplaces(rule, s, after, tx, l, document);
        WriteBackChangesOne(rule, s, after, k, document, k);
      }
    }
  }

  /** Getting reads the table at the tuple of key values and changes nothing. */
  lemma GetReads(rule: ReadRule, s: Store, tx: Tx, l: MetadataLookup)
    ensures var (after, r) := GetMetadata(rule, s, tx, l);
      && Unchanged(rule, s, tx, after)
      && (r.Found? <==> Complete(l) && At(rule, s, tx, l.metadataEntity, l.keyFields, Tuple(l)).Some?)
      && (r.Found? ==> At(rule, s, tx, l.metadataEntity, l.keyFields, Tuple(l)) == Some(r.record.document))
  {
    hide KeyText;
    if Complete(l) {
      forall other { GetChangesNothing(rule, s, tx, RecordKey(l.metadataEntity, MetadataKey(l).value), other); }
    }
  }

  /** A get of the same tuple after an upsert returns the document overlaid with its keys. */
  lemma GetAfterUpsert(
    rule: ReadRule, s: Store, tx: Tx, l: MetadataLookup, document: Json, expected: Option<nat>, m: MetadataLookup)
    requires UpsertMetadata(rule, s, tx, l, document, expected).1.Found?
    requires m.metadataEntity == l.metadataEntity && m.keyFields == l.keyFields && Complete(m)
    ensures var after := UpsertMetadata(rule, s, tx, l, document, expected).0;
      if Tuple(m) == Tuple(l)
      then GetMetadata(rule, s, after, m).1.Found?
           && GetMetadata(rule, s, after, m).1.record.document == DocumentWithKeys(document, l.keyValues)
      else
        var (now, was) := (GetMetadata(rule, s, after, m).1, GetMetadata(rule, s, tx, m).1);
        (now.Found? <==> was.Found?) && (now.Found? ==> now.record.document == was.record.document)
  {
    hide KeyText, DocumentWithKeys, UpsertMetadata, GetMetadata;
    UpsertReplaces(rule, s, tx, l, document, expected);
    GetReads(rule, s, UpsertMetadata(rule, s, tx, l, document, expected).0, m);
    GetReads(rule, s, tx, m);
  }
}
