/** The metadata repository as it runs, on a caller's transaction. */
module MetadataRepository {
  import opened Options
  import opened Json
  import opened EntityKeys
  import opened MemoryStore
  import opened MemoryBackend
  import opened MetadataTable

  /** Puts the key values into a table one after another. */
  method PutAll(fields: map<string, Json>, keyValues: seq<KeyValue>) returns (values: map<string, Json>)
    ensures values == Overlay(fields, keyValues)
  {
    values := fields;
    assert keyValues[0..] == keyValues;
    for i := 0 to |keyValues|
      invariant Overlay(values, keyValues[i..]) == Overlay(fields, keyValues)
    {
      assert keyValues[i..][1..] == keyValues[i + 1..];
      values := values[keyValues[i].field := keyValues[i].value];
    }
  }

  /** The key fields for which the lookup gives no value. */
  method MissingKeyFields(l: MetadataLookup) returns (missing: seq<string>)
    ensures forall f :: f in missing <==> f in l.keyFields && f !in Values(l)
  {
    hide Values;
    missing := [];
    for i := 0 to |l.keyFields|
      invariant forall f :: f in missing <==> f in l.keyFields[..i] && f !in Values(l)
    {
      var found := false;
      for j := 0 to |l.keyValues|
        invariant found <==> exists m :: 0 <= m < j && l.keyValues[m].field == l.keyFields[i]
      {
        if l.keyValues[j].field == l.keyFields[i] {
          found := true;
          break;
        }
      }
      FieldsOfValues(l, l.keyFields[i]);
      if !found { missing := missing + [l.keyFields[i]]; }
    }
    assert l.keyFields[..|l.keyFields|] == l.keyFields;
  }

  lemma FieldsOfValues(l: MetadataLookup, f: string)
    ensures f in Values(l) <==> exists m :: 0 <= m < |l.keyValues| && l.keyValues[m].field == f
  {
    OverlayIs(map[], l.keyValues, f);
  }

  method ExternalSystemMetadataKey(l: MetadataLookup) returns (key: Option<string>)
    ensures key == MetadataKey(l)
  {
    var missing := MissingKeyFields(l);
    if missing != [] {
      assert missing[0] in missing;
      return None;
    }
    assert Complete(l);
    var values := PutAll(map[], l.keyValues);
    var text := "";
    for i := 0 to |l.keyFields|
      invariant text + KeyText(l.keyFields[i..], Tuple(l)[i..]) == KeyText(l.keyFields, Tuple(l))
    {
      assert l.keyFields[i..][1..] == l.keyFields[i + 1..] && Tuple(l)[i..][1..] == Tuple(l)[i + 1..];
      assert l.keyFields[i] in l.keyFields && Tuple(l)[i..][0] == Tuple(l)[i];
      var value := values[l.keyFields[i]];
      KeyTextMore(text, l.keyFields[i], Canonical(value), KeyText(l.keyFields[i + 1..], Tuple(l)[i + 1..]));
      text := text + l.keyFields[i] + "=" + Canonical(value) + "\n";
    }
    assert text + "" == text;
    return Some(text);
  }

  lemma KeyTextMore(text: string, field: string, value: string, rest: string)
    ensures text + (field + ("=" + (value + ("\n" + rest)))) == text + field + "=" + value + "\n" + rest
  {
  }

  method DocumentOverlaid(document: Json, keyValues: seq<KeyValue>) returns (r: Json)
    ensures r == DocumentWithKeys(document, keyValues)
  {
    var fields := PutAll(FieldsOf(document), keyValues);
    r := Obj(fields);
  }

  method GetMetadataTx(tx: InMemoryTransaction, l: MetadataLookup) returns (r: Outcome)
    requires tx.open
    modifies tx
    ensures tx.open && (tx.Staged(), r) == GetMetadata(tx.rule, tx.state.Contents(), old(tx.Staged()), l)
  {
    var key := ExternalSystemMetadataKey(l);
    if key.None? { return Absent; }
    var found := tx.GetRecord(RecordKey(l.metadataEntity, key.value));
    return if found.value.Some? then Found(found.value.value) else Absent;
  }

  method WriteBackTx(tx: InMemoryTransaction, k: RecordKey, document: Json) returns (r: Outcome)
    requires tx.open
    modifies tx
    ensures tx.open && (tx.Staged(), r) == WriteBack(tx.rule, tx.state.Contents(), old(tx.Staged()), k, document)
  {
    var _ := tx.PutRecord(k, document);
    var made := tx.GetRecord(k);
    return if made.value.Some? then Found(made.value.value) else Absent;
  }

  method UpsertMetadataTx(tx: InMemoryTransaction, l: MetadataLookup, document: Json, expected: Option<nat>)
    returns (r: Outcome)
    requires tx.open
    modifies tx
    ensures tx.open
    ensures (tx.Staged(), r) == UpsertMetadata(tx.rule, tx.state.Contents(), old(tx.Staged()), l, document, expected)
  {
    hide WriteBack, DocumentWithKeys;
    var key := ExternalSystemMetadataKey(l);
    if key.None? { return Absent; }
    var k := RecordKey(l.metadataEntity, key.value);
    var existing := tx.GetRecord(k);
    if !Expected(existing.value, expected) { return VersionMismatch; }
    var overlaid := DocumentOverlaid(document, l.keyValues);
    r := WriteBackTx(tx, k, overlaid);
  }

  method UpdateStatusTx(tx: InMemoryTransaction, l: MetadataLookup, expected: Option<nat>, status: string)
    returns (r: Outcome)
    requires tx.open
    modifies tx
    ensures tx.open
    ensures (tx.Staged(), r) == SetStatus(tx.rule, tx.state.Contents(), old(tx.Staged()), l, expected, status)
  {
    hide WriteBack;
    var key := ExternalSystemMetadataKey(l);
    if key.None? { return Absent; }
    var k := RecordKey(l.metadataEntity, key.value);
    var existing := tx.GetRecord(k);
    if existing.value.None? { return Absent; }
    if !Expected(existing.value, expected) { return VersionMismatch; }
    var values := PutAll(FieldsOf(existing.value.value.document), l.keyValues);
    values := values["status" := Str(status)];
    r := WriteBackTx(tx, k, Obj(values));
  }
}
