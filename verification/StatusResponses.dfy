/** What update_status and delete write, and the response they make of it after the commit. */
module StatusResponses {
  import opened Options
  import opened Json
  import opened EntityKeys
  import opened MemoryStore
  import opened EntityLifecycle
  import opened Codecs

  function StatusOfRequest(request: Request): string
    requires !request.Create?
  {
    if request.UpdateStatus? then request.status else DELETED
  }

  predicate Asks(e: Entity, request: Request) { !request.Create? && |request.key| == |e.keyFields| }

  /** The record is there, and the requested status may follow its status. */
  ghost predicate MayChange(s: Store, e: Entity, request: Request)
    requires Asks(e, request)
  {
    var k := KeyOf(e, request.key);
    && k in s.records
    && var status := StatusOf(s.records[k].document);
       status.Some? && StaysOrMoves(e, status.value, if request.UpdateStatus? then request.status else "Deleted")
  }

  lemma MayChangeIff(s: Store, e: Entity, request: Request)
    requires Asks(e, request)
    ensures MayChange(s, e, request) <==>
      var k := KeyOf(e, request.key);
      k in s.records &&
      var status := StatusOf(s.records[k].document);
      status.Some? && Allowed(e, status.value, StatusOfRequest(request))
  {
  }

  /** The document written over one that may change. */
  function Updated(e: Entity, request: Request, document: Json): Json
    requires Asks(e, request) && document.Obj?
  {
    DocumentWithKeys(Restatus(document, StatusOfRequest(request), request.now), KeyPairs(e.keyFields, request.key))
  }

  function WrittenRecord(s: Store, e: Entity, request: Request): VersionedRecord
    requires Asks(e, request) && MayChange(s, e, request)
  {
    var k := KeyOf(e, request.key);
    VersionedRecord(k, 0, Updated(e, request, s.records[k].document))
  }

  /** In the store after a change the record has the status that was asked for, and otherwise stays as it was. */
  ghost predicate ChangedAsAsked(s: Store, z: Store, e: Entity, request: Request)
    requires Asks(e, request)
  {
    var k := KeyOf(e, request.key);
    WellFormed(e) && MayChange(s, e, request) && Keyed(e, s.records[k].document, k) ==>
      && k in z.records
      && Restated(s.records[k].document, z.records[k].document,
                  if request.UpdateStatus? then request.status else "Deleted", request.now)
  }

  lemma WrittenAsAsked(s: Store, e: Entity, request: Request)
    requires Asks(e, request)
    ensures MayChange(s, e, request) ==> ChangedAsAsked(s, PutRecord(s, WrittenRecord(s, e, request)), e, request)
    ensures !MayChange(s, e, request) ==> ChangedAsAsked(s, s, e, request)
  {
    var k := KeyOf(e, request.key);
    if WellFormed(e) && MayChange(s, e, request) && Keyed(e, s.records[k].document, k) {
      KeysUnchanged(e, request.key, s.records[k].document, StatusOfRequest(request), request.now);
    }
    hide Keyed, KeyOf, DocumentWithKeys;
  }

  // ----------------------------------------------------------------------------------- response

  /** The fields of an output shape, each of them demanded of the document, optional or not. */
  function Required(fields: seq<Field>): (r: seq<Field>)
    ensures |r| == |fields|
  {
    seq(|fields|, i requires 0 <= i < |fields| => fields[i].(optional := false))
  }

  /** The document has every field of the shape, not null and of its type. */
  predicate Answers(fields: seq<Field>, document: Json) {
    forall i :: 0 <= i < |fields| ==> IsThere(fields[i], document)
  }

  predicate IsThere(field: Field, document: Json) {
    IsGiven(document, field.name) && HasType(field.kind, document.fields[field.name])
  }

  /** A delete's response is empty; an update without an output shape answers with the document. */
  predicate CanAnswer(request: Request, output: Option<seq<Field>>, document: Json) {
    request.UpdateStatus? && output.Some? ==> Answers(output.value, document)
  }

  lemma AssembledIff(fields: seq<Field>, document: Json)
    ensures Decoded(Required(fields), document).Some? <==> Answers(fields, document)
  {
    DecodedIff(Required(fields), document);
    hide Decoded, IsGiven, HasType, ReadAs;
    assert forall i :: 0 <= i < |fields| ==> Required(fields)[i] == fields[i].(optional := false);
  }

  /** What was assembled is a record of the shape, and its encoding does not fail. */
  lemma AssembledEncodes(fields: seq<Field>, document: Json)
    requires Decoded(Required(fields), document).Some?
    ensures var record := Decoded(Required(fields), document).value;
      IsRecord(fields, record) && NoNulls(record) && Encoded(fields, record).Some?
  {
    hide Encoded, Decoded, DecodedMember;
    var record := Decoded(Required(fields), document).value;
    DecodedIs(Required(fields), document, record);
    forall i | 0 <= i < |fields|
      ensures Fits(fields[i], record[i]) && record[i] != Some(JsonValue(Null))
      ensures record[i].Some? ==> ToJson(record[i].value).Some?
    {
      assert DecodedMember(Required(fields)[i], document) == Some(record[i]);
      DecodedMemberFits(Required(fields)[i], document);
    }
    EncodedSome(fields, record);
  }

  /** The body of a response; nothing if its assembly throws. */
  function Body(request: Request, output: Option<seq<Field>>, document: Json): (r: Option<Json>)
    requires !request.Create?
    ensures r.Some? <==> CanAnswer(request, output, document)
  {
    if request.Delete? then Some(Obj(map[]))
    else if output.None? then Some(document)
    else
      AssembledIff(output.value, document);
      match Decoded(Required(output.value), document)
      case None => None
      case Some(record) =>
        AssembledEncodes(output.value, document);
        Some(Obj(Encoded(output.value, record).value))
  }

  /** The body of an update decodes to what the document holds of the shape. */
  lemma BodyHoldsDocument(request: Request, fields: seq<Field>, document: Json)
    requires request.UpdateStatus? && DistinctNames(fields) && Answers(fields, document)
    ensures var r := Decoded(fields, Body(request, Some(fields), document).value);
      r.Some? && forall i :: 0 <= i < |fields| ==>
        ReadAs(fields[i].kind, document.fields[fields[i].name], r.value[i])
  {
    DecodedIff(Required(fields), document);
    AssembledIff(fields, document);
    AssembledEncodes(fields, document);
    RoundTripIff(fields, Decoded(Required(fields), document).value);
  }

  /**
   Whether the assembly succeeds can be told from the record as it was: the status and the time of
   the change are texts afterwards, and everything else stays as it is.
   */
  lemma AnswersBeforeIff(e: Entity, request: Request, document: Json, fields: seq<Field>)
    requires WellFormed(e) && Asks(e, request) && Keyed(e, document, KeyOf(e, request.key))
    ensures Answers(fields, Updated(e, request, document)) <==>
      forall i :: 0 <= i < |fields| ==>
        if fields[i].name in {STATUS, UPDATED_AT} then fields[i].kind in {StringKind, JsonKind}
        else IsThere(fields[i], document)
  {
    KeysUnchanged(e, request.key, document, StatusOfRequest(request), request.now);
    hide DocumentWithKeys, KeyOf, Keyed;
    forall i | 0 <= i < |fields|
      ensures IsThere(fields[i], Updated(e, request, document)) <==>
        if fields[i].name in {STATUS, UPDATED_AT} then fields[i].kind in {StringKind, JsonKind}
        else IsThere(fields[i], document)
    {
    }
  }

  /** A shape with a field the record lacks: the change is committed and the response fails. */
  lemma UpdateFailsAfterCommit(now: string)
    ensures var e := Entity("Order", {"id", "status"}, ["id"], Some("Open"), {("Open", "Paid")});
      var k := KeyOf(e, [Str("7")]);
      var document := Obj(map["id" := Str("7"), "status" := Str("Open")]);
      var s := Store(map[k := VersionedRecord(k, 1, document)], map[k := 1]);
      var request := UpdateStatus([Str("7")], "Paid", now);
      && StoredWell(s) && Keyed(e, document, k) && MayChange(s, e, request)
      && !CanAnswer(request, Some([Field("total", StringKind, false)]), Updated(e, request, document))
  {
    var e := Entity("Order", {"id", "status"}, ["id"], Some("Open"), {("Open", "Paid")});
    var document := Obj(map["id" := Str("7"), "status" := Str("Open")]);
    var fields := [Field("total", StringKind, false)];
    assert KeyTuple(e.keyFields, document.fields) == [Str("7")];
    AnswersBeforeIff(e, UpdateStatus([Str("7")], "Paid", now), document, fields);
    assert fields[0].name == "total" && !IsThere(fields[0], document);
  }
}
