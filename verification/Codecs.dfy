/** Response codecs: encoding a record as a JSON object, and decoding it again. */
module Codecs {
  import opened Options
  import opened Json
  import CanonicalJson

  type Int32 = n: int | -0x8000_0000 <= n < 0x8000_0000

  datatype Kind = BoolKind | Int32Kind | Int64Kind | DoubleKind | JsonKind | StringKind

  datatype Field = Field(name: string, kind: Kind, optional: bool)

  /** A double, by its canonical text if it is finite. */
  datatype Double = Finite(text: DecimalText) | NotFinite

  datatype Value =
    | BoolValue(b: bool)
    | Int32Value(i: Int32)
    | Int64Value(n: Int64)
    | DoubleValue(d: Double)
    | JsonValue(j: Json)
    | StringValue(s: string)

  /** The members of a struct, in the order of its fields; an optional member may be empty. */
  type Record = seq<Option<Value>>

  predicate HasKind(v: Value, kind: Kind) {
    match kind
    case BoolKind => v.BoolValue?
    case Int32Kind => v.Int32Value?
    case Int64Kind => v.Int64Value?
    case DoubleKind => v.DoubleValue?
    case JsonKind => v.JsonValue?
    case StringKind => v.StringValue?
  }

  predicate Fits(field: Field, member: Option<Value>) {
    (member.None? ==> field.optional) && (member.Some? ==> HasKind(member.value, field.kind))
  }

  predicate IsRecord(fields: seq<Field>, record: Record) {
    |record| == |fields| && forall i :: 0 <= i < |fields| ==> Fits(fields[i], record[i])
  }

  predicate DistinctNames(fields: seq<Field>) {
    forall i, j :: 0 <= i < j < |fields| ==> fields[i].name != fields[j].name
  }

  // ---------------------------------------------------------------------------------- encoding

  /** A JSON number must be finite, or its construction throws. */
  function ToJson(v: Value): Option<Json> {
    match v
    case BoolValue(b) => Some(Bool(b))
    case Int32Value(n) => Some(Integer(n))
    case Int64Value(n) => Some(Integer(n))
    case DoubleValue(d) => if d.Finite? then Some(Decimal(d.text)) else None
    case JsonValue(j) => Some(j)
    case StringValue(s) => Some(Str(s))
  }

  function Emplaced(body: map<string, Json>, key: string, value: Json): map<string, Json> {
    if key in body then body else body[key := value]
  }

  /** The body of a response, unless a number in it is not finite. */
  function Encoded(fields: seq<Field>, record: Record): Option<map<string, Json>>
    requires IsRecord(fields, record)
  {
    if fields == [] then Some(map[])
    else
      var n := |fields| - 1;
      match Encoded(fields[..n], record[..n])
      case None => None
      case Some(body) =>
        if record[n].None? then Some(body)
        else match ToJson(record[n].value)
          case None => None
          case Some(json) => Some(Emplaced(body, fields[n].name, json))
  }

  method EncodeResponse(fields: seq<Field>, record: Record) returns (body: Option<map<string, Json>>)
    requires IsRecord(fields, record)
    ensures body == Encoded(fields, record)
  {
    var members: map<string, Json> := map[];
    for i := 0 to |fields|
      invariant Encoded(fields[..i], record[..i]) == Some(members)
    {
      assert fields[..i + 1][..i] == fields[..i] && record[..i + 1][..i] == record[..i];
      if record[i].Some? {
        var json := ToJson(record[i].value);
        if json.None? {
          ThrownEarly(fields, record, i + 1);
          return None;
        }
        members := Emplaced(members, fields[i].name, json.value);
      }
    }
    assert fields[..|fields|] == fields && record[..|fields|] == record;
    return Some(members);
  }

  lemma {:induction false} ThrownEarly(fields: seq<Field>, record: Record, n: nat)
    requires IsRecord(fields, record) && n <= |fields| && Encoded(fields[..n], record[..n]).None?
    ensures Encoded(fields, record).None?
  {
    if n == |fields| {
      assert fields[..n] == fields && record[..n] == record;
    } else {
      var m := |fields| - 1;
      assert fields[..m][..n] == fields[..n] && record[..m][..n] == record[..n];
      ThrownEarly(fields[..m], record[..m], n);
    }
  }

  // ---------------------------------------------------------------------------------- decoding

  /** The value of a signed 32-bit integer with the same low bits. */
  function ToInt32(n: int): Int32 {
    var low := n % 0x1_0000_0000;
    if low < 0x8000_0000 then low else low - 0x1_0000_0000
  }

  /** An integer read as a double. */
  function ToDouble(n: int): (r: DecimalText) {
    IntegerTextIs(n);
    IntegerText(n) + ".0"
  }

  lemma IntegerTextIs(n: int)
    ensures IsDecimalText(IntegerText(n) + ".0")
  {
    CanonicalJson.DigitsAreDigits(if n < 0 then -n else n);
    var text := IntegerText(n) + ".0";
    assert text[|text| - 2] == '.';
  }

  /** The value of a JSON member, unless its type is not the field's. */
  function FromJson(kind: Kind, j: Json): Option<Value> {
    match kind
    case BoolKind => if j.Bool? then Some(BoolValue(j.b)) else None
    case Int32Kind => if j.Integer? then Some(Int32Value(ToInt32(j.n))) else None
    case Int64Kind => if j.Integer? then Some(Int64Value(j.n)) else None
    case DoubleKind =>
      if j.Integer? then Some(DoubleValue(Finite(ToDouble(j.n))))
      else if j.Decimal? then Some(DoubleValue(Finite(j.text)))
      else None
    case JsonKind => Some(JsonValue(j))
    case StringKind => if j.Str? then Some(StringValue(j.s)) else None
  }

  /** A member of a JSON object that is there and not null. */
  function Member(body: Json, name: string): Option<Json> {
    if body.Obj? && name in body.fields && body.fields[name] != Null then Some(body.fields[name]) else None
  }

  /** A member's value; nothing if an exception is thrown. */
  function DecodedMember(field: Field, body: Json): Option<Option<Value>> {
    match Member(body, field.name)
    case None => if field.optional then Some(None) else None
    case Some(json) => if FromJson(field.kind, json).Some? then Some(FromJson(field.kind, json)) else None
  }

  function Decoded(fields: seq<Field>, body: Json): (r: Option<Record>)
    ensures r.Some? ==> |r.value| == |fields|
  {
    if fields == [] then Some([])
    else
      var n := |fields| - 1;
      match Decoded(fields[..n], body)
      case None => None
      case Some(record) =>
        match DecodedMember(fields[n], body)
        case None => None
        case Some(member) => Some(record + [member])
  }

  method DecodeResponse(fields: seq<Field>, body: Json) returns (record: Option<Record>)
    ensures record == Decoded(fields, body)
  {
    hide FromJson, Member, Decoded;
    var decoded: Record := [];
    DecodedNothing(fields, body);
    for i := 0 to |fields|
      invariant Decoded(fields[..i], body) == Some(decoded)
    {
      DecodedSnoc(fields, body, i);
      var member := Member(body, fields[i].name);
      if member.Some? {
        var value := FromJson(fields[i].kind, member.value);
        if value.None? {
          FailsEarly(fields, body, i + 1);
          return None;
        }
        decoded := decoded + [value];
      } else if fields[i].optional {
        decoded := decoded + [None];
      } else {
        FailsEarly(fields, body, i + 1);
        return None;
      }
    }
    assert fields[..|fields|] == fields;
    return Some(decoded);
  }

  lemma DecodedNothing(fields: seq<Field>, body: Json)
    ensures Decoded(fields[..0], body) == Some([])
  {
  }

  lemma DecodedSnoc(fields: seq<Field>, body: Json, i: nat)
    requires i < |fields| && Decoded(fields[..i], body).Some?
    ensures var member := DecodedMember(fields[i], body);
      Decoded(fields[..i + 1], body) ==
        if member.None? then None else Some(Decoded(fields[..i], body).value + [member.value])
  {
    hide DecodedMember;
    assert fields[..i + 1][..i] == fields[..i];
  }

  lemma {:induction false} FailsEarly(fields: seq<Field>, body: Json, n: nat)
    requires n <= |fields| && Decoded(fields[..n], body).None?
    ensures Decoded(fields, body).None?
  {
    if n == |fields| {
      assert fields[..n] == fields;
    } else {
      var m := |fields| - 1;
      assert fields[..m][..n] == fields[..n];
      FailsEarly(fields[..m], body, n);
    }
  }

  // -------------------------------------------------------------------------------- round trip

  /** The body holds each present member under its field's name, and nothing else. */
  predicate Holds(fields: seq<Field>, record: Record, body: map<string, Json>)
    requires IsRecord(fields, record)
  {
    && (forall i :: 0 <= i < |fields| && record[i].Some? ==>
      fields[i].name in body && ToJson(record[i].value) == Some(body[fields[i].name]))
    && (forall i :: 0 <= i < |fields| && record[i].None? ==> fields[i].name !in body)
    && (forall name :: name in body ==> exists i :: 0 <= i < |fields| && fields[i].name == name)
  }

  lemma HoldsOneMore(fields: seq<Field>, record: Record, body: map<string, Json>)
    requires fields != [] && IsRecord(fields, record) && DistinctNames(fields)
    requires var n := |fields| - 1; Holds(fields[..n], record[..n], body)
    ensures var n := |fields| - 1;
      if record[n].None? then Holds(fields, record, body)
      else ToJson(record[n].value).Some? ==>
        Holds(fields, record, Emplaced(body, fields[n].name, ToJson(record[n].value).value))
  {
    hide ToJson, Fits;
    var n := |fields| - 1;
    assert forall i :: 0 <= i < n ==> fields[..n][i] == fields[i] && record[..n][i] == record[i];
    assert fields[n].name !in body;
    forall name | name in body ensures exists i :: 0 <= i < |fields| && fields[i].name == name {
      var i :| 0 <= i < n && fields[..n][i].name == name;
      assert fields[i].name == name;
    }
  }

  lemma {:induction false} EncodedHolds(fields: seq<Field>, record: Record)
    requires IsRecord(fields, record) && DistinctNames(fields) && Encoded(fields, record).Some?
    ensures Holds(fields, record, Encoded(fields, record).value)
  {
    hide ToJson, Fits, Emplaced, Holds;
    if fields == [] {
      HoldsNothing();
    } else {
      var n := |fields| - 1;
      EncodedHolds(fields[..n], record[..n]);
      HoldsOneMore(fields, record, Encoded(fields[..n], record[..n]).value);
    }
  }

  /** The JSON value that a member stands for. */
  ghost predicate StandsFor(json: Json, v: Value) {
    match v
    case BoolValue(b) => json == Bool(b)
    case Int32Value(n) => json == Integer(n)
    case Int64Value(n) => json == Integer(n)
    case DoubleValue(d) => d.Finite? && json == Decimal(d.text)
    case JsonValue(j) => json == j
    case StringValue(text) => json == Str(text)
  }

  /** A body has the members that the record has, each with the value it stands for. */
  lemma BodyIs(fields: seq<Field>, record: Record)
    requires IsRecord(fields, record) && DistinctNames(fields) && Encoded(fields, record).Some?
    ensures var body := Encoded(fields, record).value;
      forall i :: 0 <= i < |fields| ==>
        && (fields[i].name in body <==> record[i].Some?)
        && (record[i].Some? ==> StandsFor(body[fields[i].name], record[i].value))
  {
    EncodedHolds(fields, record);
    hide Encoded, Fits;
  }

  /** Encoding fails just for numbers that are not finite. */
  lemma {:induction false} EncodedIff(fields: seq<Field>, record: Record)
    requires IsRecord(fields, record)
    ensures Encoded(fields, record).Some? <==>
      forall i :: 0 <= i < |record| ==> record[i] != Some(DoubleValue(NotFinite))
  {
    if fields != [] {
      var n := |fields| - 1;
      EncodedIff(fields[..n], record[..n]);
      assert record == record[..n] + [record[n]];
      assert ToJsonFails(record[n]) <==> record[n] == Some(DoubleValue(NotFinite));
    }
  }

  predicate ToJsonFails(member: Option<Value>) { member.Some? && ToJson(member.value).None? }

  predicate IsGiven(body: Json, name: string) {
    body.Obj? && name in body.fields && body.fields[name] != Null
  }

  predicate HasType(kind: Kind, json: Json) {
    match kind
    case BoolKind => json.Bool?
    case Int32Kind => json.Integer?
    case Int64Kind => json.Integer?
    case DoubleKind => json.Integer? || json.Decimal?
    case JsonKind => true
    case StringKind => json.Str?
  }

  /** A value read from JSON stands for it, but an integer may be cut down to 32 bits or become a double. */
  ghost predicate ReadAs(kind: Kind, json: Json, member: Option<Value>) {
    if json.Integer? && kind in {Int32Kind, DoubleKind} then member == FromJson(kind, json)
    else member.Some? && HasKind(member.value, kind) && StandsFor(json, member.value)
  }

  /** A body decodes exactly if each field is given in its type, or is optional and absent or null. */
  lemma DecodedIff(fields: seq<Field>, body: Json)
    ensures Decoded(fields, body).Some? <==>
      forall i :: 0 <= i < |fields| ==>
        if IsGiven(body, fields[i].name) then HasType(fields[i].kind, body.fields[fields[i].name])
        else fields[i].optional
    ensures Decoded(fields, body).Some? ==>
      var record := Decoded(fields, body).value;
      forall i :: 0 <= i < |fields| ==>
        if IsGiven(body, fields[i].name) then ReadAs(fields[i].kind, body.fields[fields[i].name], record[i])
        else record[i].None?
  {
    hide Decoded, DecodedMember, HasType, ReadAs;
    forall field: Field { MemberIff(field, body); }
    if Decoded(fields, body).Some? {
      DecodedIs(fields, body, Decoded(fields, body).value);
    } else if forall i :: 0 <= i < |fields| ==> DecodedMember(fields[i], body).Some? {
      var record := seq(|fields|, i requires 0 <= i < |fields| => DecodedMember(fields[i], body).value);
      DecodedIs(fields, body, record);
    }
  }

  lemma MemberIff(field: Field, body: Json)
    ensures DecodedMember(field, body).Some? <==>
      if IsGiven(body, field.name) then HasType(field.kind, body.fields[field.name]) else field.optional
    ensures DecodedMember(field, body).Some? ==>
      if IsGiven(body, field.name) then ReadAs(field.kind, body.fields[field.name], DecodedMember(field, body).value)
      else DecodedMember(field, body).value.None?
  {
  }

  /** An integer is cut down to 32 bits by whole turns. */
  lemma Int32Wraps(n: Int64) returns (turns: int)
    ensures FromJson(Int32Kind, Integer(n)).Some? && FromJson(Int32Kind, Integer(n)).value.Int32Value?
    ensures FromJson(Int32Kind, Integer(n)).value.i == n + turns * 0x1_0000_0000
  {
    var q, low := n / 0x1_0000_0000, n % 0x1_0000_0000;
    assert n == q * 0x1_0000_0000 + low;
    turns := if low < 0x8000_0000 then -q else -q - 1;
  }

  /** An integer is read as the double whose text is its digits and a zero after the point. */
  lemma DoubleOfInteger(n: Int64)
    ensures exists text: string ::
      && CanonicalJson.NumberOf(text) == CanonicalJson.Got(Integer(n), "") && IsDecimalText(text + ".0")
      && FromJson(DoubleKind, Integer(n)) == Some(DoubleValue(Finite(text + ".0")))
  {
    CanonicalJson.IntegerBack(n);
    IntegerTextIs(n);
    hide IntegerText, CanonicalJson.NumberOf, IsDecimalText, ToInt32;
    assert CanonicalJson.NumberOf(IntegerText(n)) == CanonicalJson.Got(Integer(n), "");
  }

  lemma HoldsNothing()
    ensures Holds([], [], map[])
  {
  }

  /** A record no JSON-typed member of which is the null value. */
  predicate NoNulls(record: Record) {
    forall i :: 0 <= i < |record| ==> record[i] != Some(JsonValue(Null))
  }

  lemma MemberAfterEncoding(field: Field, member: Option<Value>, body: Json)
    requires Fits(field, member) && body.Obj?
    requires member.Some? ==> field.name in body.fields && ToJson(member.value) == Some(body.fields[field.name])
    requires member.None? ==> field.name !in body.fields
    ensures DecodedMember(field, body) == Some(member) <==> member != Some(JsonValue(Null))
  {
  }

  lemma {:induction false} DecodedIs(fields: seq<Field>, body: Json, record: Record)
    requires |record| == |fields|
    ensures Decoded(fields, body) == Some(record) <==>
      forall i :: 0 <= i < |fields| ==> DecodedMember(fields[i], body) == Some(record[i])
  {
    hide DecodedMember;
    if fields != [] {
      var n := |fields| - 1;
      DecodedIs(fields[..n], body, record[..n]);
      assert record == record[..n] + [record[n]];
    }
  }

  /**
   Decoding undoes encoding, absent optionals staying absent, exactly if no JSON-typed member holds
   a null.
   */
  lemma RoundTripIff(fields: seq<Field>, record: Record)
    requires IsRecord(fields, record) && DistinctNames(fields) && Encoded(fields, record).Some?
    ensures Decoded(fields, Obj(Encoded(fields, record).value)) == Some(record) <==> NoNulls(record)
  {
    hide Encoded, Decoded, DecodedMember, ToJson;
    var body := Obj(Encoded(fields, record).value);
    EncodedHolds(fields, record);
    forall i | 0 <= i < |fields|
      ensures DecodedMember(fields[i], body) == Some(record[i]) <==> record[i] != Some(JsonValue(Null))
    {
      MemberAfterEncoding(fields[i], record[i], body);
    }
    DecodedIs(fields, body, record);
  }

  /** An optional JSON-typed member that holds null is absent once encoded and decoded. */
  lemma NullIsLost(name: string)
    ensures var (fields, record) := ([Field(name, JsonKind, true)], [Some(JsonValue(Null))]);
      && IsRecord(fields, record) && Encoded(fields, record).Some?
      && Decoded(fields, Obj(Encoded(fields, record).value)) == Some([None])
  {
    var fields, record := [Field(name, JsonKind, true)], [Some(JsonValue(Null))];
    assert fields[..0] == [] && record[..0] == [];
    assert Encoded(fields, record) == Some(map[name := Null]);
    var body := Obj(map[name := Null]);
    var absent: Record := [None];
    assert Decoded(fields[..0], body) == Some([]) && DecodedMember(fields[0], body) == Some(None);
    assert [] + absent == absent;
  }

  /** What decoding yields from any body is a record that survives another round trip. */
  lemma {:induction false} DecodedSurvives(fields: seq<Field>, body: Json)
    requires DistinctNames(fields) && Decoded(fields, body).Some?
    ensures var record := Decoded(fields, body).value;
      IsRecord(fields, record) && Encoded(fields, record).Some? &&
      Decoded(fields, Obj(Encoded(fields, record).value)) == Some(record)
  {
    hide Encoded, Decoded;
    var record := Decoded(fields, body).value;
    DecodedIs(fields, body, record);
    forall i | 0 <= i < |fields|
      ensures Fits(fields[i], record[i]) && record[i] != Some(JsonValue(Null))
      ensures record[i].Some? ==> ToJson(record[i].value).Some?
    {
      DecodedMemberFits(fields[i], body);
    }
    EncodedSome(fields, record);
    RoundTripIff(fields, record);
  }

  lemma DecodedMemberFits(field: Field, body: Json)
    requires DecodedMember(field, body).Some?
    ensures var member := DecodedMember(field, body).value;
      Fits(field, member) && member != Some(JsonValue(Null)) && (member.Some? ==> ToJson(member.value).Some?)
  {
  }

  lemma {:induction false} EncodedSome(fields: seq<Field>, record: Record)
    requires IsRecord(fields, record)
    requires forall i :: 0 <= i < |record| && record[i].Some? ==> ToJson(record[i].value).Some?
    ensures Encoded(fields, record).Some?
  {
    hide ToJson;
    if fields != [] { EncodedSome(fields[..|fields| - 1], record[..|fields| - 1]); }
  }
}
