/** The string key of a record, made of its key fields and the canonical text of their values. */
module EntityKeys {
  import opened Options
  import opened Json
  import opened CanonicalJson

  datatype KeyValue = KeyValue(field: string, value: Json)

  function KeyText(fields: seq<string>, values: seq<Json>): string
    requires |fields| == |values|
  {
    if fields == [] then ""
    else fields[0] + ("=" + (Canonical(values[0]) + ("\n" + KeyText(fields[1..], values[1..]))))
  }

  /** The values of a key: a line for each field, with its name, an equals sign and a JSON text. */
  function ReadKey(fields: seq<string>, t: string): Option<seq<Json>> {
    if fields == [] then if t == "" then Some([]) else None
    else if !(fields[0] + "=" <= t) then None
    else
      match ReadValue(t[|fields[0]| + 1..])
      case Bad => None
      case Got(value, u) =>
        if u == "" || u[0] != '\n' then None
        else
          match ReadKey(fields[1..], u[1..])
          case None => None
          case Some(rest) => Some([value] + rest)
  }

  /** The values of a key can be read back from it. */
  lemma {:induction false} KeyTextBack(fields: seq<string>, values: seq<Json>)
    requires |values| == |fields|
    ensures ReadKey(fields, KeyText(fields, values)) == Some(values)
  {
    hide Canonical, ReadValue;
    if fields != [] {
      var u := "\n" + KeyText(fields[1..], values[1..]);
      CanonicalBack(values[0], u);
      KeyTextBack(fields[1..], values[1..]);
      var key, name := KeyText(fields, values), fields[0] + "=";
      assert key == name + (Canonical(values[0]) + u);
      assert key[|name|..] == Canonical(values[0]) + u;
      assert values == [values[0]] + values[1..];
    }
  }

  /** For fixed key fields, different values never share a key. */
  lemma KeyTextInjective(fields: seq<string>, a: seq<Json>, b: seq<Json>)
    requires |a| == |b| == |fields|
    requires KeyText(fields, a) == KeyText(fields, b)
    ensures a == b
  {
    KeyTextBack(fields, a);
    KeyTextBack(fields, b);
    hide KeyText, ReadKey;
  }

  /** The fields of a document, none if it is not an object. */
  function FieldsOf(document: Json): map<string, Json> {
    if document.Obj? then document.fields else map[]
  }

  /** The fields with each key value put over them, the last for a field winning. */
  function Overlay(fields: map<string, Json>, keyValues: seq<KeyValue>): map<string, Json>
    decreases |keyValues|
  {
    if keyValues == [] then fields
    else Overlay(fields[keyValues[0].field := keyValues[0].value], keyValues[1..])
  }

  /** The last of the key values for a field. */
  predicate IsLastFor(keyValues: seq<KeyValue>, f: string, i: int) {
    && 0 <= i < |keyValues| && keyValues[i].field == f
    && forall j :: i < j < |keyValues| ==> keyValues[j].field != f
  }

  /** A field has the last value put over it, and without one what it had before. */
  lemma {:induction false} OverlayIs(fields: map<string, Json>, keyValues: seq<KeyValue>, f: string)
    ensures var overlaid := Overlay(fields, keyValues);
      && (forall i :: IsLastFor(keyValues, f, i) ==> f in overlaid && overlaid[f] == keyValues[i].value)
      && ((forall i :: 0 <= i < |keyValues| ==> keyValues[i].field != f) ==>
            (f in overlaid <==> f in fields) && (f in overlaid ==> overlaid[f] == fields[f]))
      && (f in overlaid <==> f in fields || exists i :: 0 <= i < |keyValues| && keyValues[i].field == f)
    decreases |keyValues|
  {
    if keyValues != [] {
      var rest := keyValues[1..];
      OverlayIs(fields[keyValues[0].field := keyValues[0].value], rest, f);
      assert forall j :: 0 < j < |keyValues| ==> keyValues[j] == rest[j - 1];
      assert forall j :: 0 <= j < |rest| ==> rest[j] == keyValues[j + 1];
    }
  }

  function DocumentWithKeys(document: Json, keyValues: seq<KeyValue>): Json {
    Obj(Overlay(FieldsOf(document), keyValues))
  }

  /** Values already there change nothing. */
  lemma {:induction false} OverlaySame(fields: map<string, Json>, keyValues: seq<KeyValue>)
    requires forall kv :: kv in keyValues ==> kv.field in fields && fields[kv.field] == kv.value
    ensures Overlay(fields, keyValues) == fields
    decreases |keyValues|
  {
    if keyValues != [] {
      assert keyValues[0] in keyValues;
      assert fields[keyValues[0].field := keyValues[0].value] == fields;
      OverlaySame(fields, keyValues[1..]);
    }
  }
}
