/** The constants emitted for an entity, and the expressions that stand for its field names. */
module EntityConstants {
  import opened Options
  import opened Sequences

  datatype Relation = Relation(
    name: string, target: string, kind: string, relationKind: Option<string>, onParentDelete: Option<string>)

  datatype Entity = Entity(
    name: string, keyFields: seq<string>, fields: seq<(string, string)>,
    indexes: seq<string>, states: seq<string>, relations: seq<Relation>)

  predicate IsField(e: Entity, field: string) {
    exists i :: 0 <= i < |e.fields| && e.fields[i].0 == field
  }

  predicate KeysAreFields(e: Entity) { forall k :: k in e.keyFields ==> IsField(e, k) }

  // -------------------------------------------------------------------------------- identifiers

  function Upper(c: char): char { if 'a' <= c <= 'z' then (c as int - 32) as char else c }

  function Lower(c: char): char { if 'A' <= c <= 'Z' then (c as int + 32) as char else c }

  predicate IsAlnum(c: char) { 'a' <= c <= 'z' || 'A' <= c <= 'Z' || '0' <= c <= '9' }

  /** Letters and digits only, the first of each run raised. */
  function PascalRuns(value: string, upperNext: bool): string {
    if value == "" then ""
    else if !IsAlnum(value[0]) then PascalRuns(value[1..], true)
    else [if upperNext then Upper(value[0]) else value[0]] + PascalRuns(value[1..], false)
  }

  function Pascal(value: string, fallback: string): string {
    var result := PascalRuns(value, true);
    if result == "" then fallback else result
  }

  function LowerCamel(value: string, fallback: string): string {
    var identifier := Pascal(value, fallback);
    if identifier == "" then fallback else [Lower(identifier[0])] + identifier[1..]
  }

  function PluralFieldName(entity: string): string {
    var singular := Pascal(entity, "Entities");
    var n := |singular|;
    var plural :=
      if n > 0 && singular[n - 1] == 'y' then singular[..n - 1] + "ies"
      else if n > 0 && singular[n - 1] == 's' then singular + "es"
      else singular + "s";
    LowerCamel(plural, "entities")
  }

  predicate IsWord(value: string) { value != "" && forall i :: 0 <= i < |value| ==> IsAlnum(value[i]) }

  /** Names are joined at anything but a letter or digit, each word with its first letter raised. */
  lemma {:induction false} PascalJoins(a: string, c: char, b: string, up: bool)
    requires !IsAlnum(c)
    ensures PascalRuns(a + [c] + b, up) == PascalRuns(a, up) + PascalRuns(b, true)
    decreases |a|
  {
    var all := a + [c] + b;
    if a == "" {
      assert all[1..] == b;
    } else {
      assert all[1..] == a[1..] + [c] + b;
      PascalJoins(a[1..], c, b, !IsAlnum(a[0]));
    }
  }

  lemma {:induction false} PascalWord(value: string, up: bool)
    requires IsWord(value)
    ensures PascalRuns(value, up) == [if up then Upper(value[0]) else value[0]] + value[1..]
  {
    if |value| > 1 {
      PascalWord(value[1..], false);
      assert value[1..] == [value[1]] + value[2..];
    } else {
      assert value[1..] == "";
    }
  }

  lemma LowerCamelWord(value: string, fallback: string)
    requires IsWord(value)
    ensures Pascal(value, fallback) == [Upper(value[0])] + value[1..]
    ensures LowerCamel(value, fallback) == [Lower(Upper(value[0]))] + value[1..]
  {
    PascalWord(value, true);
    hide PascalRuns;
  }

  function PluralEnding(last: char): string {
    if last == 'y' then "ies" else if last == 's' then "ses" else [last] + "s"
  }

  /** The plural of a word: -y becomes -ies, after -s comes -es, else -s. */
  lemma PluralOfWord(stem: string, last: char)
    requires IsWord(stem) && IsAlnum(last)
    ensures PluralFieldName(stem + [last]) == [Lower(Upper(stem[0]))] + stem[1..] + PluralEnding(last)
  {
    var word, raised, ending := stem + [last], [Upper(stem[0])] + stem[1..], PluralEnding(last);
    LowerCamelWord(word, "Entities");
    assert [Upper(word[0])] + word[1..] == raised + [last];
    PluralOfRaised(stem + [last], raised, last);
    PluralIsWord(raised, last);
    LowerCamelWord(raised + ending, "entities");
    hide *;
    assert (raised + ending)[0] == raised[0] && (raised + ending)[1..] == stem[1..] + ending;
    assert Upper(Upper(stem[0])) == Upper(stem[0]) by { UpperTwice(stem[0]); }
    Assoc([Lower(Upper(stem[0]))], stem[1..], ending);
  }

  lemma UpperTwice(c: char)
    ensures Upper(Upper(c)) == Upper(c) && (IsAlnum(c) ==> IsAlnum(Upper(c)))
  {
  }

  lemma PluralIsWord(raised: string, last: char)
    requires raised != [] && (forall i :: 0 <= i < |raised| ==> IsAlnum(raised[i])) && IsAlnum(last)
    ensures IsWord(raised + PluralEnding(last))
  {
  }

  lemma PluralOfRaised(entity: string, raised: string, last: char)
    requires Pascal(entity, "Entities") == raised + [last]
    ensures PluralFieldName(entity) == LowerCamel(raised + PluralEnding(last), "entities")
  {
    hide Pascal, LowerCamel;
    assert (raised + [last])[..|raised|] == raised;
    assert raised + [last] + "s" == raised + ([last] + "s") && raised + ['s'] + "es" == raised + "ses";
  }

  // ---------------------------------------------------------------------------------- constants

  const SHAPE := "GeneratedShape"

  const TYPE_NAME := "TypeName"

  const HELPER_NAME := "HelperName"

  /** A table of constants: each with its name and its value. */
  type Table = seq<(string, string)>

  function Prefix(entity: string): string { "k" + Pascal(entity, SHAPE) }

  function Identifier(name: string): string { Pascal(name, SHAPE) }

  function FieldConstant(entity: string, field: string): string { Prefix(entity) + ("Field" + Identifier(field)) }

  /** A field of words gets a constant named after the words. */
  lemma FieldConstantOf(entity: string, first: string, second: string)
    requires IsWord(entity) && IsWord(first) && IsWord(second)
    ensures FieldConstant(entity, first + "_" + second) ==
      "k" + ([Upper(entity[0])] + entity[1..]) + "Field"
        + ([Upper(first[0])] + first[1..]) + ([Upper(second[0])] + second[1..])
  {
    PascalWord(entity, true);
    PascalWord(first, true);
    PascalWord(second, true);
    PascalJoins(first, '_', second, true);
    assert first + ['_'] + second == first + "_" + second;
    hide PascalRuns;
    var e, f := [Upper(entity[0])] + entity[1..], [Upper(first[0])] + first[1..];
    var s := [Upper(second[0])] + second[1..];
    assert ("k" + e) + ("Field" + (f + s)) == "k" + e + "Field" + f + s;
  }

  function IndexConstant(entity: string, index: string): string { Prefix(entity) + ("Index" + Identifier(index)) }

  function PluralConstant(entity: string): string { Prefix(entity) + "EntityPluralName" }

  function IndexMethod(index: string): string {
    "listBy" + Pascal(if |index| > 3 && index[..3] == "by_" then index[3..] else index, "Index") + "Tx"
  }

  lemma IndexMethodOf(first: string, second: string)
    requires IsWord(first) && IsWord(second)
    ensures IndexMethod("by_" + first + "_" + second)
      == "listBy" + (([Upper(first[0])] + first[1..]) + ([Upper(second[0])] + second[1..])) + "Tx"
  {
    PascalWord(first, true);
    PascalWord(second, true);
    PascalJoins(first, '_', second, true);
    assert first + ['_'] + second == first + "_" + second;
    hide PascalRuns;
    var index := "by_" + first + "_" + second;
    assert index == "by_" + (first + "_" + second);
    assert index[..3] == "by_" && index[3..] == first + "_" + second;
  }

  function HeadConstants(e: Entity, keyHelper: string): Table {
    [(Prefix(e.name) + "EntityName", e.name),
     (PluralConstant(e.name), PluralFieldName(e.name)),
     (Prefix(e.name) + "CollectionName", e.name),
     (Prefix(e.name) + "KeyHelperName", keyHelper)]
  }

  function FieldTable(entity: string, field: (string, string)): Table {
    [(FieldConstant(entity, field.0), field.0), (FieldConstant(entity, field.0) + TYPE_NAME, field.1)]
  }

  function IndexTable(entity: string, index: string): Table {
    [(IndexConstant(entity, index), index), (IndexConstant(entity, index) + HELPER_NAME, IndexMethod(index))]
  }

  function StateTable(entity: string, state: string): Table {
    [(Prefix(entity) + ("Status" + Identifier(state)), state)]
  }

  /** The constants of a relation by what their names end in. */
  function RelationEnds(r: Relation): Table {
    [("Name", r.name), ("Target", r.target), ("Kind", r.kind)]
      + (if r.relationKind.Some? then [("RelationKind", r.relationKind.value)] else [])
      + (if r.onParentDelete.Some? then [("OnParentDelete", r.onParentDelete.value)] else [])
  }

  function RelationTable(entity: string, r: Relation): Table {
    var ends := RelationEnds(r);
    seq(|ends|, i requires 0 <= i < |ends| =>
      (Prefix(entity) + ("Relation" + Identifier(r.name)) + ends[i].0, ends[i].1))
  }

  function FieldTables(e: Entity): seq<Table> {
    seq(|e.fields|, i requires 0 <= i < |e.fields| => FieldTable(e.name, e.fields[i]))
  }

  function IndexTables(e: Entity): seq<Table> {
    seq(|e.indexes|, i requires 0 <= i < |e.indexes| => IndexTable(e.name, e.indexes[i]))
  }

  function StateTables(e: Entity): seq<Table> {
    seq(|e.states|, i requires 0 <= i < |e.states| => StateTable(e.name, e.states[i]))
  }

  function RelationTables(e: Entity): seq<Table> {
    seq(|e.relations|, i requires 0 <= i < |e.relations| => RelationTable(e.name, e.relations[i]))
  }

  /** Every constant of the entity with its value, in the order of declaration. */
  function Constants(e: Entity, keyHelper: string): Table {
    HeadConstants(e, keyHelper)
      + (Flat(FieldTables(e)) + (Flat(IndexTables(e)) + (Flat(StateTables(e)) + Flat(RelationTables(e)))))
  }

  /** No name is declared twice, as a compiler of the generated text demands. */
  predicate Compiles(table: Table) {
    forall i, j :: 0 <= i < j < |table| ==> table[i].0 != table[j].0
  }

  // -------------------------------------------------------------------------------- expressions

  datatype Term = Literal(text: string) | Constant(name: string)

  /** What a term evaluates to in the scope of a table of constants. */
  function Denoted(table: Table, term: Term): string {
    match term
    case Literal(text) => text
    case Constant(name) =>
      if table == [] then ""
      else if table[0].0 == name then table[0].1
      else Denoted(table[1..], term)
  }

  lemma {:induction false} DenotedIn(table: Table, name: string, value: string)
    requires (name, value) in table && Compiles(table)
    ensures Denoted(table, Constant(name)) == value
  {
    if table[0] != (name, value) {
      assert (name, value) in table[1..];
      DenotedIn(table[1..], name, value);
    }
  }

  function PathFieldTerm(e: Entity, name: string): Term {
    if IsField(e, name) then Constant(FieldConstant(e.name, name)) else Literal(name)
  }

  function CodecFieldTerm(e: Entity, name: string): Term {
    if name in e.keyFields || IsField(e, name) then Constant(FieldConstant(e.name, name))
    else if name == PluralFieldName(e.name) then Constant(PluralConstant(e.name))
    else Literal(name)
  }

  lemma {:induction false} InFlat(parts: seq<Table>, i: nat, c: (string, string))
    requires i < |parts| && c in parts[i]
    ensures c in Flat(parts)
  {
    if i > 0 { InFlat(parts[1..], i - 1, c); }
  }

  lemma PartDenotes(e: Entity, helper: string, parts: seq<Table>, i: nat, j: nat)
    requires Compiles(Constants(e, helper)) && i < |parts| && j < |parts[i]|
    requires parts in [FieldTables(e), IndexTables(e), StateTables(e), RelationTables(e)]
    ensures Denoted(Constants(e, helper), Constant(parts[i][j].0)) == parts[i][j].1
  {
    hide FieldTables, IndexTables, StateTables, RelationTables, HeadConstants, Compiles, Denoted, Flat;
    var c := parts[i][j];
    InFlat(parts, i, c);
    DenotedIn(Constants(e, helper), c.0, c.1);
  }

  lemma FieldConstantDenotes(e: Entity, helper: string, field: string)
    requires Compiles(Constants(e, helper)) && IsField(e, field)
    ensures Denoted(Constants(e, helper), Constant(FieldConstant(e.name, field))) == field
  {
    hide FieldConstant, Compiles, Denoted, Constants;
    var i :| 0 <= i < |e.fields| && e.fields[i].0 == field;
    PartDenotes(e, helper, FieldTables(e), i, 0);
  }

  /** A constant has the value that it is named after. */
  lemma FieldDenotes(e: Entity, helper: string, i: nat)
    requires Compiles(Constants(e, helper)) && i < |e.fields|
    ensures var table := Constants(e, helper);
      var field := "k" + Pascal(e.name, SHAPE) + ("Field" + Identifier(e.fields[i].0));
      && Denoted(table, Constant(field)) == e.fields[i].0
      && Denoted(table, Constant(field + "TypeName")) == e.fields[i].1
  {
    PartDenotes(e, helper, FieldTables(e), i, 0);
    PartDenotes(e, helper, FieldTables(e), i, 1);
    hide Identifier, Pascal, Constants, Denoted;
  }

  lemma IndexDenotes(e: Entity, helper: string, i: nat)
    requires Compiles(Constants(e, helper)) && i < |e.indexes|
    ensures var table := Constants(e, helper);
      var index := "k" + Pascal(e.name, SHAPE) + ("Index" + Identifier(e.indexes[i]));
      && Denoted(table, Constant(index)) == e.indexes[i]
      && Denoted(table, Constant(index + "HelperName")) == IndexMethod(e.indexes[i])
  {
    PartDenotes(e, helper, IndexTables(e), i, 0);
    PartDenotes(e, helper, IndexTables(e), i, 1);
    hide Identifier, Pascal, Constants, Denoted, IndexMethod;
  }

  lemma StateDenotes(e: Entity, helper: string, i: nat)
    requires Compiles(Constants(e, helper)) && i < |e.states|
    ensures Denoted(
      Constants(e, helper), Constant("k" + Pascal(e.name, SHAPE) + ("Status" + Identifier(e.states[i])))) == e.states[i]
  {
    PartDenotes(e, helper, StateTables(e), i, 0);
    hide Identifier, Pascal, Constants, Denoted;
  }

  lemma RelationDenotes(e: Entity, helper: string, i: nat)
    requires Compiles(Constants(e, helper)) && i < |e.relations|
    ensures var table, r := Constants(e, helper), e.relations[i];
      var relation := "k" + Pascal(e.name, SHAPE) + ("Relation" + Identifier(r.name));
      && Denoted(table, Constant(relation + "Name")) == r.name
      && Denoted(table, Constant(relation + "Target")) == r.target
      && Denoted(table, Constant(relation + "Kind")) == r.kind
      && (r.relationKind.Some? ==> Denoted(table, Constant(relation + "RelationKind")) == r.relationKind.value)
      && (r.onParentDelete.Some? ==> Denoted(table, Constant(relation + "OnParentDelete")) == r.onParentDelete.value)
  {
    var r, ends := e.relations[i], RelationEnds(e.relations[i]);
    forall j | 0 <= j < |ends| ensures RelationEndDenotes(e, helper, r, ends[j]) {
      PartDenotes(e, helper, RelationTables(e), i, j);
    }
    assert ends[0] == ("Name", r.name) && ends[1] == ("Target", r.target) && ends[2] == ("Kind", r.kind);
    assert r.relationKind.Some? ==> ends[3] == ("RelationKind", r.relationKind.value);
    assert r.onParentDelete.Some? ==> ends[|ends| - 1] == ("OnParentDelete", r.onParentDelete.value);
    hide Identifier, Pascal, Constants, Denoted, RelationTables, RelationTable, RelationEnds;
  }

  ghost predicate RelationEndDenotes(e: Entity, helper: string, r: Relation, end: (string, string)) {
    Denoted(
      Constants(e, helper), Constant("k" + Pascal(e.name, SHAPE) + ("Relation" + Identifier(r.name)) + end.0)) == end.1
  }

  /** Every key expression denotes the name it was made from, whatever branch made it. */
  lemma KeyExpressionsDenoteNames(e: Entity, helper: string, name: string)
    requires Compiles(Constants(e, helper)) && KeysAreFields(e)
    ensures Denoted(Constants(e, helper), CodecFieldTerm(e, name)) == name
    ensures Denoted(Constants(e, helper), PathFieldTerm(e, name)) == name
  {
    hide FieldConstant, PluralConstant, PluralFieldName, Compiles, Flat;
    if IsField(e, name) {
      FieldConstantDenotes(e, helper, name);
    } else if name == PluralFieldName(e.name) {
      assert HeadConstants(e, helper)[1] == (PluralConstant(e.name), name);
      DenotedIn(Constants(e, helper), PluralConstant(e.name), name);
    }
  }

  // ---------------------------------------------------------------------------- when it compiles

  /** The identifiers of two names differ, and neither is the other one with the suffix. */
  predicate Apart(a: string, b: string, suffix: string) {
    var x, y := Identifier(a), Identifier(b);
    x != y && x != y + suffix && y != x + suffix
  }

  predicate FieldsApart(e: Entity) {
    forall i, j :: 0 <= i < j < |e.fields| ==> Apart(e.fields[i].0, e.fields[j].0, TYPE_NAME)
  }

  predicate IndexesApart(e: Entity) {
    forall i, j :: 0 <= i < j < |e.indexes| ==> Apart(e.indexes[i], e.indexes[j], HELPER_NAME)
  }

  predicate StatesApart(e: Entity) {
    forall i, j :: 0 <= i < j < |e.states| ==> Identifier(e.states[i]) != Identifier(e.states[j])
  }

  /** Only the relation kind of one relation can have the name of the kind of another. */
  predicate RelationApart(r: Relation, q: Relation) {
    var x, y := Identifier(r.name), Identifier(q.name);
    && x != y
    && (q.relationKind.Some? ==> x != y + "Relation")
    && (r.relationKind.Some? ==> y != x + "Relation")
  }

  predicate RelationsApart(e: Entity) {
    forall i, j :: 0 <= i < j < |e.relations| ==> RelationApart(e.relations[i], e.relations[j])
  }

  predicate NamesApart(a: Table, b: Table) {
    forall i, j :: 0 <= i < |a| && 0 <= j < |b| ==> a[i].0 != b[j].0
  }

  lemma CompilesConcat(a: Table, b: Table)
    ensures Compiles(a + b) <==> Compiles(a) && Compiles(b) && NamesApart(a, b)
  {
    var all := a + b;
    assert forall i :: 0 <= i < |a| ==> all[i] == a[i];
    assert forall j :: 0 <= j < |b| ==> all[|a| + j] == b[j];
  }

  lemma ApartFromConcat(a: Table, b: Table, c: Table)
    ensures NamesApart(a, b + c) <==> NamesApart(a, b) && NamesApart(a, c)
  {
    var all := b + c;
    assert forall j :: 0 <= j < |b| ==> all[j] == b[j];
    assert forall j :: 0 <= j < |c| ==> all[|b| + j] == c[j];
  }

  lemma {:induction false} ApartFromFlat(a: Table, parts: seq<Table>)
    ensures NamesApart(a, Flat(parts)) <==> forall j :: 0 <= j < |parts| ==> NamesApart(a, parts[j])
  {
    if parts != [] {
      ApartFromFlat(a, parts[1..]);
      ApartFromConcat(a, parts[0], Flat(parts[1..]));
      hide NamesApart;
      assert forall j :: 1 <= j < |parts| ==> parts[j] == parts[1..][j - 1];
      assert forall j :: 0 <= j < |parts| - 1 ==> parts[1..][j] == parts[j + 1];
    }
  }

  /** Tables put together compile exactly if each does and no two share a name. */
  lemma {:induction false} FlatCompiles(parts: seq<Table>)
    ensures Compiles(Flat(parts)) <==>
      && (forall i :: 0 <= i < |parts| ==> Compiles(parts[i]))
      && (forall i, j :: 0 <= i < j < |parts| ==> NamesApart(parts[i], parts[j]))
  {
    hide Compiles, NamesApart;
    if parts == [] {
      assert Compiles([]) by { EmptyCompiles(); }
    } else {
      var rest := parts[1..];
      FlatCompiles(rest);
      CompilesConcat(parts[0], Flat(rest));
      ApartFromFlat(parts[0], rest);
      assert forall i :: 1 <= i < |parts| ==> parts[i] == rest[i - 1];
      assert forall i :: 0 <= i < |rest| ==> rest[i] == parts[i + 1];
    }
  }

  lemma EmptyCompiles()
    ensures Compiles([])
  {
  }

  lemma CancelPrefix(p: string, x: string, y: string)
    ensures p + x == p + y <==> x == y
  {
    if p + x == p + y {
      assert x == (p + x)[|p|..] && y == (p + y)[|p|..];
    }
  }

  lemma CancelSuffix(x: string, y: string, t: string)
    ensures x + t == y + t <==> x == y
  {
    if x + t == y + t {
      assert |x| == |y| && x == (x + t)[..|x|] && y == (y + t)[..|y|];
    }
  }

  /** Two names of one kind, with and without a suffix. */
  lemma SuffixedNames(p: string, kind: string, x: string, y: string, t: string)
    ensures var (a, b) := (p + (kind + x), p + (kind + y));
      && (a == b <==> x == y) && (a + t == b + t <==> x == y)
      && (a == b + t <==> x == y + t) && (a + t == b <==> x + t == y)
  {
    var a, b := p + (kind + x), p + (kind + y);
    CancelSuffix(a, b, t);
    CancelPrefix(p, kind + x, kind + y);
    CancelPrefix(kind, x, y);
    assert b + t == p + (kind + (y + t)) && a + t == p + (kind + (x + t));
    CancelPrefix(p, kind + x, kind + (y + t));
    CancelPrefix(kind, x, y + t);
    CancelPrefix(p, kind + (x + t), kind + y);
    CancelPrefix(kind, x + t, y);
  }

  /** Two constants of each of two names. */
  lemma PairsApart(p: string, kind: string, a: string, b: string, t: string, first: Table, second: Table)
    requires |first| == |second| == 2 && t != ""
    requires first[0].0 == p + (kind + Identifier(a)) && first[1].0 == p + (kind + Identifier(a)) + t
    requires second[0].0 == p + (kind + Identifier(b)) && second[1].0 == p + (kind + Identifier(b)) + t
    ensures NamesApart(first, second) <==> Apart(a, b, t)
    ensures Compiles(first)
  {
    hide Identifier;
    SuffixedNames(p, kind, Identifier(a), Identifier(b), t);
    assert |first[1].0| > |first[0].0|;
  }

  lemma FieldsCompile(e: Entity)
    ensures Compiles(Flat(FieldTables(e))) <==> FieldsApart(e)
  {
    hide Identifier, Prefix, NamesApart, Compiles, Flat, Apart;
    FlatCompiles(FieldTables(e));
    forall i, j | 0 <= i < |e.fields| && 0 <= j < |e.fields|
      ensures NamesApart(FieldTables(e)[i], FieldTables(e)[j]) <==> Apart(e.fields[i].0, e.fields[j].0, TYPE_NAME)
      ensures Compiles(FieldTables(e)[i])
    {
      var first, second := FieldTables(e)[i], FieldTables(e)[j];
      PairsApart(Prefix(e.name), "Field", e.fields[i].0, e.fields[j].0, TYPE_NAME, first, second);
    }
  }

  lemma IndexesCompile(e: Entity)
    ensures Compiles(Flat(IndexTables(e))) <==> IndexesApart(e)
  {
    hide Identifier, Prefix, IndexMethod, NamesApart, Compiles, Flat, Apart;
    FlatCompiles(IndexTables(e));
    forall i, j | 0 <= i < |e.indexes| && 0 <= j < |e.indexes|
      ensures NamesApart(IndexTables(e)[i], IndexTables(e)[j]) <==> Apart(e.indexes[i], e.indexes[j], HELPER_NAME)
      ensures Compiles(IndexTables(e)[i])
    {
      var first, second := IndexTables(e)[i], IndexTables(e)[j];
      PairsApart(Prefix(e.name), "Index", e.indexes[i], e.indexes[j], HELPER_NAME, first, second);
    }
  }

  lemma StatesCompile(e: Entity)
    ensures Compiles(Flat(StateTables(e))) <==> StatesApart(e)
  {
    hide Identifier, Prefix, Flat;
    FlatCompiles(StateTables(e));
    forall i, j | 0 <= i < |e.states| && 0 <= j < |e.states|
      ensures NamesApart(StateTables(e)[i], StateTables(e)[j]) <==>
        Identifier(e.states[i]) != Identifier(e.states[j])
    {
      SuffixedNames(Prefix(e.name), "Status", Identifier(e.states[i]), Identifier(e.states[j]), "");
      assert StateTables(e)[i] == StateTable(e.name, e.states[i]);
      assert StateTables(e)[j] == StateTable(e.name, e.states[j]);
      assert StateTables(e)[i][0].0 == StateTables(e)[j][0].0 <==> Identifier(e.states[i]) == Identifier(e.states[j]);
    }
  }

  // ----------------------------------------------------------------------- constants of relations

  const ENDS := {"Name", "Target", "Kind", "RelationKind", "OnParentDelete"}

  /** No end of a relation's constants ends another, but for the two kinds. */
  lemma EndsMeet(x: string, s: string, y: string, t: string)
    requires s in ENDS && t in ENDS
    ensures x + s == y + t <==>
      || (s == t && x == y)
      || (s == "Kind" && t == "RelationKind" && x == y + "Relation")
      || (s == "RelationKind" && t == "Kind" && y == x + "Relation")
  {
    EndsIn(x, s);
    EndsIn(y, t);
    if s == t {
      CancelSuffix(x, y, s);
    } else if s == "Kind" && t == "RelationKind" {
      assert y + t == y + "Relation" + "Kind";
      CancelSuffix(x, y + "Relation", "Kind");
    } else if s == "RelationKind" && t == "Kind" {
      assert x + s == x + "Relation" + "Kind";
      CancelSuffix(x + "Relation", y, "Kind");
    } else {
      assert LastTwo(s) != LastTwo(t);
    }
  }

  lemma EndsIn(x: string, s: string)
    requires |s| > 1
    ensures LastTwo(x + s) == LastTwo(s)
  {
  }

  function LastTwo(s: string): string
    requires |s| > 1
  {
    [s[|s| - 2], s[|s| - 1]]
  }

  lemma EndsOf(r: Relation)
    ensures forall i :: 0 <= i < |RelationEnds(r)| ==> RelationEnds(r)[i].0 in ENDS
    ensures |RelationEnds(r)| > 2 && RelationEnds(r)[0].0 == "Name" && RelationEnds(r)[2].0 == "Kind"
    ensures r.relationKind.Some? ==> |RelationEnds(r)| > 3 && RelationEnds(r)[3].0 == "RelationKind"
    ensures (exists i :: 0 <= i < |RelationEnds(r)| && RelationEnds(r)[i].0 == "RelationKind") ==> r.relationKind.Some?
    ensures Compiles(RelationEnds(r))
  {
  }

  lemma RelationNames(p: string, x: string, s: string, y: string, t: string)
    requires s in ENDS && t in ENDS
    ensures p + ("Relation" + x) + s == p + ("Relation" + y) + t <==> x + s == y + t
  {
    assert p + ("Relation" + x) + s == p + ("Relation" + (x + s));
    assert p + ("Relation" + y) + t == p + ("Relation" + (y + t));
    CancelPrefix(p, "Relation" + (x + s), "Relation" + (y + t));
    CancelPrefix("Relation", x + s, y + t);
  }

  lemma RelationNamesApart(entity: string, r: Relation, q: Relation)
    ensures NamesApart(RelationTable(entity, r), RelationTable(entity, q)) <==> RelationApart(r, q)
    ensures Compiles(RelationTable(entity, r))
  {
    hide Identifier, Prefix, RelationEnds;
    var a, b, x, y := RelationEnds(r), RelationEnds(q), Identifier(r.name), Identifier(q.name);
    var first, second := RelationTable(entity, r), RelationTable(entity, q);
    EndsOf(r);
    EndsOf(q);
    forall i, j | 0 <= i < |a| && 0 <= j < |b| ensures first[i].0 == second[j].0 <==> x + a[i].0 == y + b[j].0 {
      RelationNames(Prefix(entity), x, a[i].0, y, b[j].0);
    }
    forall i, j | 0 <= i < j < |a| ensures first[i].0 != first[j].0 {
      RelationNames(Prefix(entity), x, a[i].0, x, a[j].0);
      EndsMeet(x, a[i].0, x, a[j].0);
    }
    if RelationApart(r, q) {
      forall i, j | 0 <= i < |a| && 0 <= j < |b| ensures first[i].0 != second[j].0 {
        EndsMeet(x, a[i].0, y, b[j].0);
      }
    } else {
      EndsMeet(x, "Name", y, "Name");
      EndsMeet(x, "Kind", y, "RelationKind");
      EndsMeet(x, "RelationKind", y, "Kind");
      assert first[0].0 == second[0].0
        || (q.relationKind.Some? && first[2].0 == second[3].0)
        || (r.relationKind.Some? && first[3].0 == second[2].0);
    }
  }

  lemma RelationsCompile(e: Entity)
    ensures Compiles(Flat(RelationTables(e))) <==> RelationsApart(e)
  {
    hide RelationTable, RelationApart, NamesApart, Compiles, Flat;
    FlatCompiles(RelationTables(e));
    forall i, j | 0 <= i < |e.relations| && 0 <= j < |e.relations|
      ensures NamesApart(RelationTables(e)[i], RelationTables(e)[j]) <==> RelationApart(e.relations[i], e.relations[j])
      ensures Compiles(RelationTables(e)[i])
    {
      RelationNamesApart(e.name, e.relations[i], e.relations[j]);
    }
  }

  // ------------------------------------------------------------------------- the kinds stay apart

  /** What follows the first `n` characters of every name starts with one of `marks`. */
  predicate Marked(table: Table, n: nat, marks: string) {
    forall i :: 0 <= i < |table| ==> |table[i].0| > n && table[i].0[n] in marks
  }

  lemma MarkedConcat(a: Table, b: Table, n: nat, l: string, r: string)
    requires Marked(a, n, l) && Marked(b, n, r) && forall c :: c in l ==> c !in r
    ensures Marked(a + b, n, l + r) && NamesApart(a, b)
  {
    assert forall i :: 0 <= i < |b| ==> b[i].0[n] in r;
  }

  lemma {:induction false} MarkedFlat(parts: seq<Table>, n: nat, marks: string)
    requires forall i :: 0 <= i < |parts| ==> Marked(parts[i], n, marks)
    ensures Marked(Flat(parts), n, marks)
  {
    if parts != [] { MarkedFlat(parts[1..], n, marks); }
  }

  lemma NamesMarked(e: Entity, helper: string)
    ensures var n := |Prefix(e.name)|;
      && Marked(HeadConstants(e, helper), n, "ECK")
      && Marked(Flat(FieldTables(e)), n, "F") && Marked(Flat(IndexTables(e)), n, "I")
      && Marked(Flat(StateTables(e)), n, "S") && Marked(Flat(RelationTables(e)), n, "R")
  {
    hide Prefix, Identifier, PluralFieldName, IndexMethod, RelationEnds, Flat;
    var n := |Prefix(e.name)|;
    MarkedFlat(FieldTables(e), n, "F");
    MarkedFlat(IndexTables(e), n, "I");
    MarkedFlat(StateTables(e), n, "S");
    MarkedFlat(RelationTables(e), n, "R");
  }

  lemma HeadsCompile(e: Entity, helper: string)
    ensures Compiles(HeadConstants(e, helper))
  {
    hide Prefix, PluralFieldName;
    var p, heads := Prefix(e.name), HeadConstants(e, helper);
    assert heads[0].0[|p|..] == "EntityName" && heads[1].0[|p|..] == "EntityPluralName";
    assert heads[2].0[|p|] == 'C' && heads[3].0[|p|] == 'K';
  }

  /**
   The constants compile exactly if identifiers of one kind differ, no field's is another one with
   `TypeName`, no index's another one with `HelperName`, and no relation's the one with `Relation`
   of another that has a relation kind.
   */
  lemma CompilesIff(e: Entity, helper: string)
    ensures Compiles(Constants(e, helper)) <==> FieldsApart(e) && IndexesApart(e) && StatesApart(e) && RelationsApart(e)
  {
    NamesMarked(e, helper);
    HeadsCompile(e, helper);
    FieldsCompile(e);
    IndexesCompile(e);
    StatesCompile(e);
    RelationsCompile(e);
    hide Prefix, HeadConstants, FieldTables, IndexTables, StateTables, RelationTables, Flat;
    hide FieldsApart, IndexesApart, StatesApart, RelationsApart, Compiles, Marked, NamesApart;
    var n := |Prefix(e.name)|;
    var fields, indexes := Flat(FieldTables(e)), Flat(IndexTables(e));
    var states, relations := Flat(StateTables(e)), Flat(RelationTables(e));
    MarkedConcat(states, relations, n, "S", "R");
    MarkedConcat(indexes, states + relations, n, "I", "SR");
    MarkedConcat(fields, indexes + (states + relations), n, "F", "ISR");
    MarkedConcat(HeadConstants(e, helper), fields + (indexes + (states + relations)), n, "ECK", "FISR");
    CompilesConcat(states, relations);
    CompilesConcat(indexes, states + relations);
    CompilesConcat(fields, indexes + (states + relations));
    CompilesConcat(HeadConstants(e, helper), fields + (indexes + (states + relations)));
  }

  /** Distinct fields collide through equal identifiers or the constant of a type, relations through their kinds. */
  lemma NamesCanCollide(helper: string)
    ensures !Compiles(Constants(Entity("Order", [], [("a_b", "string"), ("aB", "string")], [], [], []), helper))
    ensures !Compiles(Constants(Entity("Order", [], [("A", "string"), ("ATypeName", "string")], [], [], []), helper))
    ensures var (a, b) := (Relation("A", "Order", "link", Some("owner"), None),
                           Relation("ARelation", "Order", "link", None, None));
      !Compiles(Constants(Entity("Order", [], [], [], [], [a, b]), helper))
  {
    var e := Entity("Order", [], [("a_b", "string"), ("aB", "string")], [], [], []);
    var f := Entity("Order", [], [("A", "string"), ("ATypeName", "string")], [], [], []);
    var a := Relation("A", "Order", "link", Some("owner"), None);
    var b := Relation("ARelation", "Order", "link", None, None);
    var g := Entity("Order", [], [], [], [], [a, b]);
    CompilesIff(e, helper);
    CompilesIff(f, helper);
    CompilesIff(g, helper);
    SeparatorIsDropped();
    SuffixesOfA();
    hide Compiles, Constants, Pascal;
    assert e.fields[0].0 == "a_b" && e.fields[1].0 == "aB";
    assert f.fields[0].0 == "A" && f.fields[1].0 == "ATypeName";
    assert g.relations[0].name == "A" && g.relations[1].name == "ARelation";
  }

  lemma {:induction false} LettersStay(value: string)
    requires forall c :: c in value ==> IsAlnum(c)
    ensures PascalRuns(value, false) == value
  {
    if value != "" { LettersStay(value[1..]); }
  }

  lemma SeparatorIsDropped()
    ensures Pascal("a_b", SHAPE) == Pascal("aB", SHAPE)
  {
    assert "a_b"[1..] == "_b" && "_b"[1..] == "b" && "b"[1..] == "" && "aB"[1..] == "B";
    LettersStay("");
    LettersStay("B");
    assert PascalRuns("b", true) == "B" && PascalRuns("_b", false) == "B";
    assert PascalRuns("a_b", true) == "AB" == PascalRuns("aB", true);
  }

  lemma SuffixesOfA()
    ensures Pascal("ATypeName", SHAPE) == Pascal("A", SHAPE) + TYPE_NAME
    ensures Pascal("ARelation", SHAPE) == Pascal("A", SHAPE) + "Relation"
  {
    LetterFront("");
    LetterFront("TypeName");
    LetterFront("Relation");
    assert "A" + "TypeName" == "ATypeName" && "A" + "Relation" == "ARelation" && "A" + "" == "A";
    hide PascalRuns;
  }

  lemma LetterFront(rest: string)
    requires forall c :: c in rest ==> IsAlnum(c)
    ensures Pascal("A" + rest, SHAPE) == "A" + rest
  {
    LettersStay(rest);
    assert ("A" + rest)[1..] == rest;
  }
}
