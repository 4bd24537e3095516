/** Response and request codecs, cut into one file for each owning entity and each unowned shape. */
module CodecSlices {
  import opened Options
  import opened Sequences
  import opened ApiDomains

  datatype Side = Request | Response

  datatype Codec = Codec(api: string, side: Side, shape: string)

  function SideCodec(api: string, side: Side, shape: Option<string>, shapes: seq<string>): seq<Codec> {
    if shape.Some? && shape.value in shapes then [Codec(api, side, shape.value)] else []
  }

  function OneCodecs(api: Api, shapes: seq<string>): seq<Codec> {
    SideCodec(api.name, Request, api.input, shapes) + SideCodec(api.name, Response, api.output, shapes)
  }

  /** The codecs emitted for a list of APIs: those of the declared shapes. */
  function CodecsOf(apis: seq<Api>, shapes: seq<string>): seq<Codec> {
    if apis == [] then [] else OneCodecs(apis[0], shapes) + CodecsOf(apis[1..], shapes)
  }

  /** The APIs that have the codec: of its name, with its shape on its side. */
  function ApisOfCodec(codec: Codec): Api -> bool {
    (api: Api) =>
      api.name == codec.api && (if codec.side.Request? then api.input else api.output) == Some(codec.shape)
  }

  /** A codec of a declared shape is emitted once for each API that has it, one of another shape never. */
  lemma {:induction false} CodecsAre(apis: seq<Api>, shapes: seq<string>, codec: Codec)
    ensures multiset(CodecsOf(apis, shapes))[codec]
      == if codec.shape in shapes then |Filter(ApisOfCodec(codec), apis)| else 0
  {
    if apis != [] {
      CodecsAre(apis[1..], shapes, codec);
      OneCodecsAre(apis[0], shapes, codec);
    }
  }

  lemma OneCodecsAre(api: Api, shapes: seq<string>, codec: Codec)
    ensures multiset(OneCodecs(api, shapes))[codec]
      == if codec.shape in shapes && ApisOfCodec(codec)(api) then 1 else 0
  {
  }

  // ------------------------------------------------------------------------------------ owners

  predicate Uses(api: Api, shape: string) { api.input == Some(shape) || api.output == Some(shape) }

  /** The entity of the first CRUD API that uses the shape. */
  function Owner(apis: seq<Api>, shape: string): (r: Option<string>)
    ensures r.Some? ==> exists api :: api in apis && IsCrudOf(api, r.value) && Uses(api, shape)
    ensures r.None? ==> forall api :: api in apis && Uses(api, shape) ==> !IsCrud(api)
  {
    if apis == [] then None
    else if IsCrud(apis[0]) && Uses(apis[0], shape) then apis[0].entity
    else Owner(apis[1..], shape)
  }

  predicate IsUsed(apis: seq<Api>, shape: string) { exists api :: api in apis && Uses(api, shape) }

  function OwnedBy(apis: seq<Api>, entity: string): string -> bool { shape => Owner(apis, shape) == Some(entity) }

  function OwnedShapes(apis: seq<Api>, shapes: seq<string>, entity: string): seq<string> {
    Filter(OwnedBy(apis, entity), shapes)
  }

  /** A shape's owner is the entity of the first API with an operation on an entity and the shape on a side. */
  lemma {:induction false} OwnerIsFirst(apis: seq<Api>, shape: string)
    ensures Owner(apis, shape).None? <==>
      forall i :: 0 <= i < |apis| && Some(shape) in {apis[i].input, apis[i].output} ==>
        apis[i].entity.None? || apis[i].operation.None?
    ensures forall i :: IsFirstUse(apis, shape, i) ==> Owner(apis, shape) == apis[i].entity
  {
    if apis != [] {
      OwnerIsFirst(apis[1..], shape);
      assert forall i :: 0 < i < |apis| ==> apis[i] == apis[1..][i - 1];
      forall i | IsFirstUse(apis, shape, i) && i > 0 ensures IsFirstUse(apis[1..], shape, i - 1) {
        assert forall k :: 0 <= k < i - 1 ==> apis[1..][k] == apis[k + 1];
      }
    }
  }

  ghost predicate IsFirstUse(apis: seq<Api>, shape: string, i: int) {
    && 0 <= i < |apis|
    && apis[i].entity.Some? && apis[i].operation.Some? && Some(shape) in {apis[i].input, apis[i].output}
    && forall k :: 0 <= k < i && Some(shape) in {apis[k].input, apis[k].output} ==>
         apis[k].entity.None? || apis[k].operation.None?
  }

  method EntityApiShapeOwner(apis: seq<Api>, shape: string) returns (owner: Option<string>)
    ensures owner == Owner(apis, shape)
  {
    for i := 0 to |apis|
      invariant Owner(apis, shape) == Owner(apis[i..], shape)
    {
      assert apis[i..][1..] == apis[i + 1..];
      var api := apis[i];
      if api.entity.Some? && api.operation.Some? {
        if api.input == Some(shape) || api.output == Some(shape) { return Some(api.entity.value); }
      }
    }
    return None;
  }

  method EntityApiShapes(apis: seq<Api>, shapes: seq<string>, entity: string) returns (owned: seq<string>)
    ensures owned == OwnedShapes(apis, shapes, entity)
  {
    hide Owner, OwnedShapes;
    owned := [];
    NoneOwned(apis, shapes, entity);
    for i := 0 to |shapes|
      invariant owned == OwnedShapes(apis, shapes[..i], entity)
    {
      OwnedSnoc(apis, shapes, entity, i);
      var owner := EntityApiShapeOwner(apis, shapes[i]);
      if owner == Some(entity) { owned := owned + [shapes[i]]; }
    }
    assert shapes[..|shapes|] == shapes;
  }

  lemma NoneOwned(apis: seq<Api>, shapes: seq<string>, entity: string)
    ensures OwnedShapes(apis, shapes[..0], entity) == []
  {
  }

  lemma OwnedSnoc(apis: seq<Api>, shapes: seq<string>, entity: string, i: nat)
    requires i < |shapes|
    ensures OwnedShapes(apis, shapes[..i + 1], entity) ==
      if Owner(apis, shapes[i]) == Some(entity) then OwnedShapes(apis, shapes[..i], entity) + [shapes[i]]
      else OwnedShapes(apis, shapes[..i], entity)
  {
    hide Owner, Filter;
    FilterTake(OwnedBy(apis, entity), shapes, i);
  }

  // ------------------------------------------------------------------------------------ slices

  /** An option kept only if its shape is wanted. */
  function Scoped(shape: Option<string>, wanted: set<string>): Option<string> {
    if shape.Some? && shape.value in wanted then shape else None
  }

  function ScopedApi(api: Api, wanted: set<string>): Api {
    api.(input := Scoped(api.input, wanted), output := Scoped(api.output, wanted))
  }

  /** The APIs cut down to the wanted shapes; an API left with neither side is dropped. */
  function WithShapes(apis: seq<Api>, wanted: set<string>): seq<Api> {
    if apis == [] then []
    else
      var api := ScopedApi(apis[0], wanted);
      (if api.input.Some? || api.output.Some? then [api] else []) + WithShapes(apis[1..], wanted)
  }

  lemma WithShapesFront(apis: seq<Api>, k: nat, wanted: set<string>)
    requires k <= |apis|
    ensures apis[0..] == apis && WithShapes([], wanted) == []
    ensures k == |apis| ==> WithShapes(apis[k..], wanted) == []
    ensures k == |apis| || WithShapes(apis[k..], wanted) ==
      (var api := ScopedApi(apis[k], wanted);
        (if api.input.Some? || api.output.Some? then [api] else []) + WithShapes(apis[k + 1..], wanted))
  {
    if k < |apis| { assert apis[k..][1..] == apis[k + 1..]; }
  }

  method WithCodecShapesApis(apis: seq<Api>, shapes: seq<string>) returns (kept: seq<Api>)
    ensures kept == WithShapes(apis, set shape | shape in shapes)
  {
    hide WithShapes;
    var names := NameSet(shapes);
    kept := [];
    WithShapesFront(apis, 0, names);
    for k := 0 to |apis|
      invariant kept + WithShapes(apis[k..], names) == WithShapes(apis, names)
    {
      WithShapesFront(apis, k, names);
      var api := apis[k];
      if api.input.None? || api.input.value !in names { api := api.(input := None); }
      if api.output.None? || api.output.value !in names { api := api.(output := None); }
      if api.input.Some? || api.output.Some? { kept := kept + [api]; }
    }
    WithShapesFront(apis, |apis|, names);
  }

  method NameSet(shapes: seq<string>) returns (names: set<string>)
    ensures names == set shape | shape in shapes
  {
    names := {};
    for i := 0 to |shapes|
      invariant names == set shape | shape in shapes[..i]
    {
      names := names + {shapes[i]};
    }
    assert shapes[..|shapes|] == shapes;
  }

  method WithCodecShapeApis(apis: seq<Api>, shape: string) returns (kept: seq<Api>)
    ensures kept == WithShapes(apis, {shape})
  {
    hide WithShapes;
    kept := [];
    WithShapesFront(apis, 0, {shape});
    for k := 0 to |apis|
      invariant kept + WithShapes(apis[k..], {shape}) == WithShapes(apis, {shape})
    {
      WithShapesFront(apis, k, {shape});
      var api := apis[k];
      if api.input.None? || api.input.value != shape { api := api.(input := None); }
      if api.output.None? || api.output.value != shape { api := api.(output := None); }
      if api.input.Some? || api.output.Some? { kept := kept + [api]; }
    }
    WithShapesFront(apis, |apis|, {shape});
  }

  lemma SideSlice(api: string, side: Side, shape: Option<string>, shapes: seq<string>, wanted: set<string>)
    ensures SideCodec(api, side, Scoped(shape, wanted), shapes) ==
      Filter((c: Codec) => c.shape in wanted, SideCodec(api, side, shape, shapes))
  {
  }

  lemma OneSlice(api: Api, shapes: seq<string>, wanted: set<string>)
    ensures OneCodecs(ScopedApi(api, wanted), shapes) == Filter((c: Codec) => c.shape in wanted, OneCodecs(api, shapes))
  {
    hide Filter, SideCodec, Scoped;
    SideSlice(api.name, Request, api.input, shapes, wanted);
    SideSlice(api.name, Response, api.output, shapes, wanted);
    FilterConcat((c: Codec) => c.shape in wanted,
      SideCodec(api.name, Request, api.input, shapes), SideCodec(api.name, Response, api.output, shapes));
  }

  /** A slice emits exactly the codecs of its shapes, in order. */
  lemma {:induction false} SliceIsFilter(apis: seq<Api>, shapes: seq<string>, wanted: set<string>)
    ensures CodecsOf(WithShapes(apis, wanted), shapes)
      == Filter((c: Codec) => c.shape in wanted, CodecsOf(apis, shapes))
  {
    if apis != [] {
      hide CodecsOf, OneCodecs, ScopedApi, Filter;
      var first, rest := ScopedApi(apis[0], wanted), WithShapes(apis[1..], wanted);
      SliceIsFilter(apis[1..], shapes, wanted);
      OneSlice(apis[0], shapes, wanted);
      assert [apis[0]] + apis[1..] == apis;
      FilterConcat((c: Codec) => c.shape in wanted, OneCodecs(apis[0], shapes), CodecsOf(apis[1..], shapes));
      assert WithShapes(apis, wanted) == if first.input.Some? || first.output.Some? then [first] + rest else rest;
    }
  }

  // ------------------------------------------------------------------------------------- files

  /** The unowned shapes that some API uses. */
  predicate IsLoose(apis: seq<Api>, shape: string) { IsUsed(apis, shape) && Owner(apis, shape).None? }

  function OwnedSet(apis: seq<Api>, shapes: seq<string>, entity: string): set<string> {
    set shape | shape in OwnedShapes(apis, shapes, entity)
  }

  /** The shapes of each codec file: one for each loose shape. */
  function LooseFiles(apis: seq<Api>, shapes: seq<string>): seq<set<string>> {
    if shapes == [] then []
    else (if IsLoose(apis, shapes[0]) then [{shapes[0]}] else []) + LooseFiles(apis, shapes[1..])
  }

  /** And one for each entity that owns any. */
  function EntityFiles(apis: seq<Api>, shapes: seq<string>, entities: seq<string>): seq<set<string>> {
    if entities == [] then []
    else
      var owned := OwnedSet(apis, shapes, entities[0]);
      (if owned != {} then [owned] else []) + EntityFiles(apis, shapes, entities[1..])
  }

  function AllFiles(apis: seq<Api>, shapes: seq<string>, entities: seq<string>): seq<set<string>> {
    LooseFiles(apis, shapes) + EntityFiles(apis, shapes, entities)
  }

  function CodecsIn(apis: seq<Api>, shapes: seq<string>, files: seq<set<string>>): seq<seq<Codec>> {
    seq(|files|, i requires 0 <= i < |files| => CodecsOf(WithShapes(apis, files[i]), shapes))
  }

  method IsCodecShape(apis: seq<Api>, shape: string) returns (used: bool)
    ensures used == IsUsed(apis, shape)
  {
    for i := 0 to |apis|
      invariant forall k :: 0 <= k < i ==> !Uses(apis[k], shape)
    {
      if apis[i].input == Some(shape) || apis[i].output == Some(shape) {
        assert Uses(apis[i], shape);
        return true;
      }
    }
    return false;
  }

  method ApiCodecFiles(apis: seq<Api>, shapes: seq<string>, entities: seq<string>) returns (files: seq<seq<Codec>>)
    ensures files == CodecsIn(apis, shapes, AllFiles(apis, shapes, entities))
  {
    hide *;
    files := ShapeCodecFiles(apis, shapes);
    var owned := EntityCodecFiles(apis, shapes, entities);
    files := files + owned;
    CodecsInAll(apis, shapes, entities);
  }

  lemma CodecsInAll(apis: seq<Api>, shapes: seq<string>, entities: seq<string>)
    ensures CodecsIn(apis, shapes, AllFiles(apis, shapes, entities)) ==
      CodecsIn(apis, shapes, LooseFiles(apis, shapes)) + CodecsIn(apis, shapes, EntityFiles(apis, shapes, entities))
  {
    hide CodecsOf, WithShapes, LooseFiles, EntityFiles;
  }

  lemma LooseFront(apis: seq<Api>, shapes: seq<string>, i: nat)
    requires i <= |shapes|
    ensures i == |shapes| ==> LooseFiles(apis, shapes[i..]) == []
    ensures i < |shapes| ==>
      LooseFiles(apis, shapes[i..])
        == (if IsLoose(apis, shapes[i]) then [{shapes[i]}] else []) + LooseFiles(apis, shapes[i + 1..])
  {
    hide IsLoose;
    assert i < |shapes| ==> shapes[i..][1..] == shapes[i + 1..];
  }

  method ShapeCodecFiles(apis: seq<Api>, shapes: seq<string>) returns (files: seq<seq<Codec>>)
    ensures files == CodecsIn(apis, shapes, LooseFiles(apis, shapes))
  {
    hide IsUsed, Owner, CodecsOf, WithShapes, CodecsIn, LooseFiles;
    files := [];
    NoFiles(apis, shapes);
    ghost var cut: seq<set<string>> := [];
    assert shapes[0..] == shapes;
    for i := 0 to |shapes|
      invariant cut + LooseFiles(apis, shapes[i..]) == LooseFiles(apis, shapes)
      invariant files == CodecsIn(apis, shapes, cut)
    {
      LooseFront(apis, shapes, i);
      var used := IsCodecShape(apis, shapes[i]);
      var owner := EntityApiShapeOwner(apis, shapes[i]);
      if used && owner.None? {
        var kept := WithCodecShapeApis(apis, shapes[i]);
        CodecsInSnoc(apis, shapes, cut, {shapes[i]});
        files := files + [CodecsOf(kept, shapes)];
        cut := cut + [{shapes[i]}];
      }
    }
    LooseFront(apis, shapes, |shapes|);
    assert cut + [] == cut;
  }

  method EntityCodecFiles(apis: seq<Api>, shapes: seq<string>, entities: seq<string>) returns (files: seq<seq<Codec>>)
    ensures files == CodecsIn(apis, shapes, EntityFiles(apis, shapes, entities))
  {
    hide *;
    files := [];
    ghost var cut: seq<set<string>> := [];
    NoFiles(apis, shapes);
    for i := 0 to |entities|
      invariant cut + EntityFiles(apis, shapes, entities[i..]) == EntityFiles(apis, shapes, entities)
      invariant files == CodecsIn(apis, shapes, cut)
    {
      EntityFilesFront(apis, shapes, entities, i);
      var owned := EntityApiShapes(apis, shapes, entities[i]);
      if owned != [] {
        CodecsInSnoc(apis, shapes, cut, OwnedSet(apis, shapes, entities[i]));
        var kept := WithCodecShapesApis(apis, owned);
        files := files + [CodecsOf(kept, shapes)];
        cut := cut + [OwnedSet(apis, shapes, entities[i])];
      }
    }
    EntityFilesFront(apis, shapes, entities, |entities|);
    assert cut == EntityFiles(apis, shapes, entities);
  }

  lemma NoFiles(apis: seq<Api>, shapes: seq<string>)
    ensures CodecsIn(apis, shapes, []) == []
  {
  }

  lemma CodecsInSnoc(apis: seq<Api>, shapes: seq<string>, files: seq<set<string>>, file: set<string>)
    ensures CodecsIn(apis, shapes, files + [file]) ==
      CodecsIn(apis, shapes, files) + [CodecsOf(WithShapes(apis, file), shapes)]
  {
    hide CodecsOf, WithShapes;
    var all := files + [file];
    assert forall i :: 0 <= i < |files| ==> all[i] == files[i];
    assert forall i :: 0 <= i < |files| ==> CodecsIn(apis, shapes, all)[i] == CodecsIn(apis, shapes, files)[i];
  }

  lemma EntityFilesFront(apis: seq<Api>, shapes: seq<string>, entities: seq<string>, i: nat)
    requires i <= |entities|
    ensures entities[0..] == entities
    ensures EntityFiles(apis, shapes, entities[i..]) ==
      if i == |entities| then []
      else if OwnedShapes(apis, shapes, entities[i]) == [] then EntityFiles(apis, shapes, entities[i + 1..])
      else [OwnedSet(apis, shapes, entities[i])] + EntityFiles(apis, shapes, entities[i + 1..])
    ensures i < |entities| ==>
      OwnedSet(apis, shapes, entities[i]) == set s | s in OwnedShapes(apis, shapes, entities[i])
  {
    hide OwnedShapes;
    if i < |entities| {
      assert entities[i..][1..] == entities[i + 1..];
      var owned := OwnedShapes(apis, shapes, entities[i]);
      if owned != [] { assert owned[0] in OwnedSet(apis, shapes, entities[i]); }
    }
  }

  // ------------------------------------------------------------------------------ conservation

  predicate Distinct(names: seq<string>) { forall i, j :: 0 <= i < j < |names| ==> names[i] != names[j] }

  /** How many files hold a shape. */
  function Holding(files: seq<set<string>>, shape: string): nat {
    if files == [] then 0 else (if shape in files[0] then 1 else 0) + Holding(files[1..], shape)
  }

  lemma {:induction false} HoldingConcat(a: seq<set<string>>, b: seq<set<string>>, shape: string)
    ensures Holding(a + b, shape) == Holding(a, shape) + Holding(b, shape)
  {
    if a == [] {
      assert a + b == b;
    } else {
      assert (a + b)[1..] == a[1..] + b;
      HoldingConcat(a[1..], b, shape);
    }
  }

  lemma {:induction false} HoldingLoose(apis: seq<Api>, shapes: seq<string>, shape: string)
    requires Distinct(shapes)
    ensures Holding(LooseFiles(apis, shapes), shape) == if shape in shapes && IsLoose(apis, shape) then 1 else 0
  {
    hide IsLoose;
    if shapes != [] {
      var rest := LooseFiles(apis, shapes[1..]);
      HoldingLoose(apis, shapes[1..], shape);
      HoldingConcat(if IsLoose(apis, shapes[0]) then [{shapes[0]}] else [], rest, shape);
      assert shape in shapes <==> shape == shapes[0] || shape in shapes[1..];
      assert shapes[0] !in shapes[1..];
    }
  }

  lemma {:induction false} HoldingOwned(apis: seq<Api>, shapes: seq<string>, entities: seq<string>, shape: string)
    requires Distinct(entities)
    ensures var owner := Owner(apis, shape);
      Holding(EntityFiles(apis, shapes, entities), shape) ==
        if shape in shapes && owner.Some? && owner.value in entities then 1 else 0
  {
    hide Owner, OwnedSet;
    if entities != [] {
      var owned := OwnedSet(apis, shapes, entities[0]);
      HoldingOwned(apis, shapes, entities[1..], shape);
      HoldingConcat(if owned != {} then [owned] else [], EntityFiles(apis, shapes, entities[1..]), shape);
      InOwnedSet(apis, shapes, entities[0], shape);
      assert entities[0] !in entities[1..];
    }
  }

  lemma InOwnedSet(apis: seq<Api>, shapes: seq<string>, entity: string, shape: string)
    ensures shape in OwnedSet(apis, shapes, entity) <==> shape in shapes && Owner(apis, shape) == Some(entity)
  {
    hide Owner;
    FilterCount(OwnedBy(apis, entity), shapes, shape);
    var owned := OwnedShapes(apis, shapes, entity);
    assert shape in owned <==> shape in multiset(owned);
    assert shape in shapes <==> shape in multiset(shapes);
  }

  lemma {:induction false} FilesHoldCodec(apis: seq<Api>, shapes: seq<string>, files: seq<set<string>>, codec: Codec)
    requires Holding(files, codec.shape) <= 1
    ensures multiset(Flat(CodecsIn(apis, shapes, files)))[codec] ==
      if Holding(files, codec.shape) == 1 then multiset(CodecsOf(apis, shapes))[codec] else 0
  {
    hide CodecsOf, WithShapes;
    if files != [] {
      FilesHoldCodec(apis, shapes, files[1..], codec);
      SliceIsFilter(apis, shapes, files[0]);
      FilterCount((c: Codec) => c.shape in files[0], CodecsOf(apis, shapes), codec);
      assert CodecsIn(apis, shapes, files)[1..] == CodecsIn(apis, shapes, files[1..]);
    }
  }

  lemma {:induction false} CodecShapes(apis: seq<Api>, shapes: seq<string>, codec: Codec)
    requires codec in CodecsOf(apis, shapes)
    ensures codec.shape in shapes && IsUsed(apis, codec.shape)
  {
    if codec in OneCodecs(apis[0], shapes) {
      assert Uses(apis[0], codec.shape);
    } else {
      assert apis == [apis[0]] + apis[1..];
      CodecShapes(apis[1..], shapes, codec);
      assert forall api :: api in apis[1..] ==> api in apis;
    }
  }

  predicate OwnerDeclared(apis: seq<Api>, entities: seq<string>, shape: string) {
    Owner(apis, shape).Some? ==> Owner(apis, shape).value in entities
  }

  /**
   The codec files hold, once each, exactly the codecs whose shape has no owner or a declared one;
   so nothing is lost or duplicated if every owner is declared, as validation demands.
   */
  lemma FilesHoldEachCodecOnce(apis: seq<Api>, shapes: seq<string>, entities: seq<string>, codec: Codec)
    requires Distinct(shapes) && Distinct(entities)
    ensures multiset(Flat(CodecsIn(apis, shapes, AllFiles(apis, shapes, entities))))[codec] ==
      if OwnerDeclared(apis, entities, codec.shape) then multiset(CodecsOf(apis, shapes))[codec] else 0
    ensures codec in CodecsOf(apis, shapes) ==>
      Holding(AllFiles(apis, shapes, entities), codec.shape) ==
        if OwnerDeclared(apis, entities, codec.shape) then 1 else 0
  {
    hide CodecsOf, Owner, CodecsIn, LooseFiles, EntityFiles, IsUsed;
    HoldingConcat(LooseFiles(apis, shapes), EntityFiles(apis, shapes, entities), codec.shape);
    HoldingLoose(apis, shapes, codec.shape);
    HoldingOwned(apis, shapes, entities, codec.shape);
    FilesHoldCodec(apis, shapes, AllFiles(apis, shapes, entities), codec);
    if codec in CodecsOf(apis, shapes) { CodecShapes(apis, shapes, codec); }
    assert codec in CodecsOf(apis, shapes) <==> multiset(CodecsOf(apis, shapes))[codec] > 0;
  }

  /** No codec is lost or duplicated exactly if every codec's shape has no owner or a declared one. */
  lemma {:induction false} CodecsConservedIff(apis: seq<Api>, shapes: seq<string>, entities: seq<string>)
    requires Distinct(shapes) && Distinct(entities)
    ensures multiset(Flat(CodecsIn(apis, shapes, AllFiles(apis, shapes, entities)))) == multiset(CodecsOf(apis, shapes))
      <==> forall codec: Codec :: codec in CodecsOf(apis, shapes) ==> OwnerDeclared(apis, entities, codec.shape)
  {
    hide *;
    var files, all := Flat(CodecsIn(apis, shapes, AllFiles(apis, shapes, entities))), CodecsOf(apis, shapes);
    forall codec: Codec
      ensures multiset(files)[codec] == if OwnerDeclared(apis, entities, codec.shape) then multiset(all)[codec] else 0
    {
      FilesHoldEachCodecOnce(apis, shapes, entities, codec);
    }
    assert forall codec: Codec :: codec in all <==> multiset(all)[codec] > 0;
  }
}
