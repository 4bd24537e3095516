/** APIs grouped into handler domains, and listed in the descriptor catalog. */
module ApiDomains {
  import opened Options
  import opened Sequences

  datatype Api = Api(
    name: string,
    entity: Option<string>,
    operation: Option<string>,
    input: Option<string>,
    output: Option<string>)

  datatype Domain = Domain(name: string, apis: seq<Api>)

  // ------------------------------------------------------------------------ domains by mention

  predicate Contains(text: string, part: string) {
    exists i :: 0 <= i <= |text| && part <= text[i..]
  }

  predicate OptionContains(text: Option<string>, part: string) { text.Some? && Contains(text.value, part) }

  datatype Clue = Output | Input | Name

  predicate Mentions(api: Api, clue: Clue, entity: string) {
    match clue
    case Output => OptionContains(api.output, entity)
    case Input => OptionContains(api.input, entity)
    case Name => Contains(api.name, entity)
  }

  /** The first entity that a clue mentions. */
  function FirstMention(entities: seq<string>, api: Api, clue: Clue, i: nat): (r: Option<nat>)
    requires i <= |entities|
    ensures r.Some? ==> i <= r.value < |entities| && Mentions(api, clue, entities[r.value])
    decreases |entities| - i
  {
    if i == |entities| then None
    else if Mentions(api, clue, entities[i]) then Some(i)
    else FirstMention(entities, api, clue, i + 1)
  }

  /** The domain of an API: its entity by output, else by input, else by name, else the operations. */
  function Home(entities: seq<string>, api: Api): (r: nat)
    ensures r <= |entities|
  {
    match FirstMention(entities, api, Output, 0)
    case Some(i) => i
    case None =>
      match FirstMention(entities, api, Input, 0)
      case Some(i) => i
      case None =>
        match FirstMention(entities, api, Name, 0)
        case Some(i) => i
        case None => |entities|
  }

  lemma FirstMentionIsFirst(entities: seq<string>, api: Api, clue: Clue, i: nat)
    requires i <= |entities|
    ensures match FirstMention(entities, api, clue, i)
      case None => forall k :: i <= k < |entities| ==> !Mentions(api, clue, entities[k])
      case Some(first) => forall k :: i <= k < first ==> !Mentions(api, clue, entities[k])
    decreases |entities| - i
  {
    if i < |entities| { FirstMentionIsFirst(entities, api, clue, i + 1); }
  }

  /** The text has the name in it, with something or nothing before and after. */
  ghost predicate NamedIn(text: Option<string>, name: string) {
    text.Some? && exists before, after :: text.value == before + name + after
  }

  ghost predicate AnyNamed(entities: seq<string>, text: Option<string>) {
    exists k :: 0 <= k < |entities| && NamedIn(text, entities[k])
  }

  ghost predicate FirstNamed(entities: seq<string>, text: Option<string>, h: nat) {
    h < |entities| && NamedIn(text, entities[h]) && forall k :: 0 <= k < h ==> !NamedIn(text, entities[k])
  }

  lemma ContainsIff(text: string, part: string)
    ensures Contains(text, part) <==> NamedIn(Some(text), part)
  {
    if Contains(text, part) {
      var i :| 0 <= i <= |text| && part <= text[i..];
      assert text == text[..i] + part + text[i + |part|..];
    }
    if before, after :| text == before + part + after {
      assert text[|before|..] == part + after;
    }
  }

  lemma MentionsIff(api: Api, entity: string)
    ensures Mentions(api, Output, entity) <==> NamedIn(api.output, entity)
    ensures Mentions(api, Input, entity) <==> NamedIn(api.input, entity)
    ensures Mentions(api, Name, entity) <==> NamedIn(Some(api.name), entity)
  {
    ContainsIff(api.name, entity);
    if api.output.Some? { ContainsIff(api.output.value, entity); }
    if api.input.Some? { ContainsIff(api.input.value, entity); }
    hide Contains;
  }

  /**
   An API's home is the first entity named in its output shape, if any is; else in its input shape;
   else in its own name; else the operations.
   */
  lemma HomeHasStrongestClue(entities: seq<string>, api: Api)
    ensures var h := Home(entities, api);
      if AnyNamed(entities, api.output) then FirstNamed(entities, api.output, h)
      else if AnyNamed(entities, api.input) then FirstNamed(entities, api.input, h)
      else if AnyNamed(entities, Some(api.name)) then FirstNamed(entities, Some(api.name), h)
      else h == |entities|
  {
    forall k | 0 <= k < |entities|
      ensures Mentions(api, Output, entities[k]) <==> NamedIn(api.output, entities[k])
      ensures Mentions(api, Input, entities[k]) <==> NamedIn(api.input, entities[k])
      ensures Mentions(api, Name, entities[k]) <==> NamedIn(Some(api.name), entities[k])
    {
      MentionsIff(api, entities[k]);
    }
    hide Mentions, NamedIn;
    FirstMentionIsFirst(entities, api, Output, 0);
    FirstMentionIsFirst(entities, api, Input, 0);
    FirstMentionIsFirst(entities, api, Name, 0);
  }

  /** The APIs at home in each domain, in their own order. */
  function Groups(entities: seq<string>, apis: seq<Api>): (r: seq<seq<Api>>)
    ensures |r| == |entities| + 1
  {
    seq(|entities| + 1, d => Filter(api => Home(entities, api) == d, apis))
  }

  function DomainName(entities: seq<string>, d: nat): string {
    if d < |entities| then entities[d] else "Operations"
  }

  /** The domains from `d` on that hold any API. */
  function NonEmptyDomains(entities: seq<string>, groups: seq<seq<Api>>, d: nat): seq<Domain>
    requires d <= |groups|
    decreases |groups| - d
  {
    if d == |groups| then []
    else (if groups[d] == [] then [] else [Domain(DomainName(entities, d), groups[d])])
         + NonEmptyDomains(entities, groups, d + 1)
  }

  function HandlerDomains(entities: seq<string>, apis: seq<Api>): seq<Domain> {
    NonEmptyDomains(entities, Groups(entities, apis), 0)
  }

  method FindMention(entities: seq<string>, api: Api, clue: Clue) returns (r: Option<nat>)
    ensures r == FirstMention(entities, api, clue, 0)
  {
    for i := 0 to |entities|
      invariant FirstMention(entities, api, clue, 0) == FirstMention(entities, api, clue, i)
    {
      if Mentions(api, clue, entities[i]) { return Some(i); }
    }
    return None;
  }

  method ApiHandlerDomains(entities: seq<string>, apis: seq<Api>) returns (result: seq<Domain>)
    ensures result == HandlerDomains(entities, apis)
  {
    hide *;
    var domains: seq<seq<Api>> := seq(|entities|, i => []);
    var operations: seq<Api> := [];
    NoGroups(entities, domains, apis);
    for k := 0 to |apis|
      invariant |domains| == |entities|
      invariant domains + [operations] == Groups(entities, apis[..k])
    {
      var api := apis[k];
      HomeIs(entities, api);
      var target := FindMention(entities, api, Output);
      if target.None? { target := FindMention(entities, api, Input); }
      if target.None? { target := FindMention(entities, api, Name); }
      GroupsSnoc(entities, apis[..k], api);
      assert apis[..k] + [api] == apis[..k + 1];
      if target.Some? {
        domains := domains[target.value := domains[target.value] + [api]];
      } else {
        operations := operations + [api];
      }
    }
    assert apis[..|apis|] == apis;
    result := DropEmpty(entities, domains, operations);
    HandlerDomainsAre(entities, apis);
  }

  method DropEmpty(entities: seq<string>, domains: seq<seq<Api>>, operations: seq<Api>) returns (result: seq<Domain>)
    requires |domains| == |entities|
    ensures result == NonEmptyDomains(entities, domains + [operations], 0)
  {
    hide NonEmptyDomains;
    ghost var groups := domains + [operations];
    result := [];
    for i := 0 to |domains|
      invariant result + NonEmptyDomains(entities, groups, i) == NonEmptyDomains(entities, groups, 0)
    {
      NonEmptyFront(entities, groups, i);
      if domains[i] != [] { result := result + [Domain(entities[i], domains[i])]; }
    }
    NonEmptyFront(entities, groups, |domains|);
    if operations != [] { result := result + [Domain("Operations", operations)]; }
  }

  lemma NonEmptyFront(entities: seq<string>, groups: seq<seq<Api>>, d: nat)
    requires d < |groups|
    ensures NonEmptyDomains(entities, groups, d) ==
      if groups[d] == [] then NonEmptyDomains(entities, groups, d + 1)
      else
        [Domain(if d < |entities| then entities[d] else "Operations", groups[d])]
          + NonEmptyDomains(entities, groups, d + 1)
    ensures NonEmptyDomains(entities, groups, |groups|) == []
  {
  }

  lemma HandlerDomainsAre(entities: seq<string>, apis: seq<Api>)
    ensures HandlerDomains(entities, apis) == NonEmptyDomains(entities, Groups(entities, apis), 0)
  {
  }

  lemma NoGroups(entities: seq<string>, domains: seq<seq<Api>>, apis: seq<Api>)
    requires |domains| == |entities| && forall i :: 0 <= i < |domains| ==> domains[i] == []
    ensures domains + [[]] == Groups(entities, apis[..0])
  {
  }

  lemma HomeIs(entities: seq<string>, api: Api)
    ensures Home(entities, api) ==
      var byOutput, byInput, byName := FirstMention(entities, api, Output, 0),
        FirstMention(entities, api, Input, 0), FirstMention(entities, api, Name, 0);
      if byOutput.Some? then byOutput.value
      else if byInput.Some? then byInput.value
      else if byName.Some? then byName.value
      else |entities|
  {
  }

  lemma GroupsSnoc(entities: seq<string>, apis: seq<Api>, api: Api)
    ensures var groups, d := Groups(entities, apis), Home(entities, api);
      Groups(entities, apis + [api]) == groups[d := groups[d] + [api]]
  {
    hide Home;
    var groups, next := Groups(entities, apis), Groups(entities, apis + [api]);
    forall d | 0 <= d <= |entities|
      ensures next[d] == if d == Home(entities, api) then groups[d] + [api] else groups[d]
    {
      FilterSnoc(a => Home(entities, a) == d, apis, api);
    }
  }

  // --------------------------------------------------------------------- domains by entity

  predicate IsCrud(api: Api) { api.entity.Some? && api.operation.Some? }

  predicate IsCrudOf(api: Api, entity: string) { IsCrud(api) && api.entity.value == entity }

  function IndexOfName(domains: seq<Domain>, name: string, i: nat): (r: Option<nat>)
    requires i <= |domains|
    ensures r.Some? ==> i <= r.value < |domains| && domains[r.value].name == name
    ensures r.None? ==> forall k :: i <= k < |domains| ==> domains[k].name != name
    decreases |domains| - i
  {
    if i == |domains| then None
    else if domains[i].name == name then Some(i)
    else IndexOfName(domains, name, i + 1)
  }

  function Add(domains: seq<Domain>, name: string, api: Api): seq<Domain> {
    match IndexOfName(domains, name, 0)
    case None => domains + [Domain(name, [api])]
    case Some(i) => domains[i := domains[i].(apis := domains[i].apis + [api])]
  }

  /** The CRUD APIs, grouped by entity in the order in which the entities first appear. */
  function Grouped(apis: seq<Api>): seq<Domain> {
    if apis == [] then []
    else
      var before, api := Grouped(apis[..|apis| - 1]), apis[|apis| - 1];
      if IsCrud(api) then Add(before, api.entity.value, api) else before
  }

  function ApisOf(domains: seq<Domain>): seq<Api> {
    if domains == [] then [] else domains[0].apis + ApisOf(domains[1..])
  }

  method CrudApiHandlerDomains(domains: seq<Domain>) returns (result: seq<Domain>)
    ensures result == Grouped(ApisOf(domains))
  {
    hide Grouped;
    result := [];
    ghost var seen: seq<Api> := [];
    assert Grouped([]) == [] by { NothingGrouped(); }
    for d := 0 to |domains|
      invariant seen + ApisOf(domains[d..]) == ApisOf(domains)
      invariant result == Grouped(seen)
    {
      result := AddAll(result, domains[d].apis, seen);
      assert domains[d..][1..] == domains[d + 1..];
      seen := seen + domains[d].apis;
    }
    assert seen == ApisOf(domains);
  }

  method AddAll(domains: seq<Domain>, apis: seq<Api>, ghost seen: seq<Api>) returns (result: seq<Domain>)
    requires domains == Grouped(seen)
    ensures result == Grouped(seen + apis)
  {
    hide Grouped, Add;
    result := domains;
    assert seen + apis[..0] == seen;
    for k := 0 to |apis|
      invariant result == Grouped(seen + apis[..k])
    {
      var api := apis[k];
      GroupedSnoc(seen + apis[..k], api);
      assert seen + apis[..k] + [api] == seen + apis[..k + 1];
      if api.entity.Some? && api.operation.Some? {
        result := AddTo(result, api.entity.value, api);
      }
    }
    assert apis[..|apis|] == apis;
  }

  lemma NothingGrouped()
    ensures Grouped([]) == []
  {
  }

  method AddTo(domains: seq<Domain>, name: string, api: Api) returns (result: seq<Domain>)
    ensures result == Add(domains, name, api)
  {
    for i := 0 to |domains|
      invariant IndexOfName(domains, name, 0) == IndexOfName(domains, name, i)
    {
      if domains[i].name == name {
        return domains[i := Domain(name, domains[i].apis + [api])];
      }
    }
    return domains + [Domain(name, [api])];
  }

  lemma GroupedSnoc(apis: seq<Api>, api: Api)
    ensures Grouped(apis + [api]) == if IsCrud(api) then Add(Grouped(apis), api.entity.value, api) else Grouped(apis)
  {
    assert (apis + [api])[..|apis|] == apis;
  }

  // -------------------------------------------------------------------------------- partitions

  lemma {:induction false} GroupsPartition(entities: seq<string>, apis: seq<Api>)
    ensures multiset(Flat(Groups(entities, apis))) == multiset(apis)
  {
    hide Home;
    if apis == [] {
      FlatOfEmpty(Groups(entities, []));
    } else {
      var before, api := apis[..|apis| - 1], apis[|apis| - 1];
      assert apis == before + [api];
      GroupsPartition(entities, before);
      GroupsSnoc(entities, before, api);
      FlatUpdate(Groups(entities, before), Home(entities, api), api);
    }
  }

  lemma {:induction false} FlatOfEmpty(groups: seq<seq<Api>>)
    requires forall i :: 0 <= i < |groups| ==> groups[i] == []
    ensures Flat(groups) == []
  {
    if groups != [] { FlatOfEmpty(groups[1..]); }
  }

  lemma {:induction false} NonEmptyApis(entities: seq<string>, groups: seq<seq<Api>>, d: nat)
    requires d <= |groups|
    ensures ApisOf(NonEmptyDomains(entities, groups, d)) == Flat(groups[d..])
    decreases |groups| - d
  {
    hide NonEmptyDomains;
    if d == |groups| {
      if groups != [] { NonEmptyFront(entities, groups, 0); } else { NonEmptyNone(entities); }
    } else {
      NonEmptyApis(entities, groups, d + 1);
      NonEmptyFront(entities, groups, d);
      assert groups[d..][1..] == groups[d + 1..];
    }
  }

  lemma NonEmptyNone(entities: seq<string>)
    ensures NonEmptyDomains(entities, [], 0) == []
  {
  }

  lemma {:induction false} NonEmptyDomainIs(entities: seq<string>, groups: seq<seq<Api>>, d: nat, domain: Domain)
    returns (k: nat)
    requires d <= |groups| && domain in NonEmptyDomains(entities, groups, d)
    ensures d <= k < |groups| && groups[k] != [] && domain == Domain(DomainName(entities, k), groups[k])
    decreases |groups| - d
  {
    hide DomainName;
    if groups[d] != [] && domain == Domain(DomainName(entities, d), groups[d]) {
      k := d;
    } else {
      k := NonEmptyDomainIs(entities, groups, d + 1, domain);
    }
  }

  /** A domain holds, in order, exactly the APIs whose home it is. */
  predicate IsHome(domain: Domain, entities: seq<string>, apis: seq<Api>, d: nat) {
    && domain.name == (if d < |entities| then entities[d] else "Operations")
    && domain.apis == Filter(api => Home(entities, api) == d, apis)
  }

  /** The handler domains are a partition of the APIs with no empty part, each API in its home. */
  lemma HandlerDomainsPartition(entities: seq<string>, apis: seq<Api>)
    ensures multiset(ApisOf(HandlerDomains(entities, apis))) == multiset(apis)
    ensures forall domain :: domain in HandlerDomains(entities, apis) ==>
      domain.apis != [] && exists d :: 0 <= d <= |entities| && IsHome(domain, entities, apis, d)
  {
    hide Home, NonEmptyDomains;
    var groups := Groups(entities, apis);
    NonEmptyApis(entities, groups, 0);
    assert groups[0..] == groups;
    GroupsPartition(entities, apis);
    forall domain | domain in HandlerDomains(entities, apis)
      ensures domain.apis != [] && exists d :: 0 <= d <= |entities| && IsHome(domain, entities, apis, d)
    {
      var d := NonEmptyDomainIs(entities, groups, 0, domain);
      assert IsHome(domain, entities, apis, d);
    }
  }

  /** Distinct names, and under each exactly the CRUD APIs of that entity, in order. */
  predicate GroupsByEntity(domains: seq<Domain>, apis: seq<Api>) {
    && (forall i, j :: 0 <= i < j < |domains| ==> domains[i].name != domains[j].name)
    && (forall i :: 0 <= i < |domains| ==> domains[i].apis != [])
    && (forall i :: 0 <= i < |domains| ==> domains[i].apis == CrudOf(domains[i].name, apis))
    && (forall api :: api in apis && IsCrud(api) ==> IndexOfName(domains, api.entity.value, 0).Some?)
  }

  function CrudOf(entity: string, apis: seq<Api>): seq<Api> {
    Filter((api: Api) => api.entity == Some(entity) && api.operation.Some?, apis)
  }

  lemma {:induction false} GroupedByEntity(apis: seq<Api>)
    ensures GroupsByEntity(Grouped(apis), apis)
  {
    hide GroupsByEntity, Add;
    if apis == [] {
      assert GroupsByEntity([], []) by { NoGroupsByEntity(); }
    } else {
      var before, api := apis[..|apis| - 1], apis[|apis| - 1];
      assert apis == before + [api];
      GroupedByEntity(before);
      GroupedSnoc(before, api);
      if IsCrud(api) {
        AddKeepsGroups(Grouped(before), before, api);
      } else {
        OthersKeepGroups(Grouped(before), before, api);
      }
    }
  }

  lemma NoGroupsByEntity()
    ensures GroupsByEntity([], [])
  {
  }

  lemma OthersKeepGroups(domains: seq<Domain>, apis: seq<Api>, api: Api)
    requires GroupsByEntity(domains, apis) && !IsCrud(api)
    ensures GroupsByEntity(domains, apis + [api])
  {
    forall i | 0 <= i < |domains| ensures CrudOf(domains[i].name, apis + [api]) == CrudOf(domains[i].name, apis) {
      FilterSnoc((a: Api) => a.entity == Some(domains[i].name) && a.operation.Some?, apis, api);
    }
  }

  lemma AddKeepsGroups(domains: seq<Domain>, apis: seq<Api>, api: Api)
    requires GroupsByEntity(domains, apis) && IsCrud(api)
    ensures GroupsByEntity(Add(domains, api.entity.value, api), apis + [api])
  {
    var name := api.entity.value;
    var next := Add(domains, name, api);
    CrudOfSnoc(apis, api);
    hide CrudOf;
    if IndexOfName(domains, name, 0).None? { NoneOf(name, apis); }
    AddCovers(domains, name, api);
    forall a | a in apis + [api] && IsCrud(a) ensures IndexOfName(next, a.entity.value, 0).Some? {
      assert a == api || a in apis;
    }
  }

  lemma CrudOfSnoc(apis: seq<Api>, api: Api)
    requires IsCrud(api)
    ensures forall n :: CrudOf(n, apis + [api]) == CrudOf(n, apis) + if n == api.entity.value then [api] else []
  {
    forall n ensures CrudOf(n, apis + [api]) == CrudOf(n, apis) + if n == api.entity.value then [api] else [] {
      FilterSnoc((a: Api) => a.entity == Some(n) && a.operation.Some?, apis, api);
    }
  }

  lemma AddCovers(domains: seq<Domain>, name: string, api: Api)
    ensures forall n :: n == name || IndexOfName(domains, n, 0).Some? ==>
      IndexOfName(Add(domains, name, api), n, 0).Some?
  {
    var next := Add(domains, name, api);
    forall n | n == name || IndexOfName(domains, n, 0).Some? ensures IndexOfName(next, n, 0).Some? {
      var at := if n == name && IndexOfName(domains, n, 0).None? then |domains| else IndexOfName(domains, n, 0).value;
      assert next[at].name == n;
    }
  }

  lemma {:induction false} NoneOf(entity: string, apis: seq<Api>)
    requires forall api :: api in apis && IsCrud(api) ==> api.entity.value != entity
    ensures CrudOf(entity, apis) == []
  {
    if apis != [] { NoneOf(entity, apis[1..]); }
  }

  lemma {:induction false} GroupedApis(apis: seq<Api>)
    ensures multiset(ApisOf(Grouped(apis))) == multiset(Filter(IsCrud, apis))
  {
    hide Add;
    if apis != [] {
      var before, api := apis[..|apis| - 1], apis[|apis| - 1];
      assert apis == before + [api];
      GroupedApis(before);
      GroupedSnoc(before, api);
      FilterSnoc(IsCrud, before, api);
      if IsCrud(api) { ApisOfAdd(Grouped(before), api.entity.value, api, 0); }
    }
  }

  lemma {:induction false} ApisOfAdd(domains: seq<Domain>, name: string, api: Api, i: nat)
    ensures multiset(ApisOf(Add(domains, name, api))) == multiset(ApisOf(domains)) + multiset{api}
  {
    match IndexOfName(domains, name, 0)
    case None => ApisOfSnoc(domains, Domain(name, [api]));
    case Some(i) => ApisOfUpdate(domains, i, api);
  }

  lemma {:induction false} ApisOfSnoc(domains: seq<Domain>, domain: Domain)
    ensures ApisOf(domains + [domain]) == ApisOf(domains) + domain.apis
  {
    if domains == [] {
      assert [domain][1..] == [];
    } else {
      assert (domains + [domain])[1..] == domains[1..] + [domain];
      ApisOfSnoc(domains[1..], domain);
    }
  }

  lemma {:induction false} ApisOfUpdate(domains: seq<Domain>, i: nat, api: Api)
    requires i < |domains|
    ensures multiset(ApisOf(domains[i := domains[i].(apis := domains[i].apis + [api])])) ==
      multiset(ApisOf(domains)) + multiset{api}
  {
    var next := domains[i := domains[i].(apis := domains[i].apis + [api])];
    if i == 0 {
      assert next[1..] == domains[1..];
    } else {
      assert next[1..] == domains[1..][i - 1 := next[i]];
      ApisOfUpdate(domains[1..], i - 1, api);
    }
  }

  /** Each CRUD API of the system is once in the domain of its own entity, and in no other. */
  lemma CrudDomainsHoldEachOnce(entities: seq<string>, apis: seq<Api>)
    ensures var domains := Grouped(ApisOf(HandlerDomains(entities, apis)));
      && (forall i, j :: 0 <= i < j < |domains| ==> domains[i].name != domains[j].name)
      && (forall i :: 0 <= i < |domains| ==>
          domains[i].apis != [] && multiset(domains[i].apis) == multiset(CrudOf(domains[i].name, apis)))
      && (forall api :: api in apis && IsCrud(api) ==>
        exists i :: 0 <= i < |domains| && domains[i].name == api.entity.value && api in domains[i].apis)
  {
    hide HandlerDomains, ApisOf, Grouped;
    var spread := ApisOf(HandlerDomains(entities, apis));
    HandlerDomainsPartition(entities, apis);
    GroupedByEntity(spread);
    var domains := Grouped(spread);
    forall i | 0 <= i < |domains| ensures multiset(domains[i].apis) == multiset(CrudOf(domains[i].name, apis)) {
      FilterCounts((api: Api) => api.entity == Some(domains[i].name) && api.operation.Some?, spread);
      FilterCounts((api: Api) => api.entity == Some(domains[i].name) && api.operation.Some?, apis);
    }
    forall api | api in apis && IsCrud(api)
      ensures exists i :: 0 <= i < |domains| && domains[i].name == api.entity.value && api in domains[i].apis
    {
      assert api in multiset(spread) && api in spread;
      var i := IndexOfName(domains, api.entity.value, 0).value;
      FilterCount((a: Api) => a.entity == Some(domains[i].name) && a.operation.Some?, spread, api);
      assert api in multiset(domains[i].apis);
    }
  }

  // ---------------------------------------------------------------------------------- catalog

  function NamesOf(apis: seq<Api>): set<string> { set api | api in apis :: api.name }

  /** The entity domains' APIs, then the APIs of any other name. */
  function Catalog(entities: seq<string>, apis: seq<Api>): seq<Api> {
    var crud := ApisOf(Grouped(ApisOf(HandlerDomains(entities, apis))));
    crud + Filter((api: Api) => api.name !in NamesOf(crud), apis)
  }

  method ApiDescriptorCatalog(entities: seq<string>, apis: seq<Api>) returns (listed: seq<Api>)
    ensures listed == Catalog(entities, apis)
  {
    hide HandlerDomains, Grouped, ApisOf, NamesOf;
    var domains := ApiHandlerDomains(entities, apis);
    domains := CrudApiHandlerDomains(domains);
    var names: set<string>;
    listed, names := ListDomains(domains);
    ghost var crud := ApisOf(domains);
    for k := 0 to |apis|
      invariant listed == crud + Filter((api: Api) => api.name !in NamesOf(crud), apis[..k])
    {
      FilterTake((api: Api) => api.name !in NamesOf(crud), apis, k);
      if apis[k].name !in names { listed := listed + [apis[k]]; }
    }
    assert apis[..|apis|] == apis;
  }

  method ListDomains(domains: seq<Domain>) returns (listed: seq<Api>, names: set<string>)
    ensures listed == ApisOf(domains) && names == NamesOf(listed)
  {
    listed, names := [], {};
    for d := 0 to |domains|
      invariant listed + ApisOf(domains[d..]) == ApisOf(domains) && names == NamesOf(listed)
    {
      var slice := domains[d].apis;
      names := names + set api | api in slice :: api.name;
      listed := listed + slice;
      assert domains[d..][1..] == domains[d + 1..];
    }
  }

  /** A CRUD API is listed as often as declared; another API not at all if a CRUD API has its name. */
  lemma CatalogCount(entities: seq<string>, apis: seq<Api>, api: Api)
    ensures multiset(Catalog(entities, apis))[api] ==
      if !IsCrud(api) && exists other :: other in apis && IsCrud(other) && other.name == api.name then 0
      else multiset(apis)[api]
  {
    hide HandlerDomains, ApisOf, Grouped, IsCrud;
    var spread := ApisOf(HandlerDomains(entities, apis));
    var crud := ApisOf(Grouped(spread));
    HandlerDomainsPartition(entities, apis);
    GroupedApis(spread);
    FilterCounts(IsCrud, spread);
    FilterCount((a: Api) => a.name !in NamesOf(crud), apis, api);
    assert forall a :: a in crud <==> a in multiset(crud);
    assert forall a :: a in apis <==> a in multiset(apis);
    assert forall a :: a in crud <==> a in apis && IsCrud(a);
  }

  /** The catalog lists every API exactly once, unless another API has the name of a CRUD API. */
  lemma CatalogListsEachOnceIff(entities: seq<string>, apis: seq<Api>)
    ensures multiset(Catalog(entities, apis)) == multiset(apis) <==>
      forall a, b :: a in apis && b in apis && IsCrud(a) && !IsCrud(b) ==> a.name != b.name
  {
    hide Catalog, IsCrud;
    forall api
      ensures multiset(Catalog(entities, apis))[api] ==
        if !IsCrud(api) && exists other :: other in apis && IsCrud(other) && other.name == api.name then 0
        else multiset(apis)[api]
    {
      CatalogCount(entities, apis, api);
    }
    forall a, b | a in apis && b in apis && IsCrud(a) && !IsCrud(b) && a.name == b.name
      ensures multiset(Catalog(entities, apis)) != multiset(apis)
    {
      assert multiset(apis)[b] > 0 && multiset(Catalog(entities, apis))[b] == 0;
    }
  }

  /** Two APIs of one name, one of them CRUD: the catalog drops the other. */
  lemma CatalogDropsApi(entities: seq<string>)
    ensures var (crud, other) := (Api("Place", Some("Order"), Some("create"), None, None),
                                  Api("Place", None, None, None, None));
      other !in Catalog(entities, [other, crud])
  {
    hide Catalog;
    var crud, other := Api("Place", Some("Order"), Some("create"), None, None), Api("Place", None, None, None, None);
    var apis := [other, crud];
    assert crud == apis[1] && crud in apis && IsCrud(crud) && !IsCrud(other);
    CatalogCount(entities, apis, other);
    assert multiset(Catalog(entities, apis))[other] == 0;
  }
}
