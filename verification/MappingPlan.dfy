/** Mapping plans of external-system metadata, and what applying one produces. */
module MappingPlan {
  import opened Options
  import opened Json
  import opened Sequences
  import opened Strings

  datatype Mapping = Mapping(source: string, target: string)

  datatype Assignment = Assignment(
    source: string,
    sourceRoot: string,
    sourceField: string,
    targetRoot: string,
    field: string)

  datatype Plan = Plan(all: seq<Assignment>, client: seq<Assignment>, request: seq<Assignment>)

  // ---------------------------------------------------------------------------------- planning

  function SourceRoot(source: string): string {
    var dot := IndexOf(source, '.');
    if dot.None? then source else source[..dot.value]
  }

  function SourceField(source: string): string {
    var dot := IndexOf(source, '.');
    if dot.None? then "" else source[dot.value + 1..]
  }

  predicate HasRoot(mapping: Mapping, root: string) { root + "." <= mapping.target }

  predicate IsPlanned(mapping: Mapping) { HasRoot(mapping, "client") || HasRoot(mapping, "request") }

  function AssignmentOf(mapping: Mapping, root: string): Assignment
    requires HasRoot(mapping, root)
  {
    Assignment(
      mapping.source, SourceRoot(mapping.source), SourceField(mapping.source), root, mapping.target[|root| + 1..])
  }

  /** The assignments of the mappings whose target has one of the two roots. */
  function Assignments(mappings: seq<Mapping>): seq<Assignment> {
    if mappings == [] then []
    else
      var m := mappings[0];
      (if HasRoot(m, "client") then [AssignmentOf(m, "client")]
       else if HasRoot(m, "request") then [AssignmentOf(m, "request")]
       else []) + Assignments(mappings[1..])
  }

  function TargetRootIs(root: string): Assignment -> bool { (a: Assignment) => a.targetRoot == root }

  /** All assignments in the order of their mappings; those of each root in the same order. */
  function PlanOf(mappings: seq<Mapping>): Plan {
    var all := Assignments(mappings);
    Plan(all, Filter(TargetRootIs("client"), all), Filter(TargetRootIs("request"), all))
  }

  method MetadataMappingPlan(mappings: Option<seq<Mapping>>) returns (plan: Plan)
    ensures plan == PlanOf(if mappings.Some? then mappings.value else [])
  {
    hide SourceRoot, SourceField, HasRoot;
    plan := Plan([], [], []);
    if mappings.None? { return; }
    var ms := mappings.value;
    for i := 0 to |ms|
      invariant plan == PlanOf(ms[..i])
    {
      PlanSnoc(ms, i);
      var source := ms[i].source;
      var dot := FindChar(source, '.', 0);
      var root := if dot.None? then source else source[..dot.value];
      var field := if dot.None? then "" else source[dot.value + 1..];
      SourceParts(source);
      if HasRoot(ms[i], "client") {
        TargetTail(ms[i], "client");
        var assignment := Assignment(source, root, field, "client", ms[i].target[|"client."|..]);
        plan := plan.(all := plan.all + [assignment], client := plan.client + [assignment]);
      } else if HasRoot(ms[i], "request") {
        TargetTail(ms[i], "request");
        var assignment := Assignment(source, root, field, "request", ms[i].target[|"request."|..]);
        plan := plan.(all := plan.all + [assignment], request := plan.request + [assignment]);
      }
    }
    assert ms[..|ms|] == ms;
  }

  lemma SourceParts(source: string)
    ensures SourceRoot(source) == match NextFrom(source, '.', 0) { case None => source case Some(i) => source[..i] }
    ensures SourceField(source) == match NextFrom(source, '.', 0) { case None => "" case Some(i) => source[i + 1..] }
  {
  }

  lemma TargetTail(mapping: Mapping, root: string)
    requires HasRoot(mapping, root)
    ensures |mapping.target| >= |root| + 1
    ensures AssignmentOf(mapping, root).field == mapping.target[|root| + 1..]
  {
  }

  lemma {:induction false} AssignmentsConcat(a: seq<Mapping>, b: seq<Mapping>)
    ensures Assignments(a + b) == Assignments(a) + Assignments(b)
  {
    hide HasRoot;
    if a == [] {
      assert a + b == b;
    } else {
      assert (a + b)[1..] == a[1..] + b;
      AssignmentsConcat(a[1..], b);
    }
  }

  lemma OneAssignment(m: Mapping)
    ensures Assignments([m]) ==
      if HasRoot(m, "client") then [AssignmentOf(m, "client")]
      else if HasRoot(m, "request") then [AssignmentOf(m, "request")]
      else []
  {
    assert [m][1..] == [];
  }

  lemma PlanSnoc(mappings: seq<Mapping>, i: nat)
    requires i < |mappings|
    ensures var m, before := mappings[i], PlanOf(mappings[..i]);
      PlanOf(mappings[..i + 1]) ==
        if HasRoot(m, "client") then
          var a := AssignmentOf(m, "client");
          before.(all := before.all + [a], client := before.client + [a])
        else if HasRoot(m, "request") then
          var a := AssignmentOf(m, "request");
          before.(all := before.all + [a], request := before.request + [a])
        else before
  {
    hide HasRoot, SourceRoot, SourceField;
    var m, all := mappings[i], Assignments(mappings[..i]);
    assert mappings[..i + 1] == mappings[..i] + [m];
    AssignmentsConcat(mappings[..i], [m]);
    OneAssignment(m);
    assert all + [] == all;
    if HasRoot(m, "client") {
      FilterSnoc(TargetRootIs("client"), all, AssignmentOf(m, "client"));
      FilterSnoc(TargetRootIs("request"), all, AssignmentOf(m, "client"));
    } else if HasRoot(m, "request") {
      FilterSnoc(TargetRootIs("client"), all, AssignmentOf(m, "request"));
      FilterSnoc(TargetRootIs("request"), all, AssignmentOf(m, "request"));
    }
  }

  /** What an assignment was made from. */
  function MappingOf(a: Assignment): Mapping { Mapping(a.source, a.targetRoot + "." + a.field) }

  function MappingsOf(all: seq<Assignment>): seq<Mapping> {
    if all == [] then [] else [MappingOf(all[0])] + MappingsOf(all[1..])
  }

  lemma Restored(m: Mapping, root: string)
    requires HasRoot(m, root)
    ensures MappingOf(AssignmentOf(m, root)) == m
    ensures var a := AssignmentOf(m, root);
      '.' !in a.sourceRoot && (if '.' in a.source then a.sourceRoot + "." + a.sourceField else a.sourceRoot) == a.source
  {
    assert m.target == (root + ".") + m.target[|root| + 1..];
  }

  /** Planning loses nothing but foreign targets: the plan gives back its mappings, in order. */
  lemma {:induction false} PlanRestoresMappings(mappings: seq<Mapping>)
    ensures MappingsOf(PlanOf(mappings).all) == Filter(IsPlanned, mappings)
    ensures forall a :: a in PlanOf(mappings).all ==> a.targetRoot == "client" || a.targetRoot == "request"
  {
    hide HasRoot, AssignmentOf;
    if mappings != [] {
      var m := mappings[0];
      var rest := Assignments(mappings[1..]);
      PlanRestoresMappings(mappings[1..]);
      assert [] + rest == rest;
      if HasRoot(m, "client") {
        Restored(m, "client");
        TargetRoot(m, "client");
        assert ([AssignmentOf(m, "client")] + rest)[1..] == rest;
      } else if HasRoot(m, "request") {
        Restored(m, "request");
        TargetRoot(m, "request");
        assert ([AssignmentOf(m, "request")] + rest)[1..] == rest;
      }
    }
  }

  lemma TargetRoot(m: Mapping, root: string)
    requires HasRoot(m, root)
    ensures AssignmentOf(m, root).targetRoot == root
  {
  }

  /** The whole list is a merge of the two others: each keeps its order, and together they are all. */
  predicate Merges<T(==)>(all: seq<T>, a: seq<T>, b: seq<T>)
    decreases |all|
  {
    if all == [] then a == [] && b == []
    else
      || (a != [] && all[0] == a[0] && Merges(all[1..], a[1..], b))
      || (b != [] && all[0] == b[0] && Merges(all[1..], a, b[1..]))
  }

  lemma {:induction false} FiltersMerge(all: seq<Assignment>)
    requires forall a :: a in all ==> a.targetRoot == "client" || a.targetRoot == "request"
    ensures Merges(all, Filter(TargetRootIs("client"), all), Filter(TargetRootIs("request"), all))
  {
    if all != [] {
      FiltersMerge(all[1..]);
      assert all[0] in all;
      var client, request := Filter(TargetRootIs("client"), all[1..]), Filter(TargetRootIs("request"), all[1..]);
      if all[0].targetRoot == "client" {
        assert Filter(TargetRootIs("client"), all) == [all[0]] + client && ([all[0]] + client)[1..] == client;
        assert Filter(TargetRootIs("request"), all) == [] + request == request;
      } else {
        assert Filter(TargetRootIs("request"), all) == [all[0]] + request && ([all[0]] + request)[1..] == request;
        assert Filter(TargetRootIs("client"), all) == [] + client == client;
      }
    }
  }

  lemma PlanMerges(mappings: seq<Mapping>)
    ensures var plan := PlanOf(mappings); Merges(plan.all, plan.client, plan.request)
  {
    PlanRestoresMappings(mappings);
    FiltersMerge(Assignments(mappings));
  }

  // ----------------------------------------------------------------------------------- applying

  datatype Inputs = Inputs(
    input: map<string, Json>,
    entity: map<string, Json>,
    workflow: map<string, Json>,
    metadata: map<string, Json>)

  function Values(inputs: Inputs, root: string): Option<map<string, Json>> {
    if root == "input" then Some(inputs.input)
    else if root == "entity" then Some(inputs.entity)
    else if root == "workflow" then Some(inputs.workflow)
    else if root == "metadata" then Some(inputs.metadata)
    else None
  }

  function Value(inputs: Inputs, a: Assignment): Option<Json> {
    var values := Values(inputs, a.sourceRoot);
    if values.Some? && a.sourceField in values.value then Some(values.value[a.sourceField]) else None
  }

  /** The fields that a list of assignments fills, later ones overwriting. */
  function Filled(assignments: seq<Assignment>, inputs: Inputs): map<string, Json> {
    if assignments == [] then map[]
    else
      var n := |assignments| - 1;
      var before, value := Filled(assignments[..n], inputs), Value(inputs, assignments[n]);
      if value.Some? then before[assignments[n].field := value.value] else before
  }

  datatype MissingSource = MissingSource(
    source: string,
    sourceRoot: string,
    sourceField: string,
    targetRoot: string,
    field: string)

  datatype Output = Output(client: map<string, Json>, request: map<string, Json>, missing: seq<MissingSource>)

  function Unresolved(assignments: seq<Assignment>, inputs: Inputs): seq<Assignment> {
    Filter((a: Assignment) => Value(inputs, a).None?, assignments)
  }

  function MissingOf(a: Assignment): MissingSource {
    MissingSource(a.source, a.sourceRoot, a.sourceField, a.targetRoot, a.field)
  }

  function AllMissing(assignments: seq<Assignment>): (r: seq<MissingSource>)
    ensures |r| == |assignments| && forall i :: 0 <= i < |r| ==> r[i] == MissingOf(assignments[i])
  {
    seq(|assignments|, i requires 0 <= i < |assignments| => MissingOf(assignments[i]))
  }

  method Fill(assignments: seq<Assignment>, inputs: Inputs) returns (config: map<string, Json>)
    ensures config == Filled(assignments, inputs)
  {
    config := map[];
    for i := 0 to |assignments|
      invariant config == Filled(assignments[..i], inputs)
    {
      assert assignments[..i + 1][..i] == assignments[..i];
      var value := Value(inputs, assignments[i]);
      if value.Some? { config := config[assignments[i].field := value.value]; }
    }
    assert assignments[..|assignments|] == assignments;
  }

  lemma UnresolvedUpTo(all: seq<Assignment>, inputs: Inputs, i: nat)
    requires i < |all|
    ensures Unresolved(all[..i + 1], inputs) ==
      Unresolved(all[..i], inputs) + if Value(inputs, all[i]).None? then [all[i]] else []
  {
    FilterTake((a: Assignment) => Value(inputs, a).None?, all, i);
  }

  method MissingMappingSources(plan: Plan, inputs: Inputs) returns (missing: seq<MissingSource>)
    ensures missing == AllMissing(Unresolved(plan.all, inputs))
  {
    assert plan.all[..0] == [] && Unresolved([], inputs) == [];
    hide Value, Unresolved;
    missing := [];
    for i := 0 to |plan.all|
      invariant missing == AllMissing(Unresolved(plan.all[..i], inputs))
    {
      UnresolvedUpTo(plan.all, inputs, i);
      var a := plan.all[i];
      if Value(inputs, a).None? {
        missing := missing + [MissingSource(a.source, a.sourceRoot, a.sourceField, a.targetRoot, a.field)];
      }
    }
    assert plan.all[..|plan.all|] == plan.all;
  }

  method ApplyMetadataMappings(plan: Plan, inputs: Inputs) returns (output: Output)
    ensures output == Output(
      Filled(plan.client, inputs), Filled(plan.request, inputs), AllMissing(Unresolved(plan.all, inputs)))
  {
    var clientConfig := Fill(plan.client, inputs);
    var requestPayload := Fill(plan.request, inputs);
    var missing := MissingMappingSources(plan, inputs);
    return Output(clientConfig, requestPayload, missing);
  }

  // ------------------------------------------------------------------------------------ meaning

  /** The assignment at `i` has a value, and no later one to its field does. */
  predicate IsLast(assignments: seq<Assignment>, inputs: Inputs, i: int) {
    && 0 <= i < |assignments|
    && Value(inputs, assignments[i]).Some?
    && forall j :: i < j < |assignments| && assignments[j].field == assignments[i].field ==>
        Value(inputs, assignments[j]).None?
  }

  /** A field holds the value of the last assignment to it that has one, and is absent if none has. */
  lemma {:induction false} LastPresentWins(assignments: seq<Assignment>, inputs: Inputs)
    ensures forall i :: IsLast(assignments, inputs, i) ==>
      assignments[i].field in Filled(assignments, inputs) &&
      Value(inputs, assignments[i]) == Some(Filled(assignments, inputs)[assignments[i].field])
    ensures forall field :: field in Filled(assignments, inputs) ==>
      exists i :: IsLast(assignments, inputs, i) && assignments[i].field == field
  {
    hide Value;
    if assignments != [] {
      var n := |assignments| - 1;
      var before := assignments[..n];
      LastPresentWins(before, inputs);
      forall i | 0 <= i < n
        ensures IsLast(assignments, inputs, i) <==>
          IsLast(before, inputs, i) &&
          !(assignments[n].field == before[i].field && Value(inputs, assignments[n]).Some?)
      {
      }
      assert IsLast(assignments, inputs, n) <==> Value(inputs, assignments[n]).Some?;
      assert forall i :: IsLast(assignments, inputs, i) ==> 0 <= i <= n;
      assert forall i :: IsLast(before, inputs, i) ==> 0 <= i < n;
      hide IsLast;
      forall field | field in Filled(assignments, inputs)
        ensures exists i :: IsLast(assignments, inputs, i) && assignments[i].field == field
      {
        if Value(inputs, assignments[n]).Some? && assignments[n].field == field {
          assert IsLast(assignments, inputs, n);
        } else {
          var i :| IsLast(before, inputs, i) && before[i].field == field;
          assert IsLast(assignments, inputs, i);
        }
      }
    }
  }

  function ValueIn(values: map<string, Json>, name: string): Option<Json> {
    if name in values then Some(values[name]) else None
  }

  /** The text before the first dot names the values that the text after it is looked up in. */
  lemma SourcesAre(name: string, target: string, root: string, inputs: Inputs)
    requires root + "." <= target
    ensures Value(inputs, AssignmentOf(Mapping("input." + name, target), root)) == ValueIn(inputs.input, name)
    ensures Value(inputs, AssignmentOf(Mapping("entity." + name, target), root)) == ValueIn(inputs.entity, name)
    ensures Value(inputs, AssignmentOf(Mapping("workflow." + name, target), root)) == ValueIn(inputs.workflow, name)
    ensures Value(inputs, AssignmentOf(Mapping("metadata." + name, target), root)) == ValueIn(inputs.metadata, name)
  {
    hide AssignmentOf, Value;
    SourceIs("input", "input.", name, target, root, inputs);
    SourceIs("entity", "entity.", name, target, root, inputs);
    SourceIs("workflow", "workflow.", name, target, root, inputs);
    SourceIs("metadata", "metadata.", name, target, root, inputs);
  }

  lemma SourceIs(from: string, dotted: string, name: string, target: string, root: string, inputs: Inputs)
    requires root + "." <= target && '.' !in from && dotted == from + "."
    ensures Value(inputs, AssignmentOf(Mapping(dotted + name, target), root))
      == if Values(inputs, from).Some? then ValueIn(Values(inputs, from).value, name) else None
  {
    hide Values, SourceRoot, SourceField;
    RootOf(from, name);
  }

  lemma RootOf(root: string, name: string)
    requires '.' !in root
    ensures SourceRoot(root + "." + name) == root && SourceField(root + "." + name) == name
  {
    IndexOfFirst(root, name, '.');
    assert root + ['.'] + name == root + "." + name;
    assert (root + "." + name)[..|root|] == root && (root + "." + name)[|root| + 1..] == name;
  }

  /** Anything else resolves to nothing. */
  lemma OtherSourcesAre(root: string, name: string, target: string, to: string, inputs: Inputs)
    requires to + "." <= target && '.' !in root && root !in {"input", "entity", "workflow", "metadata"}
    ensures Value(inputs, AssignmentOf(Mapping(root + "." + name, target), to)) == None
  {
    RootOf(root, name);
  }

  /** A source has a value if it is a root, a dot and a name there; a root by itself has the empty name. */
  ghost predicate FoundIn(source: string, root: string, values: map<string, Json>) {
    (source == root && "" in values) || exists name :: name in values && source == root + "." + name
  }

  ghost predicate Resolves(inputs: Inputs, source: string) {
    || FoundIn(source, "input", inputs.input)
    || FoundIn(source, "entity", inputs.entity)
    || FoundIn(source, "workflow", inputs.workflow)
    || FoundIn(source, "metadata", inputs.metadata)
  }

  lemma FoundInIff(source: string, root: string, values: map<string, Json>)
    requires '.' !in root
    ensures FoundIn(source, root, values) <==> SourceRoot(source) == root && SourceField(source) in values
  {
    if name :| name in values && source == root + "." + name { RootOf(root, name); }
    if '.' in source && SourceRoot(source) == root {
      assert source == root + "." + SourceField(source);
    }
  }

  lemma ResolvesIff(m: Mapping, root: string, inputs: Inputs)
    requires HasRoot(m, root)
    ensures Value(inputs, AssignmentOf(m, root)).Some? <==> Resolves(inputs, m.source)
  {
    hide FoundIn, SourceRoot, SourceField;
    FoundInIff(m.source, "input", inputs.input);
    FoundInIff(m.source, "entity", inputs.entity);
    FoundInIff(m.source, "workflow", inputs.workflow);
    FoundInIff(m.source, "metadata", inputs.metadata);
  }

  /** The mappings that missing sources tell of. */
  function Told(missing: seq<MissingSource>): seq<Mapping> {
    if missing == [] then []
    else [Mapping(missing[0].source, missing[0].targetRoot + "." + missing[0].field)] + Told(missing[1..])
  }

  /** What is reported missing are, in order, the planned mappings whose source has no value. */
  lemma {:induction false} MissingAre(mappings: seq<Mapping>, inputs: Inputs)
    ensures Told(AllMissing(Unresolved(PlanOf(mappings).all, inputs)))
      == Filter((m: Mapping) => IsPlanned(m) && !Resolves(inputs, m.source), mappings)
  {
    if mappings == [] {
      assert Unresolved([], inputs) == [];
    } else {
      var m, rest := mappings[0], mappings[1..];
      MissingAre(rest, inputs);
      assert mappings == [m] + rest;
      AssignmentsConcat([m], rest);
      OneAssignment(m);
      FilterConcat((a: Assignment) => Value(inputs, a).None?, Assignments([m]), Assignments(rest));
      ToldConcat(Unresolved(Assignments([m]), inputs), Unresolved(Assignments(rest), inputs));
      ToldOne(m, inputs);
    }
  }

  lemma ToldOne(m: Mapping, inputs: Inputs)
    ensures Told(AllMissing(Unresolved(Assignments([m]), inputs)))
      == if IsPlanned(m) && !Resolves(inputs, m.source) then [m] else []
  {
    hide Value, Resolves, AssignmentOf, HasRoot;
    OneAssignment(m);
    if IsPlanned(m) {
      var root := if HasRoot(m, "client") then "client" else "request";
      var a := AssignmentOf(m, root);
      ResolvesIff(m, root, inputs);
      Restored(m, root);
      assert [a][1..] == [] && [MissingOf(a)][1..] == [];
      FilterSnoc((x: Assignment) => Value(inputs, x).None?, [], a);
      assert [] + [a] == [a];
      assert AllMissing([a]) == [MissingOf(a)] && Told([MissingOf(a)]) == [MappingOf(a)];
    }
  }

  lemma {:induction false} ToldConcat(a: seq<Assignment>, b: seq<Assignment>)
    ensures Told(AllMissing(a + b)) == Told(AllMissing(a)) + Told(AllMissing(b))
  {
    if a == [] {
      assert a + b == b;
    } else {
      assert AllMissing(a)[1..] == AllMissing(a[1..]) && (a + b)[1..] == a[1..] + b;
      assert AllMissing(a + b)[1..] == AllMissing(a[1..] + b);
      ToldConcat(a[1..], b);
    }
  }

  /** A target is the configuration it is for, and the field. */
  lemma TargetsAre(source: string, field: string)
    ensures var client := Mapping(source, "client." + field);
      HasRoot(client, "client") && AssignmentOf(client, "client").field == field
        && Assignments([client]) == [AssignmentOf(client, "client")]
    ensures var request := Mapping(source, "request." + field);
      HasRoot(request, "request") && AssignmentOf(request, "request").field == field
        && Assignments([request]) == [AssignmentOf(request, "request")]
  {
    assert "client." == "client" + "." && "request." == "request" + ".";
    assert ("client." + field)[|"client"| + 1..] == field && ("request." + field)[|"request"| + 1..] == field;
    var request := Mapping(source, "request." + field);
    assert request.target[0] == 'r' && "client."[0] == 'c';
    assert [Mapping(source, "client." + field)][1..] == [] && [request][1..] == [];
  }

  predicate DistinctTargets(all: seq<Assignment>) {
    forall i, j :: 0 <= i < j < |all| ==> all[i].targetRoot != all[j].targetRoot || all[i].field != all[j].field
  }

  predicate AllFilled(assignments: seq<Assignment>, inputs: Inputs) {
    forall a :: a in assignments ==> a.field in Filled(assignments, inputs)
  }

  lemma {:induction false} PresentIsFilled(assignments: seq<Assignment>, inputs: Inputs)
    ensures forall a :: a in assignments && Value(inputs, a).Some? ==> a.field in Filled(assignments, inputs)
  {
    if assignments != [] {
      var n := |assignments| - 1;
      assert assignments == assignments[..n] + [assignments[n]];
      PresentIsFilled(assignments[..n], inputs);
    }
  }

  /**
   If nothing is reported missing every planned field is filled; and given distinct targets, only
   then.
   */
  lemma NothingMissingIff(mappings: seq<Mapping>, inputs: Inputs)
    ensures var plan := PlanOf(mappings);
      var filled := AllFilled(plan.client, inputs) && AllFilled(plan.request, inputs);
      && (AllMissing(Unresolved(plan.all, inputs)) == [] ==> filled)
      && (DistinctTargets(plan.all) && filled ==> AllMissing(Unresolved(plan.all, inputs)) == [])
  {
    hide Value, Assignments, DistinctTargets;
    var plan := PlanOf(mappings);
    var missing := Unresolved(plan.all, inputs);
    PlanRestoresMappings(mappings);
    InFilter((a: Assignment) => Value(inputs, a).None?, plan.all);
    assert missing == [] <==> forall a :: a in plan.all ==> Value(inputs, a).Some? by {
      if missing != [] { assert missing[0] in missing; }
    }
    FilledIff(plan.all, "client", inputs);
    FilledIff(plan.all, "request", inputs);
  }

  lemma {:induction false} FilledIff(all: seq<Assignment>, root: string, inputs: Inputs)
    ensures var present := forall a :: a in all && a.targetRoot == root ==> Value(inputs, a).Some?;
      var filled := AllFilled(Filter(TargetRootIs(root), all), inputs);
      (present ==> filled) && (DistinctTargets(all) && filled ==> present)
  {
    hide Value, Filter, Filled;
    var own := Filter(TargetRootIs(root), all);
    InFilter(TargetRootIs(root), all);
    PresentIsFilled(own, inputs);
    if DistinctTargets(all) && AllFilled(own, inputs) {
      forall a | a in all && a.targetRoot == root ensures Value(inputs, a).Some? {
        LastPresentWins(own, inputs);
        var i :| IsLast(own, inputs, i) && own[i].field == a.field;
        assert own[i] in own;
      }
    }
  }
}
