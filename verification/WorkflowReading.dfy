/** A reader of printed workflow statements, word by word as the grammar has them. */
module WorkflowReading {
  import opened Options
  import opened Expressions
  import opened Strings
  import opened WorkflowText

  // -------------------------------------------------------------------------------- the grammar

  datatype Part = Target | Binding | Assignable | Expression | FromPart | ToPart | Payload | Statements

  /** The parts that a statement of a kind has, if there are such statements. */
  function PartsOf(kind: string): Option<set<Part>> {
    if kind in {"complete"} then Some({})
    else if kind in {"require", "fail"} then Some({Expression})
    else if kind == "set" then Some({Assignable, Expression})
    else if kind in {"emit", "enqueue", "start_workflow", "create_child"} then Some({Target, Payload})
    else if kind == "acquire_lease" then Some({Target, Binding})
    else if kind in {"renew_lease", "release_lease", "transition_to"} then Some({Target})
    else if kind in {"reserve_child_set", "materialize_child_set", "reconcile_child_set"} then Some({Target})
    else if kind == "atomic" then Some({Statements})
    else if kind == "for_each" then Some({Binding, Expression, Statements})
    else if kind == "when" then Some({Expression, Statements})
    else if kind == "observe_child" then Some({Target, Binding, Expression})
    else if kind == "move" then Some({Expression, FromPart, ToPart})
    else None
  }

  /** A lease need not be bound, and a failure need not say why. */
  function NeededBy(kind: string): set<Part>
    requires PartsOf(kind).Some?
  {
    PartsOf(kind).value - (if kind == "acquire_lease" then {Binding} else if kind == "fail" then {Expression} else {})
  }

  predicate Printable(s: Statement) {
    && PartsOf(s.kind).Some?
    && var needed := NeededBy(s.kind);
       && (Target in needed ==> s.target.Some?)
       && (Binding in needed ==> s.binding.Some?)
       && (Assignable in needed ==> s.assignable.Some?)
       && (Expression in needed ==> s.expression.Some?)
       && (FromPart in needed ==> s.fromAssignable.Some?)
       && (ToPart in needed ==> s.toAssignable.Some?)
  }

  function Tidied(text: Option<string>): Option<string> {
    if text.Some? then Some(Normalized(text.value)) else None
  }

  function TidiedPayload(payload: seq<Assignment>): seq<Assignment> {
    seq(|payload|, i requires 0 <= i < |payload| => Assignment(payload[i].name, Normalized(payload[i].expression)))
  }

  /** A statement with the parts of its kind only, expressions and what is assigned to normalised. */
  function Shown(s: Statement): Statement
    requires Printable(s)
    decreases s, 1
  {
    var parts := PartsOf(s.kind).value;
    Statement(
      s.kind,
      if Target in parts then s.target else None,
      if Binding in parts then s.binding else None,
      if Assignable in parts then Tidied(s.assignable) else None,
      if Expression in parts then Tidied(s.expression) else None,
      if FromPart in parts then Tidied(s.fromAssignable) else None,
      if ToPart in parts then Tidied(s.toAssignable) else None,
      if Payload in parts then TidiedPayload(s.payload) else [],
      if Statements in parts then ShownAll(s.statements) else [])
  }

  /** Statements that lack what they need are not printed. */
  function ShownAll(statements: seq<Statement>): seq<Statement>
    decreases statements, 0
  {
    if statements == [] then []
    else (if Printable(statements[0]) then [Shown(statements[0])] else []) + ShownAll(statements[1..])
  }

  // --------------------------------------------------------------------------------- the reader

  const NO_PARTS := Statement("", None, None, None, None, None, None, [], [])

  /** The text before the first space, and the text after it. */
  function FirstWord(text: string): (string, Option<string>) {
    match IndexOf(text, ' ')
    case None => (text, None)
    case Some(i) => (text[..i], Some(text[i + 1..]))
  }

  function FirstOf(text: string, sep: string, from: nat): (i: nat)
    requires from <= |text|
    ensures from <= i <= |text| && (i < |text| ==> StartsWith(text[i..], sep))
    ensures forall j :: from <= j < i ==> !StartsWith(text[j..], sep)
    decreases |text| - from
  {
    if from == |text| || StartsWith(text[from..], sep) then from else FirstOf(text, sep, from + 1)
  }

  /** The text before the first separator and the text after it, if there is one. */
  function SplitAt(text: string, sep: string): (string, Option<string>)
    requires sep != ""
  {
    var i := FirstOf(text, sep, 0);
    if i == |text| then (text, None) else (text[..i], Some(text[i + |sep|..]))
  }

  /** What follows a keyword, if it is there. */
  function AfterWord(text: Option<string>, word: string): Option<string> {
    if text.Some? && FirstWord(text.value).0 == word then FirstWord(text.value).1 else None
  }

  /** A statement's line without its closing mark, read by its keyword. */
  function ReadHeader(text: string): Statement {
    var (word, rest) := FirstWord(text);
    if word == "require" then NO_PARTS.(kind := "require", expression := rest)
    else if word == "set" && rest.Some? then
      var (a, e) := SplitAt(rest.value, " = ");
      NO_PARTS.(kind := "set", assignable := Some(a), expression := e)
    else if word == "emit" then NO_PARTS.(kind := "emit", target := rest)
    else if word == "enqueue" then NO_PARTS.(kind := "enqueue", target := rest)
    else if word == "acquire" && AfterWord(rest, "lease").Some? then
      var (lease, name) := SplitAt(AfterWord(rest, "lease").value, " as ");
      NO_PARTS.(kind := "acquire_lease", target := Some(lease), binding := name)
    else if word == "renew" then NO_PARTS.(kind := "renew_lease", target := AfterWord(rest, "lease"))
    else if word == "release" then NO_PARTS.(kind := "release_lease", target := AfterWord(rest, "lease"))
    else if word == "start" then NO_PARTS.(kind := "start_workflow", target := AfterWord(rest, "workflow"))
    else if word == "transition_to" then NO_PARTS.(kind := "transition_to", target := rest)
    else if word == "complete" then NO_PARTS.(kind := "complete")
    else if word == "fail" then NO_PARTS.(kind := "fail", expression := rest)
    else if word == "atomic" then NO_PARTS.(kind := "atomic")
    else ReadOther(word, rest)
  }

  function ReadOther(word: string, rest: Option<string>): Statement {
    if word == "for_each" && rest.Some? then
      var (name, e) := SplitAt(rest.value, " in ");
      NO_PARTS.(kind := "for_each", binding := Some(name), expression := e)
    else if word == "when" then NO_PARTS.(kind := "when", expression := rest)
    else if word == "create" then NO_PARTS.(kind := "create_child", target := AfterWord(rest, "child"))
    else if word == "observe" && AfterWord(rest, "child").Some? then
      var (child, more) := SplitAt(AfterWord(rest, "child").value, " by ");
      if more.None? then NO_PARTS.(kind := "observe_child", target := Some(child))
      else
        var (field, e) := SplitAt(more.value, " = ");
        NO_PARTS.(kind := "observe_child", target := Some(child), binding := Some(field), expression := e)
    else if word == "move" && rest.Some? then
      var (e, more) := SplitAt(rest.value, " from ");
      if more.None? then NO_PARTS.(kind := "move", expression := Some(e))
      else
        var (a, b) := SplitAt(more.value, " to ");
        NO_PARTS.(kind := "move", expression := Some(e), fromAssignable := Some(a), toAssignable := b)
    else if word == "reserve" then NO_PARTS.(kind := "reserve_child_set", target := AfterWord(rest, "child_set"))
    else if word == "materialize" then
      NO_PARTS.(kind := "materialize_child_set", target := AfterWord(rest, "child_set"))
    else if word == "reconcile" then
      NO_PARTS.(kind := "reconcile_child_set", target := AfterWord(rest, "child_set"))
    else NO_PARTS
  }

  function WithoutMark(text: string): string {
    if EndsWith(text, ";") then text[..|text| - 1] else text
  }

  function ReadAssignment(node: Node): Assignment {
    if node.Leaf? then
      var (name, e) := SplitAt(WithoutMark(node.text), " = ");
      Assignment(name, if e.Some? then e.value else "")
    else Assignment(node.header, "")
  }

  function ReadPayload(body: seq<Node>): seq<Assignment> {
    seq(|body|, i requires 0 <= i < |body| => ReadAssignment(body[i]))
  }

  function ReadNode(node: Node): Statement
    decreases node, 1
  {
    match node
    case Leaf(text) => ReadHeader(WithoutMark(text))
    case Block(header, body) =>
      var s := ReadHeader(header);
      if s.kind in {"atomic", "for_each", "when"} then s.(statements := ReadNodes(body))
      else s.(payload := ReadPayload(body))
  }

  function ReadNodes(nodes: seq<Node>): seq<Statement>
    decreases nodes, 0
  {
    if nodes == [] then [] else [ReadNode(nodes[0])] + ReadNodes(nodes[1..])
  }

  // ---------------------------------------------------------------------------------- separators

  /** No separator starts within the text that one follows. */
  predicate Clean(text: string, sep: string) {
    forall i :: 0 <= i < |text| ==> !StartsWith((text + sep)[i..], sep)
  }

  predicate Free(text: string, sep: string) {
    forall i :: 0 <= i < |text| ==> !StartsWith(text[i..], sep)
  }

  /** No part of the statement has the separator in it that the grammar puts after the part. */
  predicate Separable(s: Statement)
    requires Printable(s)
    decreases s, 1
  {
    && (s.kind == "set" ==> Clean(Normalized(s.assignable.value), " = "))
    && (s.kind == "acquire_lease" ==>
          if s.binding.Some? then Clean(s.target.value, " as ") else Free(s.target.value, " as "))
    && (s.kind == "for_each" ==> Clean(s.binding.value, " in "))
    && (s.kind == "observe_child" ==> Clean(s.target.value, " by ") && Clean(s.binding.value, " = "))
    && (s.kind == "move" ==>
          Clean(Normalized(s.expression.value), " from ") && Clean(Normalized(s.fromAssignable.value), " to "))
    && (Payload in PartsOf(s.kind).value ==>
          forall i :: 0 <= i < |s.payload| ==> Clean(s.payload[i].name, " = "))
    && (Statements in PartsOf(s.kind).value ==> AllSeparable(s.statements))
  }

  predicate AllSeparable(statements: seq<Statement>)
    decreases statements, 0
  {
    statements == [] || ((Printable(statements[0]) ==> Separable(statements[0])) && AllSeparable(statements[1..]))
  }

  /** Splitting at the first separator gives the parts back exactly if the first one is clean. */
  lemma SplitJoined(a: string, sep: string, b: string)
    requires sep != ""
    ensures var (x, y) := SplitAt(a + sep + b, sep);
      && y.Some?
      && (x == a <==> Clean(a, sep))
      && (Clean(a, sep) ==> y == Some(b))
  {
    var text := a + sep + b;
    assert text[|a|..][..|sep|] == sep;
    assert StartsWith(text[|a|..], sep);
    forall i | 0 <= i < |a| ensures StartsWith(text[i..], sep) <==> StartsWith((a + sep)[i..], sep) {
      assert text[i..][..|sep|] == (a + sep)[i..][..|sep|];
    }
    var i := FirstOf(text, sep, 0);
    assert i <= |a|;
    if i == |a| { assert text[i + |sep|..] == b && text[..i] == a; }
  }

  lemma SplitUnjoined(a: string, sep: string)
    requires sep != ""
    ensures SplitAt(a, sep) == (a, None) <==> Free(a, sep)
  {
    var i := FirstOf(a, sep, 0);
  }

  lemma WordFirst(word: string, rest: string)
    requires ' ' !in word
    ensures FirstWord(word + " " + rest) == (word, Some(rest)) && FirstWord(word) == (word, None)
  {
    assert word + " " + rest == word + [' '] + rest;
    IndexOfFirst(word, rest, ' ');
    assert (word + " " + rest)[..|word|] == word && (word + " " + rest)[|word| + 1..] == rest;
  }

  lemma MarkTakenOff(text: string)
    ensures WithoutMark(text + ";") == text
  {
    assert (text + ";")[|text|..] == ";" && (text + ";")[..|text|] == text;
  }

  // ---------------------------------------------------------------------------------- reading back

  /** A statement is printed as one node, which reads back exactly if its parts can be told apart. */
  ghost predicate ReadsBack(s: Statement)
    requires Printable(s)
  {
    |Nodes(s)| == 1 && (ReadNode(Nodes(s)[0]) == Shown(s) <==> Separable(s))
  }

  lemma LineRead(text: string)
    ensures ReadNode(WorkflowText.Line(text)[0]) == ReadHeader(text)
  {
    MarkTakenOff(text);
  }

  lemma OtherHeader(text: string)
    requires FirstWord(text).0 in {
      "for_each", "when", "create", "observe", "move", "reserve", "materialize", "reconcile"}
    ensures ReadHeader(text) == ReadOther(FirstWord(text).0, FirstWord(text).1)
  {
    hide FirstWord, SplitAt, AfterWord, ReadOther;
  }

  /** A line of a keyword and one part. */
  lemma OneWord(word: string, rest: string)
    requires ' ' !in word
    ensures FirstWord(word + " " + rest) == (word, Some(rest)) && AfterWord(Some(word + " " + rest), word) == Some(rest)
  {
    WordFirst(word, rest);
  }

  /** A line of two keywords and one part. */
  lemma TwoWords(first: string, second: string, rest: string)
    requires ' ' !in first && ' ' !in second
    ensures var text := first + " " + (second + " " + rest);
      FirstWord(text).0 == first && AfterWord(FirstWord(text).1, second) == Some(rest)
  {
    WordFirst(first, second + " " + rest);
    WordFirst(second, rest);
  }

  lemma ReadsRequire(s: Statement)
    requires s.kind == "require" && Printable(s)
    ensures ReadsBack(s)
  {
    hide Normalized, FirstWord, SplitAt, Clean, Free, IndexOf;
    var e := Normalized(s.expression.value);
    assert "require " + e == "require" + " " + e;
    OneWord("require", e);
    LineRead("require " + e);
  }

  lemma ReadsSet(s: Statement)
    requires s.kind == "set" && Printable(s)
    ensures ReadsBack(s)
  {
    hide Normalized, FirstWord, SplitAt, Clean, Free, IndexOf;
    var a, e := Normalized(s.assignable.value), Normalized(s.expression.value);
    assert "set " + a + " = " + e == "set" + " " + (a + " = " + e);
    OneWord("set", a + " = " + e);
    SplitJoined(a, " = ", e);
    LineRead("set " + a + " = " + e);
  }

  lemma {:induction false} PayloadNodesAre(payload: seq<Assignment>)
    ensures |PayloadNodes(payload)| == |payload|
    ensures forall i :: 0 <= i < |payload| ==>
      PayloadNodes(payload)[i] == Leaf(payload[i].name + " = " + Normalized(payload[i].expression) + ";")
  {
    hide Normalized;
    if payload != [] { PayloadNodesAre(payload[1..]); }
  }

  /** A payload reads back exactly if the names have no separator in them. */
  lemma PayloadReadsBack(payload: seq<Assignment>)
    ensures ReadPayload(PayloadNodes(payload)) == TidiedPayload(payload) <==>
      forall i :: 0 <= i < |payload| ==> Clean(payload[i].name, " = ")
  {
    hide Normalized, SplitAt, Clean, PayloadNodes, WithoutMark;
    PayloadNodesAre(payload);
    var read, tidied := ReadPayload(PayloadNodes(payload)), TidiedPayload(payload);
    forall i | 0 <= i < |payload| ensures read[i] == tidied[i] <==> Clean(payload[i].name, " = ") {
      var e := Normalized(payload[i].expression);
      MarkTakenOff(payload[i].name + " = " + e);
      SplitJoined(payload[i].name, " = ", e);
    }
  }

  lemma ReadsEmit(s: Statement)
    requires s.kind == "emit" && Printable(s)
    ensures ReadsBack(s)
  {
    hide Normalized, FirstWord, SplitAt, Clean, Free, IndexOf, ReadPayload, PayloadNodes, TidiedPayload;
    var t := s.target.value;
    assert "emit" + " " + t == "emit " + t;
    OneWord("emit", t);
    PayloadReadsBack(s.payload);
    EmptyPayload();
    LineRead("emit " + t);
  }

  lemma ReadsEnqueue(s: Statement)
    requires s.kind == "enqueue" && Printable(s)
    ensures ReadsBack(s)
  {
    hide Normalized, FirstWord, SplitAt, Clean, Free, IndexOf, ReadPayload, PayloadNodes, TidiedPayload;
    var t := s.target.value;
    assert "enqueue" + " " + t == "enqueue " + t;
    OneWord("enqueue", t);
    PayloadReadsBack(s.payload);
    EmptyPayload();
    LineRead("enqueue " + t);
  }

  lemma EmptyPayload()
    ensures ReadPayload([]) == [] && TidiedPayload([]) == []
  {
  }

  lemma StartRead(t: string)
    ensures ReadHeader("start workflow " + t) == NO_PARTS.(kind := "start_workflow", target := Some(t))
  {
    hide FirstWord, SplitAt, IndexOf;
    var text := "start workflow " + t;
    assert text == "start" + " " + ("workflow" + " " + t);
    TwoWords("start", "workflow", t);
  }

  lemma ReadsStart(s: Statement)
    requires s.kind == "start_workflow" && Printable(s)
    ensures ReadsBack(s)
  {
    hide ReadHeader, Normalized, Clean, ReadPayload, PayloadNodes, TidiedPayload;
    var text := "start workflow " + s.target.value;
    assert Nodes(s) == WithPayload(text, s.payload);
    StartRead(s.target.value);
    PayloadReadsBack(s.payload);
    EmptyPayload();
    LineRead(text);
  }

  lemma CreateRead(t: string)
    ensures ReadHeader("create child " + t) == NO_PARTS.(kind := "create_child", target := Some(t))
  {
    hide FirstWord, SplitAt, IndexOf;
    var text := "create child " + t;
    assert text == "create" + " " + ("child" + " " + t);
    TwoWords("create", "child", t);
    OtherHeader(text);
    hide ReadHeader;
  }

  lemma ReadsCreate(s: Statement)
    requires s.kind == "create_child" && Printable(s)
    ensures ReadsBack(s)
  {
    hide ReadHeader, Normalized, Clean, ReadPayload, PayloadNodes, TidiedPayload;
    assert Nodes(s) == OtherNodes(s) == Nest("create child " + s.target.value, PayloadNodes(s.payload));
    CreateRead(s.target.value);
    PayloadReadsBack(s.payload);
  }

  lemma AcquireRead(t: string, binding: Option<string>)
    ensures var (read, whole) := (
      ReadHeader("acquire lease " + t + (if binding.Some? then " as " + binding.value else "")),
      NO_PARTS.(kind := "acquire_lease", target := Some(t), binding := binding));
      read == whole <==> if binding.Some? then Clean(t, " as ") else Free(t, " as ")
  {
    hide FirstWord, SplitAt, Clean, Free, IndexOf;
    var text := "acquire lease " + t + (if binding.Some? then " as " + binding.value else "");
    if binding.Some? {
      assert text == "acquire" + " " + ("lease" + " " + (t + " as " + binding.value));
      TwoWords("acquire", "lease", t + " as " + binding.value);
      SplitJoined(t, " as ", binding.value);
    } else {
      assert text == "acquire" + " " + ("lease" + " " + t);
      TwoWords("acquire", "lease", t);
      SplitUnjoined(t, " as ");
    }
  }

  lemma ReadsAcquire(s: Statement)
    requires s.kind == "acquire_lease" && Printable(s)
    ensures ReadsBack(s)
  {
    hide ReadHeader, Clean, Free;
    var t := s.target.value;
    var text := "acquire lease " + t + (if s.binding.Some? then " as " + s.binding.value else "");
    assert Nodes(s) == WorkflowText.Line(text);
    AcquireRead(t, s.binding);
    LineRead(text);
  }

  lemma RenewRead(t: string)
    ensures ReadHeader("renew lease " + t) == NO_PARTS.(kind := "renew_lease", target := Some(t))
  {
    hide FirstWord, SplitAt, IndexOf;
    var text := "renew lease " + t;
    assert text == "renew" + " " + ("lease" + " " + t);
    TwoWords("renew", "lease", t);
  }

  lemma ReadsRenew(s: Statement)
    requires s.kind == "renew_lease" && Printable(s)
    ensures ReadsBack(s)
  {
    hide ReadHeader;
    var text := "renew lease " + s.target.value;
    assert Nodes(s) == WorkflowText.Line(text);
    RenewRead(s.target.value);
    LineRead(text);
  }

  lemma ReleaseRead(t: string)
    ensures ReadHeader("release lease " + t) == NO_PARTS.(kind := "release_lease", target := Some(t))
  {
    hide FirstWord, SplitAt, IndexOf;
    var text := "release lease " + t;
    assert text == "release" + " " + ("lease" + " " + t);
    TwoWords("release", "lease", t);
  }

  lemma ReadsRelease(s: Statement)
    requires s.kind == "release_lease" && Printable(s)
    ensures ReadsBack(s)
  {
    hide ReadHeader;
    var text := "release lease " + s.target.value;
    assert Nodes(s) == WorkflowText.Line(text);
    ReleaseRead(s.target.value);
    LineRead(text);
  }

  lemma ReserveRead(t: string)
    ensures ReadHeader("reserve child_set " + t) == NO_PARTS.(kind := "reserve_child_set", target := Some(t))
  {
    hide FirstWord, SplitAt, IndexOf;
    var text := "reserve child_set " + t;
    assert text == "reserve" + " " + ("child_set" + " " + t);
    TwoWords("reserve", "child_set", t);
    OtherHeader(text);
    hide ReadHeader;
  }

  lemma ReadsReserve(s: Statement)
    requires s.kind == "reserve_child_set" && Printable(s)
    ensures ReadsBack(s)
  {
    hide ReadHeader, Normalized, Free, Clean;
    var text := "reserve child_set " + s.target.value;
    assert Nodes(s) == OtherNodes(s) == WorkflowText.Line(text);
    ReserveRead(s.target.value);
    LineRead(text);
  }

  lemma MaterializeRead(t: string)
    ensures ReadHeader("materialize child_set " + t) == NO_PARTS.(kind := "materialize_child_set", target := Some(t))
  {
    hide FirstWord, SplitAt, IndexOf;
    var text := "materialize child_set " + t;
    assert text == "materialize" + " " + ("child_set" + " " + t);
    TwoWords("materialize", "child_set", t);
    OtherHeader(text);
    hide ReadHeader;
  }

  lemma ReadsMaterialize(s: Statement)
    requires s.kind == "materialize_child_set" && Printable(s)
    ensures ReadsBack(s)
  {
    hide ReadHeader;
    var text := "materialize child_set " + s.target.value;
    assert Nodes(s) == OtherNodes(s) == WorkflowText.Line(text);
    MaterializeRead(s.target.value);
    LineRead(text);
  }

  lemma ReconcileRead(t: string)
    ensures ReadHeader("reconcile child_set " + t) == NO_PARTS.(kind := "reconcile_child_set", target := Some(t))
  {
    hide FirstWord, SplitAt, IndexOf;
    var text := "reconcile child_set " + t;
    assert text == "reconcile" + " " + ("child_set" + " " + t);
    TwoWords("reconcile", "child_set", t);
    OtherHeader(text);
    hide ReadHeader;
  }

  lemma ReadsReconcile(s: Statement)
    requires s.kind == "reconcile_child_set" && Printable(s)
    ensures ReadsBack(s)
  {
    hide ReadHeader;
    var text := "reconcile child_set " + s.target.value;
    assert Nodes(s) == OtherNodes(s) == WorkflowText.Line(text);
    ReconcileRead(s.target.value);
    LineRead(text);
  }

  lemma TransitionRead(t: string)
    ensures ReadHeader("transition_to " + t) == NO_PARTS.(kind := "transition_to", target := Some(t))
  {
    hide FirstWord, SplitAt, IndexOf;
    assert "transition_to " + t == "transition_to" + " " + t;
    OneWord("transition_to", t);
  }

  lemma ReadsTransition(s: Statement)
    requires s.kind == "transition_to" && Printable(s)
    ensures ReadsBack(s)
  {
    hide ReadHeader;
    var text := "transition_to " + s.target.value;
    assert Nodes(s) == WorkflowText.Line(text);
    TransitionRead(s.target.value);
    LineRead(text);
  }

  lemma ReadsComplete(s: Statement)
    requires s.kind == "complete" && Printable(s)
    ensures ReadsBack(s)
  {
    hide Normalized, FirstWord, SplitAt, Clean, Free, IndexOf;
    WordFirst("complete", "");
    LineRead("complete");
  }

  lemma ReadsFail(s: Statement)
    requires s.kind == "fail" && Printable(s)
    ensures ReadsBack(s)
  {
    hide Normalized, FirstWord, SplitAt, Clean, Free, IndexOf;
    WordFirst("fail", "");
    LineRead("fail");
    if s.expression.Some? {
      var e := Normalized(s.expression.value);
      assert "fail" + " " + e == "fail " + e;
      OneWord("fail", e);
      LineRead("fail " + e);
    }
  }

  lemma ObserveRead(t: string, b: string, e: string)
    ensures var (read, whole) := (
      ReadHeader("observe child " + t + " by " + b + " = " + e),
      NO_PARTS.(kind := "observe_child", target := Some(t), binding := Some(b), expression := Some(e)));
      read == whole <==> Clean(t, " by ") && Clean(b, " = ")
  {
    hide FirstWord, SplitAt, Clean, IndexOf;
    var text, field := "observe child " + t + " by " + b + " = " + e, b + " = " + e;
    assert text == "observe" + " " + ("child" + " " + (t + " by " + field));
    TwoWords("observe", "child", t + " by " + field);
    OtherHeader(text);
    hide ReadHeader;
    SplitJoined(t, " by ", field);
    SplitJoined(b, " = ", e);
  }

  lemma ReadsObserve(s: Statement)
    requires s.kind == "observe_child" && Printable(s)
    ensures ReadsBack(s)
  {
    hide ReadHeader, Normalized, Clean;
    var t, b, e := s.target.value, s.binding.value, Normalized(s.expression.value);
    var text := "observe child " + t + " by " + b + " = " + e;
    assert Nodes(s) == OtherNodes(s) == WorkflowText.Line(text);
    ObserveRead(t, b, e);
    LineRead(text);
  }

  lemma MoveRead(e: string, a: string, b: string)
    ensures var (read, whole) := (
      ReadHeader("move " + e + " from " + a + " to " + b),
      NO_PARTS.(kind := "move", expression := Some(e), fromAssignable := Some(a), toAssignable := Some(b)));
      read == whole <==> Clean(e, " from ") && Clean(a, " to ")
  {
    hide FirstWord, SplitAt, Clean, IndexOf;
    var text, ends := "move " + e + " from " + a + " to " + b, a + " to " + b;
    assert text == "move" + " " + (e + " from " + ends);
    OneWord("move", e + " from " + ends);
    OtherHeader(text);
    hide ReadHeader;
    SplitJoined(e, " from ", ends);
    SplitJoined(a, " to ", b);
  }

  lemma ReadsMove(s: Statement)
    requires s.kind == "move" && Printable(s)
    ensures ReadsBack(s)
  {
    hide ReadHeader, Normalized, Clean;
    var e := Normalized(s.expression.value);
    var a, b := Normalized(s.fromAssignable.value), Normalized(s.toAssignable.value);
    var text := "move " + e + " from " + a + " to " + b;
    assert Nodes(s) == OtherNodes(s) == WorkflowText.Line(text);
    MoveRead(e, a, b);
    LineRead(text);
  }

  lemma ReadsAtomic(s: Statement)
    requires s.kind == "atomic" && Printable(s)
    ensures ReadsBack(s)
    decreases s, 1
  {
    hide Normalized, FirstWord, SplitAt, Clean, Free, IndexOf, ReadNodes, NodesOf, ShownAll, AllSeparable;
    WordFirst("atomic", "");
    AllReadBack(s.statements);
  }

  lemma ReadsWhen(s: Statement)
    requires s.kind == "when" && Printable(s)
    ensures ReadsBack(s)
    decreases s, 1
  {
    hide Normalized, FirstWord, SplitAt, Clean, Free, IndexOf, ReadNodes, NodesOf, ShownAll, AllSeparable;
    assert Nodes(s) == OtherNodes(s);
    var e := Normalized(s.expression.value);
    assert "when" + " " + e == "when " + e;
    OneWord("when", e);
    AllReadBack(s.statements);
  }

  lemma ForEachRead(b: string, e: string)
    ensures ReadHeader("for_each " + b + " in " + e).kind == "for_each"
    ensures var (read, whole) := (
      ReadHeader("for_each " + b + " in " + e),
      NO_PARTS.(kind := "for_each", binding := Some(b), expression := Some(e)));
      read == whole <==> Clean(b, " in ")
    ensures ReadHeader("for_each " + b + " in " + e).statements == []
  {
    hide FirstWord, SplitAt, Clean, IndexOf;
    var text := "for_each " + b + " in " + e;
    assert text == "for_each" + " " + (b + " in " + e);
    OneWord("for_each", b + " in " + e);
    OtherHeader(text);
    hide ReadHeader;
    SplitJoined(b, " in ", e);
  }

  lemma ReadsForEach(s: Statement)
    requires s.kind == "for_each" && Printable(s)
    ensures ReadsBack(s)
    decreases s, 1
  {
    hide ReadHeader, Normalized, Clean, ReadNodes, NodesOf, ShownAll, AllSeparable;
    var b, e := s.binding.value, Normalized(s.expression.value);
    assert Nodes(s) == OtherNodes(s) == Nest("for_each " + b + " in " + e, NodesOf(s.statements));
    ForEachRead(b, e);
    AllReadBack(s.statements);
  }

  lemma StatementReadsBack(s: Statement)
    requires Printable(s)
    ensures ReadsBack(s)
    decreases s, 2
  {
    hide ReadsBack;
    match s.kind {
      case "require" => ReadsRequire(s);
      case "set" => ReadsSet(s);
      case "emit" => ReadsEmit(s);
      case "enqueue" => ReadsEnqueue(s);
      case "acquire_lease" => ReadsAcquire(s);
      case "renew_lease" => ReadsRenew(s);
      case "release_lease" => ReadsRelease(s);
      case "start_workflow" => ReadsStart(s);
      case "transition_to" => ReadsTransition(s);
      case "complete" => ReadsComplete(s);
      case "fail" => ReadsFail(s);
      case "atomic" => ReadsAtomic(s);
      case "for_each" => ReadsForEach(s);
      case "when" => ReadsWhen(s);
      case "create_child" => ReadsCreate(s);
      case "observe_child" => ReadsObserve(s);
      case "move" => ReadsMove(s);
      case "reserve_child_set" => ReadsReserve(s);
      case "materialize_child_set" => ReadsMaterialize(s);
      case "reconcile_child_set" => ReadsReconcile(s);
    }
  }

  lemma UnprintedStatement(s: Statement)
    requires !Printable(s)
    ensures Nodes(s) == []
  {
    assert OtherNodes(s) == [] by { UnprintedOther(s); }
    hide Normalized, PayloadNodes, NodesOf, OtherNodes, Nest, WithPayload, WorkflowText.Line;
  }

  lemma UnprintedOther(s: Statement)
    requires !Printable(s)
    ensures OtherNodes(s) == []
  {
    hide Normalized, PayloadNodes, NodesOf, Nest, WithPayload, WorkflowText.Line;
  }

  /**
   The reader gives back what the statements show, at any depth, exactly if no part has in it the
   separator that comes after it.
   */
  lemma {:induction false} AllReadBack(statements: seq<Statement>)
    ensures ReadNodes(NodesOf(statements)) == ShownAll(statements) <==> AllSeparable(statements)
    ensures |ReadNodes(NodesOf(statements))| == |ShownAll(statements)|
    decreases statements, 3
  {
    if statements != [] {
      var first, rest := statements[0], statements[1..];
      AllReadBack(rest);
      AllFront(statements);
      hide *;
      if Printable(first) {
        StatementReadsBack(first);
        FirstReadsBack(first, NodesOf(rest), ShownAll(rest));
      } else {
        UnprintedStatement(first);
        assert [] + NodesOf(rest) == NodesOf(rest) && [] + ShownAll(rest) == ShownAll(rest);
      }
    }
  }

  lemma AllFront(statements: seq<Statement>)
    requires statements != []
    ensures var first, rest := statements[0], statements[1..];
      && NodesOf(statements) == Nodes(first) + NodesOf(rest)
      && ShownAll(statements) == (if Printable(first) then [Shown(first)] else []) + ShownAll(rest)
      && (AllSeparable(statements) <==> (Printable(first) ==> Separable(first)) && AllSeparable(rest))
  {
    hide Nodes, Shown, Separable, Printable;
  }

  /** A statement in front of others that are read. */
  lemma FirstReadsBack(first: Statement, nodes: seq<Node>, shown: seq<Statement>)
    requires Printable(first) && ReadsBack(first)
    ensures var read := ReadNodes(Nodes(first) + nodes);
      && (read == [Shown(first)] + shown <==> Separable(first) && ReadNodes(nodes) == shown)
      && |read| == 1 + |ReadNodes(nodes)|
  {
    hide Nodes, ReadNode, Shown, Separable, Printable;
    var node := Nodes(first)[0];
    assert Nodes(first) + nodes == [node] + nodes && ([node] + nodes)[1..] == nodes;
    assert ReadNodes([node] + nodes) == [ReadNode(node)] + ReadNodes(nodes);
    ConsEqual(ReadNode(node), ReadNodes(nodes), Shown(first), shown);
  }

  lemma ConsEqual<T>(a: T, x: seq<T>, b: T, y: seq<T>)
    ensures [a] + x == [b] + y <==> a == b && x == y
  {
    if [a] + x == [b] + y {
      assert ([a] + x)[0] == ([b] + y)[0] && ([a] + x)[1..] == x && ([b] + y)[1..] == y;
    }
  }

  /** The text of statements, read line by line and then word by word, gives them back under that condition. */
  lemma TextReadsBack(statements: seq<Statement>, depth: nat)
    requires OnOneLine(NodesOf(statements))
    ensures var lines := Split(Text(WorkflowText.Lines(NodesOf(statements), depth)));
      ReadNodes(Read(lines, depth).0) == ShownAll(statements) <==> AllSeparable(statements)
  {
    StatementsRecovered(statements, depth);
    AllReadBack(statements);
  }
}
