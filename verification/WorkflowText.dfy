/** Workflow statements, the nested lines they are printed as, and a reader for those lines. */
module WorkflowText {
  import opened Options
  import opened Expressions
  import opened Strings

  datatype Assignment = Assignment(name: string, expression: string)

  datatype Statement = Statement(
    kind: string, target: Option<string>, binding: Option<string>,
    assignable: Option<string>, expression: Option<string>,
    fromAssignable: Option<string>, toAssignable: Option<string>,
    payload: seq<Assignment>, statements: seq<Statement>)

  /** Printed text is a forest: single lines, and headers with a body in braces. */
  datatype Node = Leaf(text: string) | Block(header: string, body: seq<Node>)

  predicate EndsWith(s: string, p: string) {
    |p| <= |s| && s[|s| - |p|..] == p
  }

  /** Leaves end in a semicolon. */
  ghost predicate LeavesClosed(nodes: seq<Node>)
    decreases nodes
  {
    forall i :: 0 <= i < |nodes| ==>
      match nodes[i]
      case Leaf(text) => EndsWith(text, ";")
      case Block(_, body) => LeavesClosed(body)
  }

  /** A line closed by a semicolon. */
  function Line(text: string): (r: seq<Node>)
    ensures LeavesClosed(r)
  {
    [Leaf(text + ";")]
  }

  function Nest(header: string, body: seq<Node>): (r: seq<Node>)
    ensures LeavesClosed(body) ==> LeavesClosed(r)
  {
    [Block(header, body)]
  }

  function PayloadNodes(payload: seq<Assignment>): (r: seq<Node>)
    ensures LeavesClosed(r)
  {
    if payload == [] then []
    else Line(payload[0].name + " = " + Normalized(payload[0].expression)) + PayloadNodes(payload[1..])
  }

  function WithPayload(header: string, payload: seq<Assignment>): (r: seq<Node>)
    ensures LeavesClosed(r)
  {
    if payload == [] then Line(header) else Nest(header, PayloadNodes(payload))
  }

  /** What a statement is printed as; a statement that lacks what its kind needs is not printed. */
  function Nodes(s: Statement): (r: seq<Node>)
    ensures LeavesClosed(r)
    decreases s, 1
  {
    hide Normalized;
    if s.kind == "require" && s.expression.Some? then
      Line("require " + Normalized(s.expression.value))
    else if s.kind == "set" && s.assignable.Some? && s.expression.Some? then
      Line("set " + Normalized(s.assignable.value) + " = " + Normalized(s.expression.value))
    else if (s.kind == "emit" || s.kind == "enqueue") && s.target.Some? then
      WithPayload(s.kind + " " + s.target.value, s.payload)
    else if s.kind == "acquire_lease" && s.target.Some? then
      Line("acquire lease " + s.target.value + (if s.binding.Some? then " as " + s.binding.value else ""))
    else if s.kind == "renew_lease" && s.target.Some? then
      Line("renew lease " + s.target.value)
    else if s.kind == "release_lease" && s.target.Some? then
      Line("release lease " + s.target.value)
    else if s.kind == "start_workflow" && s.target.Some? then
      WithPayload("start workflow " + s.target.value, s.payload)
    else if s.kind == "transition_to" && s.target.Some? then
      Line("transition_to " + s.target.value)
    else if s.kind == "complete" then
      Line("complete")
    else if s.kind == "fail" then
      Line(if s.expression.Some? then "fail " + Normalized(s.expression.value) else "fail")
    else if s.kind == "atomic" then
      Nest("atomic", NodesOf(s.statements))
    else OtherNodes(s)
  }

  function OtherNodes(s: Statement): (r: seq<Node>)
    ensures LeavesClosed(r)
    decreases s, 0
  {
    hide Normalized;
    if s.kind == "for_each" && s.binding.Some? && s.expression.Some? then
      Nest("for_each " + s.binding.value + " in " + Normalized(s.expression.value), NodesOf(s.statements))
    else if s.kind == "when" && s.expression.Some? then
      Nest("when " + Normalized(s.expression.value), NodesOf(s.statements))
    else if s.kind == "create_child" && s.target.Some? then
      Nest("create child " + s.target.value, PayloadNodes(s.payload))
    else if s.kind == "observe_child" && s.target.Some? && s.binding.Some? && s.expression.Some? then
      Line("observe child " + s.target.value + " by " + s.binding.value + " = "
            + Normalized(s.expression.value))
    else if s.kind == "move" && s.expression.Some? && s.fromAssignable.Some? && s.toAssignable.Some? then
      Line("move " + Normalized(s.expression.value) + " from " + Normalized(s.fromAssignable.value)
            + " to " + Normalized(s.toAssignable.value))
    else if s.kind == "reserve_child_set" && s.target.Some? then
      Line("reserve child_set " + s.target.value)
    else if s.kind == "materialize_child_set" && s.target.Some? then
      Line("materialize child_set " + s.target.value)
    else if s.kind == "reconcile_child_set" && s.target.Some? then
      Line("reconcile child_set " + s.target.value)
    else []
  }

  function NodesOf(statements: seq<Statement>): (r: seq<Node>)
    ensures LeavesClosed(r)
    decreases statements, 0
  {
    if statements == [] then [] else Nodes(statements[0]) + NodesOf(statements[1..])
  }

  // ------------------------------------------------------------------------------ lines and text

  /** The lines of a forest at a nesting depth. */
  function Lines(nodes: seq<Node>, depth: nat): seq<string>
    decreases nodes
  {
    if nodes == [] then []
    else
      (match nodes[0]
       case Leaf(text) => [Indent(depth) + text]
       case Block(header, body) =>
         [Indent(depth) + (header + " {")] + Lines(body, depth + 1) + [Indent(depth) + "}"])
      + Lines(nodes[1..], depth)
  }

  /** Lines as text, each ended by a newline. */
  function Text(lines: seq<string>): string {
    if lines == [] then "" else lines[0] + "\n" + Text(lines[1..])
  }

  lemma {:induction false} TextConcat(a: seq<string>, b: seq<string>)
    ensures Text(a + b) == Text(a) + Text(b)
  {
    if a == [] {
      assert a + b == b;
    } else {
      assert (a + b)[1..] == a[1..] + b;
      TextConcat(a[1..], b);
    }
  }

  lemma {:induction false} LinesConcat(a: seq<Node>, b: seq<Node>, depth: nat)
    ensures Lines(a + b, depth) == Lines(a, depth) + Lines(b, depth)
  {
    if a == [] {
      assert a + b == b;
    } else {
      assert (a + b)[1..] == a[1..] + b;
      LinesConcat(a[1..], b, depth);
    }
  }

  // -------------------------------------------------------------------------------- the reader

  /** Cuts text into its lines. */
  function Split(text: string): seq<string>
    decreases |text|
  {
    if text == "" then []
    else
      var k := LineEnd(text);
      [text[..k]] + if k < |text| then Split(text[k + 1..]) else []
  }

  function LineEnd(text: string): (k: nat)
    ensures k <= |text| && (k < |text| ==> text[k] == '\n')
    ensures forall i :: 0 <= i < k ==> text[i] != '\n'
  {
    if text == "" || text[0] == '\n' then 0
    else
      LineEnd(text[1..]) + 1
  }

  /** A line that is a closing brace, but for the spaces before it. */
  predicate IsClose(line: string) {
    line != "" && line[|line| - 1] == '}' && forall i :: 0 <= i < |line| - 1 ==> line[i] == ' '
  }

  /** A line without the spaces of its depth. */
  function Unindented(line: string, depth: nat): string {
    if |line| < 2 * depth then line else line[2 * depth..]
  }

  /**
   Reads a forest, telling lines by their ends: a closing brace ends it, a line ending in ` {` opens
   a block, any other line is a leaf.  The depth only says how many spaces to take off.  Gives the
   forest and the lines left.
   */
  function Read(lines: seq<string>, depth: nat): (r: (seq<Node>, seq<string>))
    ensures |r.1| <= |lines|
    decreases |lines|
  {
    if lines == [] || IsClose(lines[0]) then ([], lines)
    else
      var text := Unindented(lines[0], depth);
      if EndsWith(text, " {") then
        var (body, rest) := Read(lines[1..], depth + 1);
        if rest == [] then ([], lines)
        else
          var (more, left) := Read(rest[1..], depth);
          ([Block(text[..|text| - 2], body)] + more, left)
      else
        var (more, left) := Read(lines[1..], depth);
        ([Leaf(text)] + more, left)
  }

  /** Lines told by their ends are indented by the number of blocks open. */
  predicate Indented(lines: seq<string>, depth: nat)
    decreases |lines|
  {
    lines == [] ||
    if IsClose(lines[0]) then depth > 0 && lines[0] == Indent(depth - 1) + "}" && Indented(lines[1..], depth - 1)
    else Indent(depth) <= lines[0] && Indented(lines[1..], if EndsWith(lines[0], " {") then depth + 1 else depth)
  }

  /** No line of the forest has a newline in it. */
  ghost predicate OnOneLine(nodes: seq<Node>)
    decreases nodes
  {
    forall i :: 0 <= i < |nodes| ==>
      match nodes[i]
      case Leaf(text) => '\n' !in text
      case Block(header, body) => '\n' !in header && OnOneLine(body)
  }

  lemma {:induction false} IndentLength(n: nat)
    ensures |Indent(n)| == 2 * n && forall i :: 0 <= i < 2 * n ==> Indent(n)[i] == ' '
  {
    if n > 0 {
      IndentLength(n - 1);
      forall i | 0 <= i < 2 * n ensures Indent(n)[i] == ' ' {
        if i >= 2 { assert Indent(n)[i] == Indent(n - 1)[i - 2]; }
      }
    }
  }

  /** An indented line that ends in another character is no closing brace, and its depth gives its text. */
  lemma IndentedLine(text: string, depth: nat)
    requires text != "" && text[|text| - 1] != '}'
    ensures var line := Indent(depth) + text;
      && Unindented(line, depth) == text && !IsClose(line) && Indent(depth) <= line
      && (forall p :: |p| <= |text| ==> (EndsWith(line, p) <==> EndsWith(text, p)))
  {
    IndentLength(depth);
    hide Indent;
    var line := Indent(depth) + text;
    assert line[|line| - 1] == text[|text| - 1];
    hide IsClose, Unindented;
    forall p | |p| <= |text| ensures EndsWith(line, p) <==> EndsWith(text, p) {
      assert line[|line| - |p|..] == text[|text| - |p|..];
    }
  }

  lemma ClosingLine(depth: nat)
    ensures IsClose(Indent(depth) + "}")
  {
    IndentLength(depth);
  }

  /** What may follow a forest for the reader to stop there: nothing, or a closing brace. */
  ghost predicate StopsAt(tail: seq<string>) {
    tail == [] || IsClose(tail[0])
  }

  /** The reader undoes the printer, at any depth and whatever closes the forest. */
  lemma {:induction false} ReadLines(nodes: seq<Node>, depth: nat, tail: seq<string>)
    requires LeavesClosed(nodes) && StopsAt(tail)
    ensures Read(Lines(nodes, depth) + tail, depth) == (nodes, tail)
    decreases nodes
  {
    hide Read, Indent;
    if nodes == [] {
      assert Lines(nodes, depth) + tail == tail;
      ReadStops(depth, tail);
    } else {
      var rest := Lines(nodes[1..], depth) + tail;
      ReadLines(nodes[1..], depth, tail);
      LinesHead(nodes, depth, tail);
      match nodes[0]
      case Leaf(text) =>
        ReadLeaf(text, depth, rest);
      case Block(header, body) =>
        var close := [Indent(depth) + "}"] + rest;
        assert close[1..] == rest;
        ClosingLine(depth);
        ReadLines(body, depth + 1, close);
        ReadBlock(header, body, depth, Lines(body, depth + 1) + close, close);
    }
  }

  /** The lines of a forest, seen from the front. */
  lemma LinesHead(nodes: seq<Node>, depth: nat, tail: seq<string>)
    requires nodes != []
    ensures nodes == [nodes[0]] + nodes[1..]
    ensures var rest := Lines(nodes[1..], depth) + tail;
      Lines(nodes, depth) + tail ==
      match nodes[0]
      case Leaf(text) => [Indent(depth) + text] + rest
      case Block(header, body) =>
        [Indent(depth) + (header + " {")] + (Lines(body, depth + 1) + ([Indent(depth) + "}"] + rest))
  {
    hide Indent;
    var after := Lines(nodes[1..], depth);
    match nodes[0]
    case Leaf(_) =>
    case Block(header, body) =>
  }

  lemma ReadStops(depth: nat, tail: seq<string>)
    requires StopsAt(tail)
    ensures Read(tail, depth) == ([], tail)
  {
  }

  lemma ReadLeaf(text: string, depth: nat, rest: seq<string>)
    requires EndsWith(text, ";")
    ensures var after := Read(rest, depth);
      Read([Indent(depth) + text] + rest, depth) == ([Leaf(text)] + after.0, after.1)
  {
    LeafEnds(text);
    IndentedLine(text, depth);
    hide Indent, IsClose, Unindented, EndsWith;
    assert ([Indent(depth) + text] + rest)[1..] == rest;
  }

  lemma LeafEnds(text: string)
    requires EndsWith(text, ";")
    ensures text != "" && text[|text| - 1] == ';' && !EndsWith(text, " {")
  {
    assert text[|text| - 1..][0] == text[|text| - 1];
    assert |text| >= 2 ==> text[|text| - 2..][1] == text[|text| - 1];
  }

  lemma ReadBlock(header: string, body: seq<Node>, depth: nat, inside: seq<string>, close: seq<string>)
    requires Read(inside, depth + 1) == (body, close) && close != []
    ensures var after := Read(close[1..], depth);
      Read([Indent(depth) + (header + " {")] + inside, depth) == ([Block(header, body)] + after.0, after.1)
  {
    var text := header + " {";
    IndentedLine(text, depth);
    HeaderEnds(header);
    hide Indent, IsClose, Unindented, EndsWith;
    assert ([Indent(depth) + text] + inside)[1..] == inside;
  }

  lemma HeaderEnds(header: string)
    ensures EndsWith(header + " {", " {") && (header + " {")[..|header + " {"| - 2] == header
  {
    assert (header + " {")[|header|..] == " {";
  }

  /** The lines of a forest are indented by two spaces for each block open, told by the lines alone. */
  lemma {:induction false} LinesIndented(nodes: seq<Node>, depth: nat, tail: seq<string>)
    requires LeavesClosed(nodes) && Indented(tail, depth)
    ensures Indented(Lines(nodes, depth) + tail, depth)
    decreases nodes
  {
    hide Indent, IsClose, EndsWith, Indented;
    if nodes == [] {
      assert Lines(nodes, depth) + tail == tail;
    } else {
      var rest := Lines(nodes[1..], depth) + tail;
      LinesIndented(nodes[1..], depth, tail);
      LinesHead(nodes, depth, tail);
      match nodes[0]
      case Leaf(text) =>
        LeafEnds(text);
        IndentedLine(text, depth);
        LeafEnds(Indent(depth) + text);
        IndentedFront(Indent(depth) + text, rest, depth);
      case Block(header, body) =>
        var close := [Indent(depth) + "}"] + rest;
        ClosingLine(depth);
        IndentedFront(Indent(depth) + "}", rest, depth + 1);
        LinesIndented(body, depth + 1, close);
        HeaderEnds(header);
        IndentedLine(header + " {", depth);
        IndentedFront(Indent(depth) + (header + " {"), Lines(body, depth + 1) + close, depth);
    }
  }

  lemma IndentedFront(line: string, rest: seq<string>, depth: nat)
    ensures Indented([line] + rest, depth) <==>
      if IsClose(line) then depth > 0 && line == Indent(depth - 1) + "}" && Indented(rest, depth - 1)
      else Indent(depth) <= line && Indented(rest, if EndsWith(line, " {") then depth + 1 else depth)
  {
    hide Indent, IsClose, EndsWith;
    assert ([line] + rest)[1..] == rest;
  }

  // -------------------------------------------------------------------- from text back to lines

  lemma SplitLine(line: string, rest: string)
    requires '\n' !in line
    ensures Split(line + "\n" + rest) == [line] + Split(rest)
  {
    var text := line + "\n" + rest;
    var k := LineEnd(text);
    assert text[|line|] == '\n' && forall i :: 0 <= i < |line| ==> text[i] == line[i];
    assert text[..k] == line && text[k + 1..] == rest;
  }

  lemma {:induction false} SplitText(lines: seq<string>)
    requires forall i :: 0 <= i < |lines| ==> '\n' !in lines[i]
    ensures Split(Text(lines)) == lines
  {
    if lines != [] {
      SplitText(lines[1..]);
      SplitLine(lines[0], Text(lines[1..]));
    }
  }

  lemma {:induction false} LinesOnOneLine(nodes: seq<Node>, depth: nat)
    requires OnOneLine(nodes)
    ensures forall i :: 0 <= i < |Lines(nodes, depth)| ==> '\n' !in Lines(nodes, depth)[i]
    decreases nodes
  {
    if nodes != [] {
      LinesOnOneLine(nodes[1..], depth);
      IndentLength(depth);
      if nodes[0].Block? { LinesOnOneLine(nodes[0].body, depth + 1); }
    }
  }

  /** Reading the text that a forest of one-line nodes is printed as gives the forest back. */
  lemma ReadText(nodes: seq<Node>, depth: nat)
    requires LeavesClosed(nodes) && OnOneLine(nodes)
    ensures Read(Split(Text(Lines(nodes, depth))), depth) == (nodes, [])
  {
    LinesOnOneLine(nodes, depth);
    SplitText(Lines(nodes, depth));
    ReadLines(nodes, depth, []);
    assert Lines(nodes, depth) + [] == Lines(nodes, depth);
  }

  // --------------------------------------------------------------------- the printed statements

  /** Statements nested to any depth are recovered from their text, header by header and line by line. */
  lemma StatementsRecovered(statements: seq<Statement>, depth: nat)
    requires OnOneLine(NodesOf(statements))
    ensures Read(Split(Text(Lines(NodesOf(statements), depth))), depth) == (NodesOf(statements), [])
    ensures Indented(Lines(NodesOf(statements), depth), depth)
  {
    ReadText(NodesOf(statements), depth);
    LinesIndented(NodesOf(statements), depth, []);
    assert Lines(NodesOf(statements), depth) + [] == Lines(NodesOf(statements), depth);
  }
}
