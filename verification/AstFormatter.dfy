/** The printer of workflow statements, writing to one stream with a running indentation. */
module AstPrinting {
  import opened Expressions
  import opened Strings
  import opened WorkflowText

  class AstFormatter {
    var out: string
    var indent: nat
    var previousBlank: bool

    constructor ()
      ensures out == "" && indent == 0 && !previousBlank
    {
      out, indent, previousBlank := "", 0, false;
    }

    /** Writes one line at the current indentation. */
    method Line(text: string)
      modifies this
      ensures out == old(out) + Text([Indent(indent) + text]) && indent == old(indent) && !previousBlank
    {
      for i := 0 to indent
        invariant indent == old(indent)
        invariant out + Indent(indent - i) == old(out) + Indent(indent)
      {
        out := out + "  ";
      }
      out := out + text;
      out := out + "\n";
      previousBlank := false;
      OneLine(old(out), Indent(indent), text);
    }

    method OpenBlock(header: string)
      modifies this
      ensures out == old(out) + Text([Indent(old(indent)) + (header + " {")]) && indent == old(indent) + 1
    {
      Line(header + " {");
      indent := indent + 1;
    }

    method CloseBlock()
      requires indent > 0
      modifies this
      ensures indent == old(indent) - 1 && out == old(out) + Text([Indent(indent) + "}"])
    {
      indent := indent - 1;
      Line("}");
    }

    /** Everything printed so far is `before` followed by the lines of `nodes` at this indentation. */
    ghost predicate Printed(before: string, nodes: seq<Node>)
      reads this
    {
      out == before + Text(Lines(nodes, indent))
    }

    method WritePayload(payload: seq<Assignment>)
      modifies this
      ensures indent == old(indent) && Printed(old(out), PayloadNodes(payload))
    {
      hide Text, Lines, Normalized;
      NothingPrinted(out, indent);
      assert payload[0..] == payload;
      ghost var nodes: seq<Node> := [];
      for i := 0 to |payload|
        invariant indent == old(indent) && Printed(old(out), nodes)
        invariant nodes + PayloadNodes(payload[i..]) == PayloadNodes(payload)
      {
        var text := NormalizedExpression(payload[i].expression);
        assert payload[i..][1..] == payload[i + 1..];
        WriteLeaf(payload[i].name + " = " + text, old(out), nodes);
        nodes := nodes + [Leaf(payload[i].name + " = " + text + ";")];
      }
      assert nodes + [] == nodes;
    }

    /** Writes a line closed by a semicolon, after `nodes`. */
    method WriteLeaf(text: string, ghost before: string, ghost nodes: seq<Node>)
      requires Printed(before, nodes)
      modifies this
      ensures indent == old(indent) && Printed(before, nodes + [Leaf(text + ";")])
    {
      Line(text + ";");
      PrintedMore(before, nodes, Leaf(text + ";"), [Indent(indent) + (text + ";")], indent);
    }

    /** Writes one line closed by a semicolon. */
    method WriteLine(text: string)
      modifies this
      ensures indent == old(indent) && Printed(old(out), WorkflowText.Line(text))
    {
      NothingPrinted(out, indent);
      WriteLeaf(text, out, []);
      assert [] + [Leaf(text + ";")] == WorkflowText.Line(text);
    }

    method WritePayloadBlock(header: string, payload: seq<Assignment>)
      modifies this
      ensures indent == old(indent) && Printed(old(out), Nest(header, PayloadNodes(payload)))
    {
      OpenBlock(header);
      WritePayload(payload);
      CloseBlock();
      PrintedBlock(old(out), header, PayloadNodes(payload), indent);
    }

    method WriteWithPayload(header: string, payload: seq<Assignment>)
      modifies this
      ensures indent == old(indent) && Printed(old(out), WithPayload(header, payload))
    {
      if payload == [] {
        WriteLine(header);
      } else {
        WritePayloadBlock(header, payload);
      }
    }

    method WriteStatementBlock(header: string, statements: seq<Statement>)
      modifies this
      ensures indent == old(indent) && Printed(old(out), Nest(header, NodesOf(statements)))
      decreases statements, 1
    {
      OpenBlock(header);
      WriteStatements(statements);
      CloseBlock();
      PrintedBlock(old(out), header, NodesOf(statements), indent);
    }

    method WriteStatements(statements: seq<Statement>)
      modifies this
      ensures indent == old(indent) && Printed(old(out), NodesOf(statements))
      decreases statements, 0
    {
      hide Text, Lines, Nodes;
      NothingPrinted(out, indent);
      assert statements[0..] == statements;
      ghost var nodes: seq<Node> := [];
      for i := 0 to |statements|
        invariant indent == old(indent) && Printed(old(out), nodes)
        invariant nodes + NodesOf(statements[i..]) == NodesOf(statements)
      {
        assert statements[i..][1..] == statements[i + 1..];
        ghost var more := Nodes(statements[i]);
        WriteStatement(statements[i]);
        PrintedAfter(old(out), nodes, more, indent);
        nodes := nodes + more;
      }
      assert nodes + [] == nodes;
    }

    /** Writes a statement as its nodes say, and returns to the indentation it started from. */
    method WriteStatement(s: Statement)
      modifies this
      ensures indent == old(indent) && Printed(old(out), Nodes(s))
      decreases s, 2
    {
      hide Normalized, Text, Lines;
      if s.kind == "require" && s.expression.Some? {
        var expression := NormalizedExpression(s.expression.value);
        WriteLine("require " + expression);
      } else if s.kind == "set" && s.assignable.Some? && s.expression.Some? {
        var assignable := NormalizedExpression(s.assignable.value);
        var expression := NormalizedExpression(s.expression.value);
        WriteLine("set " + assignable + " = " + expression);
      } else if (s.kind == "emit" || s.kind == "enqueue") && s.target.Some? {
        WriteWithPayload(s.kind + " " + s.target.value, s.payload);
      } else if s.kind == "acquire_lease" && s.target.Some? {
        WriteLine("acquire lease " + s.target.value + (if s.binding.Some? then " as " + s.binding.value else ""));
      } else if s.kind == "renew_lease" && s.target.Some? {
        WriteLine("renew lease " + s.target.value);
      } else if s.kind == "release_lease" && s.target.Some? {
        WriteLine("release lease " + s.target.value);
      } else if s.kind == "start_workflow" && s.target.Some? {
        WriteWithPayload("start workflow " + s.target.value, s.payload);
      } else if s.kind == "transition_to" && s.target.Some? {
        WriteLine("transition_to " + s.target.value);
      } else if s.kind == "complete" {
        WriteLine("complete");
      } else if s.kind == "fail" {
        if s.expression.Some? {
          var expression := NormalizedExpression(s.expression.value);
          WriteLine("fail " + expression);
        } else {
          WriteLine("fail");
        }
      } else if s.kind == "atomic" {
        WriteStatementBlock("atomic", s.statements);
      } else {
        WriteOtherStatement(s);
      }
    }

    /** The remaining kinds of statement. */
    method WriteOtherStatement(s: Statement)
      modifies this
      ensures indent == old(indent) && Printed(old(out), OtherNodes(s))
      decreases s, 1
    {
      hide Normalized, Text;
      if s.kind == "for_each" && s.binding.Some? && s.expression.Some? {
        var expression := NormalizedExpression(s.expression.value);
        WriteStatementBlock("for_each " + s.binding.value + " in " + expression, s.statements);
      } else if s.kind == "when" && s.expression.Some? {
        var expression := NormalizedExpression(s.expression.value);
        WriteStatementBlock("when " + expression, s.statements);
      } else if s.kind == "create_child" && s.target.Some? {
        WritePayloadBlock("create child " + s.target.value, s.payload);
      } else if s.kind == "observe_child" && s.target.Some? && s.binding.Some? && s.expression.Some? {
        var expression := NormalizedExpression(s.expression.value);
        WriteLine("observe child " + s.target.value + " by " + s.binding.value + " = " + expression);
      } else if s.kind == "move" && s.expression.Some? && s.fromAssignable.Some? && s.toAssignable.Some? {
        var expression := NormalizedExpression(s.expression.value);
        var from := NormalizedExpression(s.fromAssignable.value);
        var target := NormalizedExpression(s.toAssignable.value);
        WriteLine("move " + expression + " from " + from + " to " + target);
      } else if s.kind == "reserve_child_set" && s.target.Some? {
        WriteLine("reserve child_set " + s.target.value);
      } else if s.kind == "materialize_child_set" && s.target.Some? {
        WriteLine("materialize child_set " + s.target.value);
      } else if s.kind == "reconcile_child_set" && s.target.Some? {
        WriteLine("reconcile child_set " + s.target.value);
      } else {
        NothingPrinted(out, indent);
      }
    }
  }

  lemma OneLine(before: string, indent: string, text: string)
    ensures before + indent + text + "\n" == before + Text([indent + text])
  {
    assert [indent + text][1..] == [];
    assert Text([indent + text]) == indent + text + "\n";
  }

  lemma PrintedMore(before: string, nodes: seq<Node>, node: Node, lines: seq<string>, indent: nat)
    requires Lines([node], indent) == lines
    ensures before + Text(Lines(nodes, indent)) + Text(lines) == before + Text(Lines(nodes + [node], indent))
  {
    LinesConcat(nodes, [node], indent);
    TextConcat(Lines(nodes, indent), lines);
  }

  lemma NothingPrinted(before: string, indent: nat)
    ensures before == before + Text(Lines([], indent))
  {
  }

  lemma PrintedAfter(before: string, nodes: seq<Node>, more: seq<Node>, indent: nat)
    ensures before + Text(Lines(nodes, indent)) + Text(Lines(more, indent))
      == before + Text(Lines(nodes + more, indent))
  {
    LinesConcat(nodes, more, indent);
    TextConcat(Lines(nodes, indent), Lines(more, indent));
  }

  lemma {:induction false} PrintedBlock(before: string, header: string, body: seq<Node>, indent: nat)
    ensures
      before + Text([Indent(indent) + (header + " {")]) + Text(Lines(body, indent + 1)) + Text([Indent(indent) + "}"])
      == before + Text(Lines(Nest(header, body), indent))
  {
    hide Text, Indent;
    var open, inside, close := [Indent(indent) + (header + " {")], Lines(body, indent + 1), [Indent(indent) + "}"];
    TextConcat(open, inside);
    TextConcat(open + inside, close);
    assert Lines([], indent) == [];
    assert Lines(Nest(header, body), indent) == open + inside + close;
  }
}
