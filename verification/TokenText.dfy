/** The text of a page of lines, and how it grows as the formatter writes. */
module TokenText {
  import opened FormatTokens
  import opened Sequences
  import opened Strings

  lemma RenderLinesConcat(tokens: seq<Token>, lines: seq<Line>, line: Line)
    ensures RenderLines(tokens, lines + [line]) == RenderLines(tokens, lines) + RenderLine(tokens, line) + "\n"
  {
    assert (lines + [line])[..|lines|] == lines;
  }

  lemma WrittenEndLine(tokens: seq<Token>, p: Page, n: nat, blank: bool)
    requires !p.atLineStart
    ensures Written(tokens, EndPageLine(p, n, blank), n) == Written(tokens, p, n) + if blank then "\n\n" else "\n"
  {
    hide RenderTokens, RenderLines;
    var text := Text(p.indent, p.from, n);
    RenderLinesConcat(tokens, p.lines, text);
    RenderLinesConcat(tokens, p.lines + [text], Blank);
    assert p.lines + [text] + [] == p.lines + [text];
  }

  /** Continuing a line with token `i`. */
  lemma WrittenMore(tokens: seq<Token>, p: Page, i: nat)
    requires i < |tokens| && !p.atLineStart && p.from < i
    ensures Written(tokens, p, i + 1)
      == Written(tokens, p, i) + (Separator(tokens[i - 1].kind, tokens[i].kind) + TextOf(tokens[i]))
  {
    hide RenderTokens, RenderLines, Separator;
    RenderMore(tokens, p.from, i);
    var more := Separator(tokens[i - 1].kind, tokens[i].kind) + TextOf(tokens[i]);
    Assoc(Indent(p.indent), RenderTokens(tokens, p.from, i), more);
    Assoc(RenderLines(tokens, p.lines), RenderLine(tokens, Text(p.indent, p.from, i)), more);
  }

  lemma RenderMore(tokens: seq<Token>, from: nat, i: nat)
    requires from < i < |tokens|
    ensures RenderTokens(tokens, from, i + 1)
      == RenderTokens(tokens, from, i) + (Separator(tokens[i - 1].kind, tokens[i].kind) + TextOf(tokens[i]))
  {
    Assoc(RenderTokens(tokens, from, i), Separator(tokens[i - 1].kind, tokens[i].kind), TextOf(tokens[i]));
  }

  lemma RenderFirst(tokens: seq<Token>, i: nat)
    requires i < |tokens|
    ensures RenderTokens(tokens, i, i + 1) == TextOf(tokens[i])
  {
    assert RenderTokens(tokens, i, i) == "";
  }

  /** Starting a line with token `i`. */
  lemma WrittenFirst(tokens: seq<Token>, p: Page, i: nat, indent: nat)
    requires i < |tokens| && p.atLineStart
    ensures Written(tokens, StartLine(p, i, indent), i + 1)
      == Written(tokens, p, i) + Indent(indent) + TextOf(tokens[i])
  {
    RenderFirst(tokens, i);
    hide RenderTokens, RenderLines, Indent, TextOf;
    var lines := RenderLines(tokens, p.lines);
    assert Written(tokens, p, i) == lines by { assert lines + "" == lines; }
    assert Written(tokens, StartLine(p, i, indent), i + 1) == lines + (Indent(indent) + TextOf(tokens[i]));
    hide Written;
    Assoc(lines, Indent(indent), TextOf(tokens[i]));
  }
}
