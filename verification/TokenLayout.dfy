/** Where the token formatter puts its tokens: no token lost, braces on their lines, blank lines apart. */
module TokenLayout {
  import opened FormatTokens

  /** Brace depth before token `n`, never negative. */
  function Depth(tokens: seq<Token>, n: nat): nat
    requires n <= |tokens|
  {
    if n == 0 then 0
    else if tokens[n - 1].kind.LeftBrace? then Depth(tokens, n - 1) + 1
    else if tokens[n - 1].kind.RightBrace? then Lower(Depth(tokens, n - 1))
    else Depth(tokens, n - 1)
  }

  ghost predicate BracesPlaced(tokens: seq<Token>, from: nat, end: nat)
    requires end <= |tokens|
  {
    forall k :: from <= k < end ==>
      && (tokens[k].kind.RightBrace? ==> from == k && end == k + 1)
      && (tokens[k].kind.LeftBrace? ==> end == k + 1)
  }

  /** The indentation that a line starting with token `from` must have. */
  function DepthOfLine(tokens: seq<Token>, from: nat): nat
    requires from < |tokens|
  {
    if tokens[from].kind.RightBrace? then Depth(tokens, from + 1) else Depth(tokens, from)
  }

  ghost predicate WellPlaced(tokens: seq<Token>, line: Line) {
    line.Text? ==>
      && line.from < line.end <= |tokens|
      && BracesPlaced(tokens, line.from, line.end)
      && line.indent == DepthOfLine(tokens, line.from)
  }

  /**
   The lines cut the tokens before `end` into consecutive nonempty runs, each well placed; a blank
   line follows a line of tokens, and at least two of those separate it from the blank line before.
   */
  ghost predicate Tiles(tokens: seq<Token>, lines: seq<Line>, end: nat) {
    if lines == [] then end == 0
    else
      var init, last := lines[..|lines| - 1], lines[|lines| - 1];
      if last.Blank? then
        && |init| > 0 && init[|init| - 1].Text?
        && (|init| > 1 ==> init[|init| - 2].Text?)
        && Tiles(tokens, init, end)
      else
        last.end == end && WellPlaced(tokens, last) && Tiles(tokens, init, last.from)
  }

  /** What holds between two tokens of a run of the formatter, on any tokens. */
  ghost predicate Consistent(l: Layout, tokens: seq<Token>, n: nat)
    requires n < |tokens|
  {
    && |l.kinds| == |l.names| == l.depth == Depth(tokens, n)
    && Tiles(tokens, l.page.lines, if l.page.atLineStart then n else l.page.from)
    && BlankKnown(l)
    && (!l.page.atLineStart ==>
          && Current(l, tokens, n)
          && WellPlaced(tokens, Text(l.page.indent, l.page.from, n))
          && !tokens[n - 1].kind.LeftBrace?
          && (tokens[n - 1].kind.RightBrace? ==> tokens[n].kind.EndOfFile?))
  }

  ghost predicate BlankKnown(l: Layout) {
    l.wasBlank <==> l.page.lines != [] && l.page.lines[|l.page.lines| - 1].Blank?
  }

  /** The line being written, if any, ends with the token before `n`. */
  ghost predicate Current(l: Layout, tokens: seq<Token>, n: nat)
    requires n <= |tokens|
  {
    !l.page.atLineStart ==> l.page.from < n && l.previousKind == tokens[n - 1].kind
  }

  lemma TilesMore(tokens: seq<Token>, lines: seq<Line>, line: Line, end: nat)
    requires line.Text? && line.end == end && Tiles(tokens, lines, line.from) && WellPlaced(tokens, line)
    ensures Tiles(tokens, lines + [line], end)
    ensures lines == [] || lines[|lines| - 1].Text? ==> Tiles(tokens, lines + [line] + [Blank], end)
  {
    var text := lines + [line];
    assert text[..|text| - 1] == lines;
    assert (text + [Blank])[..|text|] == text;
  }

  lemma EndLineConsistent(l: Layout, tokens: seq<Token>, n: nat, blankAfter: bool)
    requires 0 < n < |tokens| && !l.page.atLineStart
    requires |l.kinds| == |l.names| == l.depth == Depth(tokens, n)
    requires Tiles(tokens, l.page.lines, l.page.from) && BlankKnown(l)
    requires WellPlaced(tokens, Text(l.page.indent, l.page.from, n))
    ensures Consistent(EndLine(l, n, blankAfter), tokens, n)
  {
    TilesMore(tokens, l.page.lines, Text(l.page.indent, l.page.from, n), n);
    hide Tiles, WellPlaced, Depth;
    var text := l.page.lines + [Text(l.page.indent, l.page.from, n)];
    assert text + [] == text;
  }

  lemma CloseBraceConsistent(l: Layout, tokens: seq<Token>, i: nat)
    requires i + 1 < |tokens| && Consistent(l, tokens, i)
    requires tokens[i].kind.RightBrace?
    ensures Consistent(CloseBrace(l, tokens, i), tokens, i + 1)
  {
    hide Tiles;
    if !l.page.atLineStart { EndLineConsistent(l, tokens, i, false); }
    var ended := EndOpenLine(l, i);
    assert Consistent(ended, tokens, i) && ended.page.atLineStart;
    var closed := LeaveBlock(ended, i);
    assert WellPlaced(tokens, Text(closed.depth, i, i + 1));
    if !tokens[i + 1].kind.EndOfFile? {
      EndLineConsistent(closed, tokens, i + 1, closed.depth == 0 || tokens[i].endLine + 1 < tokens[i + 1].line);
    }
  }

  /** A token other than a brace or the end of file goes well on the line being written. */
  lemma BeginWellPlaced(l: Layout, tokens: seq<Token>, i: nat)
    requires i + 1 < |tokens| && Consistent(l, tokens, i)
    requires !tokens[i].kind.RightBrace? && !tokens[i].kind.EndOfFile?
    ensures var p := Begin(l, i).page;
      WellPlaced(tokens, Text(p.indent, p.from, i + 1)) && Tiles(tokens, p.lines, p.from)
  {
    hide Tiles;
    if !l.page.atLineStart {
      assert !tokens[i - 1].kind.RightBrace?;
      assert forall k :: l.page.from <= k < i ==> !tokens[k].kind.RightBrace? && !tokens[k].kind.LeftBrace?;
    }
  }

  lemma PutTokenConsistent(l: Layout, tokens: seq<Token>, i: nat)
    requires i + 1 < |tokens| && Consistent(l, tokens, i)
    requires !tokens[i].kind.RightBrace? && !tokens[i].kind.EndOfFile?
    ensures Consistent(PutToken(l, tokens, i), tokens, i + 1)
  {
    hide Tiles;
    var started := Begin(l, i);
    BeginWellPlaced(l, tokens, i);
    if tokens[i].kind.LeftBrace? {
      EndLineConsistent(EnterBlock(started, tokens, i), tokens, i + 1, false);
    } else if tokens[i].kind.Semicolon? {
      EndLineConsistent(started, tokens, i + 1, false);
    }
  }

  lemma BreakConsistent(l: Layout, tokens: seq<Token>, i: nat)
    requires i < |tokens| && Consistent(l, tokens, i)
    ensures Consistent(Break(l, tokens[i], i), tokens, i)
  {
    hide Tiles, WellPlaced, Depth;
    if BreaksBefore(l, tokens[i]) {
      EndLineConsistent(l, tokens, i, tokens[i].line > l.previousLine + 1);
    }
  }

  lemma StepConsistent(l: Layout, tokens: seq<Token>, i: nat)
    requires i + 1 < |tokens| && Consistent(l, tokens, i) && !tokens[i].kind.EndOfFile?
    ensures Consistent(Step(l, tokens, i), tokens, i + 1)
  {
    hide Consistent, CloseBrace, PutToken, Break;
    var broken := Break(l, tokens[i], i);
    assert Consistent(broken, tokens, i) by { BreakConsistent(l, tokens, i); }
    var put := if tokens[i].kind.RightBrace? then CloseBrace(broken, tokens, i) else PutToken(broken, tokens, i);
    assert Consistent(put, tokens, i + 1) by {
      if tokens[i].kind.RightBrace? {
        CloseBraceConsistent(broken, tokens, i);
      } else {
        PutTokenConsistent(broken, tokens, i);
      }
    }
    PreviousLineConsistent(put, tokens, i + 1, tokens[i].line);
  }

  lemma PreviousLineConsistent(l: Layout, tokens: seq<Token>, n: nat, line: nat)
    requires n < |tokens| && Consistent(l, tokens, n)
    ensures Consistent(l.(previousLine := line), tokens, n)
  {
    hide Tiles, WellPlaced, Depth;
  }

  lemma StartConsistent(tokens: seq<Token>)
    requires tokens != []
    ensures Consistent(START, tokens, 0)
  {
  }

  /**
   In every run, on balanced tokens or not, indentation and both block stacks have the height of
   the brace depth, and the lines written so far are a tiling with every brace in its place.
   */
  lemma {:induction false} RunConsistent(tokens: seq<Token>, n: nat)
    requires n < |tokens| && forall i :: 0 <= i < n ==> !tokens[i].kind.EndOfFile?
    ensures Consistent(Run(tokens, n), tokens, n)
  {
    hide Consistent, Step;
    if n == 0 {
      StartConsistent(tokens);
    } else {
      RunConsistent(tokens, n - 1);
      StepConsistent(Run(tokens, n - 1), tokens, n - 1);
    }
  }

  /**
   The output has every token before the end of file in order, each `}` alone on its line, each
   `{` at the end of its line, and every line indented by the depth of its first token.
   */
  lemma LinesPlaced(tokens: seq<Token>)
    requires Ended(tokens)
    ensures Tiles(tokens, Lines(tokens), Count(tokens, 0))
  {
    var n := Count(tokens, 0);
    RunConsistent(tokens, n);
    var p := Run(tokens, n).page;
    if !p.atLineStart {
      assert PageLines(p, n)[..|p.lines|] == p.lines;
    }
  }

  // ------------------------------------------------------------------------- matching braces

  /** Braces between `i` and `j` are matched: the depth comes back, and never goes below. */
  ghost predicate Balanced(tokens: seq<Token>, i: nat, j: nat)
    requires i <= j <= |tokens|
  {
    Net(tokens, i, j) == 0 && forall k :: i <= k <= j ==> Net(tokens, i, k) >= 0
  }

  function Net(tokens: seq<Token>, i: nat, k: nat): int
    requires i <= k <= |tokens|
    decreases k
  {
    if i == k then 0
    else if tokens[k - 1].kind.LeftBrace? then Net(tokens, i, k - 1) + 1
    else if tokens[k - 1].kind.RightBrace? then Net(tokens, i, k - 1) - 1
    else Net(tokens, i, k - 1)
  }

  ghost predicate Matches(tokens: seq<Token>, i: nat, j: nat) {
    && i < j < |tokens| && tokens[i].kind.LeftBrace? && tokens[j].kind.RightBrace?
    && Balanced(tokens, i + 1, j)
  }

  lemma {:induction false} DepthIsNet(tokens: seq<Token>, i: nat, k: nat)
    requires i <= k <= |tokens|
    requires forall m :: i <= m <= k ==> Net(tokens, i, m) >= 0
    ensures Depth(tokens, k) == Depth(tokens, i) + Net(tokens, i, k)
    decreases k
  {
    if i < k {
      DepthIsNet(tokens, i, k - 1);
      assert Net(tokens, i, k) >= 0;
    }
  }

  lemma {:induction false} DepthAlongLine(tokens: seq<Token>, from: nat, i: nat, end: nat)
    requires from <= i < end <= |tokens| && BracesPlaced(tokens, from, end)
    requires !tokens[i].kind.RightBrace?
    ensures Depth(tokens, i) == Depth(tokens, from)
    decreases i
  {
    if from < i {
      assert !tokens[i - 1].kind.RightBrace? && !tokens[i - 1].kind.LeftBrace?;
      DepthAlongLine(tokens, from, i - 1, end);
    }
  }

  lemma {:induction false} TileOf(tokens: seq<Token>, lines: seq<Line>, end: nat, k: nat)
    requires Tiles(tokens, lines, end) && k < end
    ensures exists line :: line in lines && line.Text? && line.from <= k < line.end && WellPlaced(tokens, line)
  {
    var init, last := lines[..|lines| - 1], lines[|lines| - 1];
    if last.Blank? {
      TileOf(tokens, init, end, k);
    } else if k < last.from {
      TileOf(tokens, init, last.from, k);
    } else {
      assert last in lines;
    }
  }

  /**
   A `{` and the `}` that matches it: the first ends its line, the second is a line of its own, and
   the two lines have the same indentation.
   */
  lemma MatchingBracesAlign(tokens: seq<Token>, i: nat, j: nat)
    requires Ended(tokens) && Matches(tokens, i, j) && j < Count(tokens, 0)
    ensures exists a, b :: (a in Lines(tokens) && b in Lines(tokens)
      && a.Text? && a.from <= i && a.end == i + 1
      && b == Text(a.indent, j, j + 1))
  {
    LinesPlaced(tokens);
    var lines, n := Lines(tokens), Count(tokens, 0);
    TileOf(tokens, lines, n, i);
    TileOf(tokens, lines, n, j);
    var a :| a in lines && a.Text? && a.from <= i < a.end && WellPlaced(tokens, a);
    var b :| b in lines && b.Text? && b.from <= j < b.end && WellPlaced(tokens, b);
    BracesAlign(tokens, i, j, a, b);
  }

  lemma BracesAlign(tokens: seq<Token>, i: nat, j: nat, a: Line, b: Line)
    requires Matches(tokens, i, j)
    requires a.Text? && a.from <= i < a.end && WellPlaced(tokens, a)
    requires b.Text? && b.from <= j < b.end && WellPlaced(tokens, b)
    ensures a.end == i + 1 && b == Text(a.indent, j, j + 1)
  {
    assert !tokens[a.from].kind.RightBrace?;
    DepthAlongLine(tokens, a.from, i, a.end);
    DepthIsNet(tokens, i + 1, j);
  }
}
