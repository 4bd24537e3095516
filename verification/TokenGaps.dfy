/** What the formatter puts between two tokens, told by the tokens around it and the block it is in. */
module TokenGaps {
  import opened FormatTokens
  import opened Sequences
  import opened Strings
  import opened TokenLayout
  import opened TokenText

  // -------------------------------------------------------------------------- spaces in a line

  const OPERATORS := {
    Arrow, Equals, EqualEqual, BangEqual, LessEqual, GreaterEqual, Plus, Minus, Star, Slash, Percent, AndAnd, OrOr}

  const WORDS := {Identifier, FeatureFlag, State, Terminal, Word}

  const NOTHING_BEFORE := {
    LeftParen, LeftBracket, Less, Dot, Comma, Semicolon, Colon, Question, RightParen, RightBracket, Greater}

  const NOTHING_AFTER := {LeftParen, LeftBracket, Less, Dot, Bang}

  /** Whether there is a space between two tokens of one line. */
  predicate Spaced(previous: Kind, k: Kind) {
    || k in OPERATORS || previous in OPERATORS || k == LeftBrace
    || (k != Comma && (previous == Comma || (k in WORDS && previous in WORDS)
                       || (k !in NOTHING_BEFORE && previous !in NOTHING_AFTER)))
  }

  lemma KindsAre(k: Kind)
    ensures IsBinaryOperator(k) <==> k in OPERATORS
    ensures IsWord(k) <==> k in WORDS
    ensures StartsCompact(k) <==> k in NOTHING_BEFORE
    ensures EndsCompact(k) <==> k in NOTHING_AFTER
  {
  }

  lemma SeparatorIs(previous: Kind, k: Kind)
    ensures Separator(previous, k) == if Spaced(previous, k) then " " else ""
  {
    KindsAre(previous);
    KindsAre(k);
    hide IsBinaryOperator, IsWord, StartsCompact, EndsCompact;
  }

  // --------------------------------------------------------------------------------- line ends

  /** The braces that are open before token `n`, the innermost last. */
  function OpenBraces(tokens: seq<Token>, n: nat): (r: seq<nat>)
    requires n <= |tokens|
    ensures forall j :: 0 <= j < |r| ==> r[j] < n && tokens[r[j]].kind == LeftBrace
  {
    if n == 0 then []
    else if tokens[n - 1].kind == LeftBrace then OpenBraces(tokens, n - 1) + [n - 1]
    else if tokens[n - 1].kind == RightBrace then Pop(OpenBraces(tokens, n - 1))
    else OpenBraces(tokens, n - 1)
  }

  /**
   A line ends after a brace or a semicolon, before a closing brace, where the next token is on a
   later line, and before a member of a feature flag, an option of a state or a member of garbage
   collection.
   */
  predicate LineEnds(tokens: seq<Token>, k: nat)
    requires 0 < k < |tokens|
    decreases k, 1
  {
    var previous, token := tokens[k - 1], tokens[k];
    || previous.kind in {LeftBrace, RightBrace, Semicolon}
    || token.kind == RightBrace
    || token.line > previous.line
    || (token.kind == Identifier && InBlockOf(tokens, k, FeatureFlag)
        && token.lexeme in {"type", "default", "scope", "owner", "description", "expires"})
    || ((token.kind == Terminal || (token.kind == Identifier && token.lexeme == "garbage_collection"))
        && InBlockOf(tokens, k, State))
    || (token.kind == Identifier && token.lexeme in {"after", "mode"} && InNamedBlock(tokens, k, "garbage_collection"))
  }

  /** The innermost open block belongs to the keyword. */
  predicate InBlockOf(tokens: seq<Token>, k: nat, keyword: Kind)
    requires k < |tokens|
    decreases k, 0
  {
    var open := OpenBraces(tokens, k);
    open != [] && BlockKeyword(tokens, open[|open| - 1]) == keyword
  }

  predicate InNamedBlock(tokens: seq<Token>, k: nat, name: string)
    requires k < |tokens|
    decreases k, 0
  {
    var open := OpenBraces(tokens, k);
    open != [] && BlockName(tokens, open[|open| - 1]) == name
  }

  /** A block's name and keyword are the tokens before its brace, if that does not start a line. */
  predicate Named(tokens: seq<Token>, brace: nat)
    requires brace < |tokens|
  {
    brace > 1 && tokens[brace - 1].kind == Identifier
  }

  function BlockKeyword(tokens: seq<Token>, brace: nat): Kind
    requires brace < |tokens|
    decreases brace, 2
  {
    if brace == 0 || LineEnds(tokens, brace) then EndOfFile
    else if Named(tokens, brace) then tokens[brace - 2].kind
    else tokens[brace - 1].kind
  }

  function BlockName(tokens: seq<Token>, brace: nat): string
    requires brace < |tokens|
    decreases brace, 2
  {
    if brace == 0 || LineEnds(tokens, brace) || !Named(tokens, brace) then "" else tokens[brace - 1].lexeme
  }

  /** The first token of the line that ends before token `k`. */
  function LineStart(tokens: seq<Token>, k: nat): (j: nat)
    requires 0 < k <= |tokens|
    ensures j < k && (j == 0 || LineEnds(tokens, j))
    ensures forall i :: j < i < k ==> !LineEnds(tokens, i)
  {
    if k == 1 || LineEnds(tokens, k - 1) then k - 1 else LineStart(tokens, k - 1)
  }

  /** A blank line is kept from the text, or put after a closing brace at the top. */
  predicate WantsBlank(tokens: seq<Token>, k: nat)
    requires 0 < k < |tokens|
  {
    var previous, token := tokens[k - 1], tokens[k];
    if previous.kind == RightBrace then Depth(tokens, k) == 0 || token.line > previous.endLine + 1
    else previous.kind !in {LeftBrace, Semicolon} && token.line > previous.line + 1
  }

  /** A blank line follows the line that ends before token `k`, unless one went before that line. */
  predicate BlankAfter(tokens: seq<Token>, k: nat)
    requires 0 < k < |tokens|
    decreases k
  {
    var start := LineStart(tokens, k);
    WantsBlank(tokens, k) && !(start > 0 && BlankAfter(tokens, start))
  }

  // -------------------------------------------------------------------------------------- gaps

  /** What is put before token `k`. */
  function Gap(tokens: seq<Token>, k: nat): string
    requires k < |tokens|
  {
    if k == 0 then ""
    else if LineEnds(tokens, k) then
      (if BlankAfter(tokens, k) then "\n\n" else "\n") + Indent(DepthOfLine(tokens, k))
    else if Spaced(tokens[k - 1].kind, tokens[k].kind) then " "
    else ""
  }

  /** The first `n` tokens with the gaps before them. */
  function Laid(tokens: seq<Token>, n: nat): string
    requires n <= |tokens|
  {
    if n == 0 then "" else Laid(tokens, n - 1) + (Gap(tokens, n - 1) + TextOf(tokens[n - 1]))
  }

  // ------------------------------------------------------------------------------- the invariant

  /** The newlines of a line that was ended and is not yet followed by a token. */
  function Pending(l: Layout, n: nat): string {
    if !l.page.atLineStart || n == 0 then "" else if l.wasBlank then "\n\n" else "\n"
  }

  /** The blocks on the stack are known by the keywords and names of the open braces. */
  ghost predicate BlocksKnown(tokens: seq<Token>, l: Layout, n: nat)
    requires n <= |tokens|
  {
    var open := OpenBraces(tokens, n);
    && |l.kinds| == |l.names| == |open|
    && forall j :: 0 <= j < |open| ==>
         && (l.kinds[j] == FeatureFlag <==> BlockKeyword(tokens, open[j]) == FeatureFlag)
         && (l.kinds[j] == State <==> BlockKeyword(tokens, open[j]) == State)
         && l.names[j] == BlockName(tokens, open[j])
  }

  ghost predicate BlankRemembered(tokens: seq<Token>, l: Layout, n: nat)
    requires n < |tokens|
  {
    if n == 0 then !l.wasBlank
    else if l.page.atLineStart then l.wasBlank == BlankAfter(tokens, n)
    else
      var start := LineStart(tokens, n);
      l.wasBlank <==> start > 0 && BlankAfter(tokens, start)
  }

  /** What holds when lines have been ended as far as they are before token `n`. */
  ghost predicate Known(tokens: seq<Token>, l: Layout, n: nat)
    requires n < |tokens|
  {
    && BlocksKnown(tokens, l, n) && BlankRemembered(tokens, l, n)
    && l.depth == Depth(tokens, n)
    && (n > 0 ==> l.previousLine == tokens[n - 1].line)
    && (n == 0 ==> l.page.atLineStart)
    && (l.page.atLineStart ==> l.previousKind in {EndOfFile, LeftBrace, Semicolon})
    && (!l.page.atLineStart ==> l.page.from < n && l.previousKind == tokens[n - 1].kind)
    && Written(tokens, l.page, n) == Laid(tokens, n) + Pending(l, n)
  }

  /** Between two tokens only those line ends are there that the first of them asks for. */
  ghost predicate Between(tokens: seq<Token>, l: Layout, n: nat)
    requires n < |tokens|
  {
    && Known(tokens, l, n)
    && (n > 0 ==>
          (l.page.atLineStart <==>
             || tokens[n - 1].kind in {LeftBrace, Semicolon}
             || (tokens[n - 1].kind == RightBrace && tokens[n].kind != EndOfFile)))
  }

  /** Just before a token is put, the line has ended exactly if it does. */
  ghost predicate Ready(tokens: seq<Token>, l: Layout, n: nat)
    requires n < |tokens|
  {
    Known(tokens, l, n) && (n > 0 ==> (l.page.atLineStart <==> LineEnds(tokens, n)))
  }

  /** Ending the open line before token `n`. */
  lemma EndLineKnown(tokens: seq<Token>, l: Layout, n: nat, blankAfter: bool)
    requires 0 < n < |tokens| && Known(tokens, l, n) && !l.page.atLineStart
    requires blankAfter == WantsBlank(tokens, n)
    ensures Known(tokens, EndLine(l, n, blankAfter), n)
  {
    hide Laid, Written, BlocksKnown, BlockKeyword, BlockName, LineEnds, WantsBlank;
    WrittenEndLine(tokens, l.page, n, blankAfter && !l.wasBlank);
    assert Laid(tokens, n) + "" == Laid(tokens, n);
    assert BlocksKnown(tokens, EndLine(l, n, blankAfter), n) by { SameBlocks(tokens, l, EndLine(l, n, blankAfter), n); }
  }

  lemma SameBlocks(tokens: seq<Token>, l: Layout, m: Layout, n: nat)
    requires n <= |tokens| && BlocksKnown(tokens, l, n) && l.kinds == m.kinds && l.names == m.names
    ensures BlocksKnown(tokens, m, n)
  {
  }

  /** A break ends the line where a line ends for a reason that is not a closing brace. */
  lemma BreakIff(tokens: seq<Token>, l: Layout, n: nat)
    requires n < |tokens| && Between(tokens, l, n) && tokens[n].kind != EndOfFile
    ensures n > 0 && tokens[n].kind != RightBrace ==>
      (l.page.atLineStart || BreaksBefore(l, tokens[n]) <==> LineEnds(tokens, n))
    ensures BreaksBefore(l, tokens[n]) ==> n > 0 && LineEnds(tokens, n)
    ensures BreaksBefore(l, tokens[n]) ==>
      tokens[n - 1].kind !in {LeftBrace, RightBrace, Semicolon}
    ensures n > 0 && !l.page.atLineStart && !BreaksBefore(l, tokens[n]) ==> !WantsBlank(tokens, n)
  {
    hide Written, Laid, BlankRemembered;
    var open := OpenBraces(tokens, n);
    if open != [] {
      var j := |open| - 1;
      assert l.kinds[j] == l.kinds[|l.kinds| - 1] && l.names[j] == l.names[|l.names| - 1];
      hide BlockKeyword, BlockName;
    }
  }

  lemma BreakReady(tokens: seq<Token>, l: Layout, n: nat)
    requires n < |tokens| && Between(tokens, l, n) && tokens[n].kind != EndOfFile
    ensures var broken := Break(l, tokens[n], n);
      Ready(tokens, if tokens[n].kind == RightBrace then EndOpenLine(broken, n) else broken, n)
  {
    BreakIff(tokens, l, n);
    hide BlocksKnown, Written, Laid, BlankRemembered, BreaksBefore;
    var broken := Break(l, tokens[n], n);
    if BreaksBefore(l, tokens[n]) {
      EndLineKnown(tokens, l, n, tokens[n].line > l.previousLine + 1);
    } else if tokens[n].kind == RightBrace && !l.page.atLineStart {
      EndLineKnown(tokens, l, n, false);
    }
  }

  lemma BeginWritten(tokens: seq<Token>, l: Layout, n: nat)
    requires n + 1 < |tokens| && Ready(tokens, l, n) && tokens[n].kind != RightBrace
    ensures Written(tokens, Begin(l, n).page, n + 1) == Laid(tokens, n + 1)
  {
    hide Written, BlocksKnown, BlankRemembered, BlankAfter, LineEnds, Spaced;
    var laid := Laid(tokens, n);
    if l.page.atLineStart {
      WrittenFirst(tokens, l.page, n, l.depth);
      assert Gap(tokens, n) == Pending(l, n) + Indent(l.depth) by { GapAtLineStart(tokens, l, n); }
      hide Gap, Pending;
      Assoc(laid, Pending(l, n), Indent(l.depth));
      Assoc(laid, Gap(tokens, n), TextOf(tokens[n]));
    } else {
      WrittenMore(tokens, l.page, n);
      SeparatorIs(tokens[n - 1].kind, tokens[n].kind);
      assert laid + "" == laid;
    }
  }

  lemma GapAtLineStart(tokens: seq<Token>, l: Layout, n: nat)
    requires n < |tokens| && Ready(tokens, l, n) && l.page.atLineStart
    ensures Gap(tokens, n) == Pending(l, n) + Indent(DepthOfLine(tokens, n))
  {
    hide Written, Laid, BlocksKnown, LineEnds, BlankAfter;
  }

  /** The layout with token `n` on its line, which is still open. */
  function Put(l: Layout, tokens: seq<Token>, n: nat): Layout
    requires n < |tokens|
  {
    var put :=
      if tokens[n].kind == RightBrace then LeaveBlock(l, n)
      else if tokens[n].kind == LeftBrace then EnterBlock(Begin(l, n), tokens, n)
      else Begin(l, n);
    put.(previousKind := tokens[n].kind, previousLine := tokens[n].line)
  }

  /** The blank line that is remembered for the line of a token that was put. */
  lemma AfterPut(tokens: seq<Token>, l: Layout, n: nat)
    requires n + 1 < |tokens| && Ready(tokens, l, n) && (tokens[n].kind == RightBrace ==> l.page.atLineStart)
    ensures BlankRemembered(tokens, Put(l, tokens, n), n + 1)
  {
    hide Written, Laid, BlocksKnown, LineEnds, Gap;
    assert LineStart(tokens, n + 1) == if n == 0 || LineEnds(tokens, n) then n else LineStart(tokens, n);
  }

  /** The blocks known after a token that is no brace, an opening or a closing one. */
  lemma BlocksAfterPut(tokens: seq<Token>, l: Layout, n: nat)
    requires n + 1 < |tokens| && Ready(tokens, l, n) && tokens[n].kind != RightBrace
    ensures BlocksKnown(tokens, Put(l, tokens, n), n + 1)
  {
    hide Written, Laid, BlankRemembered, LineEnds;
    var open := OpenBraces(tokens, n);
    if tokens[n].kind == LeftBrace {
      var put := Put(l, tokens, n);
      assert OpenBraces(tokens, n + 1) == open + [n];
      forall j | 0 <= j < |open + [n]|
        ensures (put.kinds[j] == FeatureFlag <==> BlockKeyword(tokens, (open + [n])[j]) == FeatureFlag)
        ensures (put.kinds[j] == State <==> BlockKeyword(tokens, (open + [n])[j]) == State)
        ensures put.names[j] == BlockName(tokens, (open + [n])[j])
      {
        if j < |open| { assert (open + [n])[j] == open[j] && put.kinds[j] == l.kinds[j] && put.names[j] == l.names[j]; }
      }
    }
  }

  lemma PutKnown(tokens: seq<Token>, l: Layout, n: nat)
    requires n + 1 < |tokens| && Ready(tokens, l, n) && (tokens[n].kind == RightBrace ==> l.page.atLineStart)
    ensures Known(tokens, Put(l, tokens, n), n + 1) && !Put(l, tokens, n).page.atLineStart
  {
    hide Laid, Written, BlocksKnown, BlankRemembered, LineEnds, Depth, Pending, EnterBlock;
    var put := Put(l, tokens, n);
    AfterPut(tokens, l, n);
    PutWritten(tokens, l, n);
    PutBlocks(tokens, l, n);
    PutDepth(tokens, l, n);
    PutLine(tokens, l, n);
  }

  lemma PutLine(tokens: seq<Token>, l: Layout, n: nat)
    requires n + 1 < |tokens| && Ready(tokens, l, n) && (tokens[n].kind == RightBrace ==> l.page.atLineStart)
    ensures var put := Put(l, tokens, n);
      !put.page.atLineStart && put.page.from < n + 1 && put.previousKind == tokens[n].kind
  {
    hide Laid, Written, BlocksKnown, BlankRemembered, LineEnds, Depth, Pending;
  }

  lemma DepthKnown(tokens: seq<Token>, l: Layout, n: nat)
    requires n < |tokens| && Known(tokens, l, n)
    ensures l.depth == Depth(tokens, n)
  {
  }

  lemma PutDepth(tokens: seq<Token>, l: Layout, n: nat)
    requires n < |tokens| && l.depth == Depth(tokens, n)
    ensures Put(l, tokens, n).depth == Depth(tokens, n + 1)
  {
  }

  lemma PutWritten(tokens: seq<Token>, l: Layout, n: nat)
    requires n + 1 < |tokens| && Ready(tokens, l, n) && (tokens[n].kind == RightBrace ==> l.page.atLineStart)
    ensures var put := Put(l, tokens, n);
      Written(tokens, put.page, n + 1) == Laid(tokens, n + 1) + Pending(put, n + 1)
  {
    var put := Put(l, tokens, n);
    if tokens[n].kind == RightBrace {
      ClosedWritten(tokens, l, n);
    } else {
      BeginWritten(tokens, l, n);
    }
    PutLine(tokens, l, n);
    hide Laid, Written, BlocksKnown, BlankRemembered, LineEnds, Depth;
    assert Laid(tokens, n + 1) + "" == Laid(tokens, n + 1);
  }

  lemma PutBlocks(tokens: seq<Token>, l: Layout, n: nat)
    requires n + 1 < |tokens| && Ready(tokens, l, n)
    ensures BlocksKnown(tokens, Put(l, tokens, n), n + 1)
  {
    if tokens[n].kind == RightBrace {
      ClosedBlocks(tokens, l, n);
      hide BlockKeyword, BlockName, Written, Laid, BlankRemembered, LineEnds;
    } else {
      BlocksAfterPut(tokens, l, n);
    }
  }

  lemma PutBetween(tokens: seq<Token>, l: Layout, n: nat)
    requires n + 1 < |tokens| && Ready(tokens, l, n) && tokens[n].kind != RightBrace
    ensures Between(tokens, PutToken(l, tokens, n).(previousLine := tokens[n].line), n + 1)
  {
    hide Known, LineEnds, BlankAfter, EnterBlock, Begin;
    PutKnown(tokens, l, n);
    hide Ready;
    if tokens[n].kind in {LeftBrace, Semicolon} {
      EndLineKnown(tokens, Put(l, tokens, n), n + 1, false);
      AnyPrevious(tokens, EndLine(Put(l, tokens, n), n + 1, false), tokens[n].kind, n + 1);
    }
  }

  lemma AnyPrevious(tokens: seq<Token>, l: Layout, kind: Kind, n: nat)
    requires n < |tokens| && Known(tokens, l, n) && l.page.atLineStart && kind in {LeftBrace, Semicolon}
    ensures Known(tokens, l.(previousKind := kind), n)
  {
    hide Laid, Written, BlankAfter, LineEnds, Depth, BlockKeyword, BlockName;
    SameBlocks(tokens, l, l.(previousKind := kind), n);
  }

  lemma CloseBetween(tokens: seq<Token>, l: Layout, n: nat)
    requires n + 1 < |tokens| && tokens[n].kind == RightBrace
    requires Ready(tokens, EndOpenLine(l, n), n)
    ensures Between(tokens, CloseBrace(l, tokens, n).(previousLine := tokens[n].line), n + 1)
  {
    hide Known, LineEnds, BlankAfter, EndOpenLine, StartLine, Lower, Pop;
    var ended := EndOpenLine(l, n);
    assert ended.page.atLineStart by { ReadyToClose(l, n); }
    PutKnown(tokens, ended, n);
    var closed := LeaveBlock(ended, n);
    hide Ready;
    assert closed.depth == Depth(tokens, n + 1) by {
      DepthKnown(tokens, ended, n);
      PutDepth(tokens, ended, n);
    }
    if tokens[n + 1].kind != EndOfFile {
      EndLineKnown(
        tokens, Put(ended, tokens, n), n + 1, closed.depth == 0 || tokens[n].endLine + 1 < tokens[n + 1].line);
    }
  }

  lemma ReadyToClose(l: Layout, n: nat)
    ensures EndOpenLine(l, n).page.atLineStart
  {
  }

  lemma ClosedWritten(tokens: seq<Token>, ended: Layout, n: nat)
    requires n + 1 < |tokens| && Ready(tokens, ended, n) && ended.page.atLineStart && tokens[n].kind == RightBrace
    ensures Written(tokens, LeaveBlock(ended, n).page, n + 1) == Laid(tokens, n + 1)
  {
    hide Written, BlocksKnown, BlankRemembered, BlankAfter, LineEnds;
    var indent := Lower(ended.depth);
    WrittenFirst(tokens, ended.page, n, indent);
    GapAtLineStart(tokens, ended, n);
    var laid := Laid(tokens, n);
    hide Gap, Pending;
    Assoc(laid, Pending(ended, n), Indent(indent));
    Assoc(laid, Gap(tokens, n), TextOf(tokens[n]));
  }

  lemma ClosedBlocks(tokens: seq<Token>, ended: Layout, n: nat)
    requires n + 1 < |tokens| && BlocksKnown(tokens, ended, n) && tokens[n].kind == RightBrace
    ensures BlocksKnown(tokens, LeaveBlock(ended, n), n + 1)
  {
    hide BlockKeyword, BlockName;
  }

  /** The state of every run is known by the tokens alone. */
  lemma {:induction false} RunBetween(tokens: seq<Token>, n: nat)
    requires n < |tokens| && forall i :: 0 <= i < n ==> tokens[i].kind != EndOfFile
    ensures Between(tokens, Run(tokens, n), n)
  {
    if n == 0 {
      StartBetween(tokens);
    } else {
      var l := Run(tokens, n - 1);
      RunBetween(tokens, n - 1);
      StepBetween(tokens, l, n - 1);
    }
  }

  lemma StartBetween(tokens: seq<Token>)
    requires tokens != []
    ensures Between(tokens, START, 0)
  {
  }

  lemma StepBetween(tokens: seq<Token>, l: Layout, n: nat)
    requires n + 1 < |tokens| && Between(tokens, l, n) && tokens[n].kind != EndOfFile
    ensures Between(tokens, Step(l, tokens, n), n + 1)
  {
    BreakReady(tokens, l, n);
    var broken := Break(l, tokens[n], n);
    hide Between, Break, PutToken, CloseBrace;
    if tokens[n].kind == RightBrace {
      CloseBetween(tokens, broken, n);
    } else {
      PutBetween(tokens, broken, n);
    }
  }

  // ------------------------------------------------------------------------------------- results

  /**
   The formatted text is the tokens before the first end of file, each after the gap that its
   neighbours and its block call for, and one newline at the end.
   */
  lemma FormattedIsLaid(tokens: seq<Token>)
    requires Ended(tokens)
    ensures Formatted(tokens) == TrimNewlines(Laid(tokens, Count(tokens, 0))) + "\n"
  {
    var n := Count(tokens, 0);
    var l := Run(tokens, n);
    RunBetween(tokens, n);
    hide Run, Laid, Written, BlocksKnown, BlankRemembered, LineEnds, Count, Depth, TrimNewlines, Pending;
    TrimPending(Laid(tokens, n), l, n);
  }

  lemma TrimPending(laid: string, l: Layout, n: nat)
    ensures TrimNewlines(laid + Pending(l, n)) == TrimNewlines(laid)
  {
    TrimLast(laid);
    TrimLast(laid + "\n");
    hide TrimNewlines;
    assert laid + "\n" + "\n" == laid + "\n\n" && laid + "" == laid;
  }

  lemma TrimLast(s: string)
    ensures TrimNewlines(s + "\n") == TrimNewlines(s)
  {
    assert (s + "\n")[..|s|] == s;
  }

  /** The innermost open brace is the one from which the braces balance. */
  lemma InnermostIs(tokens: seq<Token>, brace: nat, n: nat)
    requires brace < n <= |tokens| && tokens[brace].kind == LeftBrace && Balanced(tokens, brace + 1, n)
    ensures OpenBraces(tokens, n) == OpenBraces(tokens, brace) + [brace]
  {
    OpenAbove(tokens, brace + 1, n);
  }

  lemma {:induction false} OpenAbove(tokens: seq<Token>, i: nat, n: nat)
    requires i <= n <= |tokens| && forall k :: i <= k <= n ==> Net(tokens, i, k) >= 0
    ensures OpenBraces(tokens, i) <= OpenBraces(tokens, n)
    ensures |OpenBraces(tokens, n)| == |OpenBraces(tokens, i)| + Net(tokens, i, n)
    decreases n
  {
    if i < n {
      OpenAbove(tokens, i, n - 1);
      assert Net(tokens, i, n) >= 0;
    }
  }
}
