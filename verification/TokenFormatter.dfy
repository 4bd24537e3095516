/** The token formatter as it runs: one loop over the tokens updating its state in place. */
module TokenFormatting {
  import opened FormatTokens
  import opened Sequences
  import opened Strings
  import opened TokenLayout
  import opened TokenText

  class TokenFormatter {
    const tokens: seq<Token>
    var out: string
    var depth: nat
    var atLineStart: bool
    var wasBlank: bool
    var previousKind: Kind
    var previousLine: nat
    var kinds: seq<Kind>
    var names: seq<string>
    var done: nat             // the number of tokens written
    ghost var page: Page      // the lines that `out` shows

    ghost predicate Valid()
      reads this
    {
      atLineStart == page.atLineStart && out == Written(tokens, page, done)
    }

    ghost function State(): Layout
      reads this
    {
      Layout(page, depth, wasBlank, previousKind, previousLine, kinds, names)
    }

    constructor (tokens: seq<Token>)
      ensures this.tokens == tokens && Valid() && State() == START && done == 0
    {
      this.tokens := tokens;
      out, depth, atLineStart, wasBlank := "", 0, true, false;
      previousKind, previousLine, kinds, names := EndOfFile, 0, [], [];
      page, done := START.page, 0;
    }

    method NewLine(blankAfter: bool)
      requires Valid() && !atLineStart
      modifies this
      ensures Valid() && State() == EndLine(old(State()), done, blankAfter) && done == old(done)
    {
      hide Written;
      WrittenEndLine(tokens, page, done, blankAfter && !wasBlank);
      page := EndPageLine(page, done, blankAfter && !wasBlank);
      out := out + "\n";
      atLineStart, previousKind := true, EndOfFile;
      if blankAfter && !wasBlank {
        out := out + "\n";
        wasBlank := true;
      } else {
        wasBlank := false;
      }
    }

    method WriteIndent()
      modifies this`out
      ensures out == old(out) + Indent(depth)
    {
      for i := 0 to depth
        invariant out + Indent(depth - i) == old(out) + Indent(depth)
      {
        out := out + "  ";
      }
    }

    /** Writes a token at the start of a line. */
    method StartText(text: string)
      requires Valid() && atLineStart && done < |tokens| && text == TextOf(tokens[done])
      modifies this
      ensures Valid() && done == old(done) + 1 && !atLineStart
      ensures State() == old(State()).(page := StartLine(old(page), old(done), depth))
    {
      hide Written, TextOf, Indent;
      WrittenFirst(tokens, page, done, depth);
      WriteIndent();
      out := out + text;
      atLineStart := false;
      page := StartLine(page, done, depth);
      done := done + 1;
    }

    /** Writes the closing brace at the start of a line and leaves its block. */
    method WriteBrace()
      requires Valid() && atLineStart && done < |tokens| && tokens[done].kind.RightBrace?
      modifies this
      ensures Valid() && done == old(done) + 1 && State() == LeaveBlock(old(State()), old(done))
    {
      hide Written;
      depth := if depth > 0 then depth - 1 else 0;
      if kinds != [] { kinds := kinds[..|kinds| - 1]; }
      if names != [] { names := names[..|names| - 1]; }
      StartText("}");
      previousKind := RightBrace;
    }

    /** Writes a closing brace on a line of its own. */
    method WriteCloseBrace()
      requires Valid() && done + 1 < |tokens| && tokens[done].kind.RightBrace?
      modifies this
      ensures Valid() && done == old(done) + 1 && State() == CloseBrace(old(State()), tokens, old(done))
    {
      hide Written;
      if !atLineStart {
        NewLine(false);
      }
      WriteBrace();
      if !tokens[done].kind.EndOfFile? {
        NewLine(depth == 0 || tokens[done - 1].endLine + 1 < tokens[done].line);
      }
    }

    method WriteSeparator(kind: Kind)
      modifies this`out
      ensures out == old(out) + Separator(previousKind, kind)
    {
      if IsBinaryOperator(kind) || IsBinaryOperator(previousKind) {
        out := out + " ";
      } else if kind.LeftBrace? {
        out := out + " ";
      } else if kind.Comma? {
      } else if previousKind.Comma? {
        out := out + " ";
      } else if IsWord(kind) && IsWord(previousKind) {
        out := out + " ";
      } else if !StartsCompact(kind) && !EndsCompact(previousKind) {
        out := out + " ";
      }
    }

    /** Writes a token after others on its line. */
    method ContinueText(token: Token)
      requires Valid() && !atLineStart && done < |tokens| && Current(State(), tokens, done)
      requires token == tokens[done] && !token.kind.RightBrace?
      modifies this
      ensures Valid() && done == old(done) + 1 && State() == old(State())
    {
      hide Written, Separator;
      WrittenMore(tokens, page, done);
      Assoc(out, Separator(previousKind, token.kind), token.lexeme);
      WriteSeparator(token.kind);
      out := out + token.lexeme;
      done := done + 1;
    }

    method WriteToken()
      requires Valid() && done < |tokens| && Current(State(), tokens, done) && !tokens[done].kind.RightBrace?
      modifies this
      ensures Valid() && done == old(done) + 1 && State() == PutToken(old(State()), tokens, old(done))
    {
      hide Written, Separator, Current;
      var token := tokens[done];
      if atLineStart {
        StartText(token.lexeme);
      } else {
        ContinueText(token);
      }
      if token.kind.LeftBrace? {
        var blockKind, blockName := previousKind, "";
        if previousKind.Identifier? && done >= 3 {
          blockKind, blockName := tokens[done - 3].kind, tokens[done - 2].lexeme;
        }
        kinds, names, depth := kinds + [blockKind], names + [blockName], depth + 1;
        NewLine(false);
      } else if token.kind.Semicolon? {
        NewLine(false);
      }
      previousKind := token.kind;
    }

    method BreakLine(token: Token)
      requires Valid()
      modifies this
      ensures Valid() && done == old(done) && State() == Break(old(State()), token, done)
    {
      hide Written;
      var inFeatureFlag := kinds != [] && kinds[|kinds| - 1].FeatureFlag?;
      var inStateOptions := kinds != [] && kinds[|kinds| - 1].State?;
      var inGarbageCollection := names != [] && names[|names| - 1] == GARBAGE_COLLECTION;
      if !atLineStart
         && (|| token.line > previousLine
             || (inFeatureFlag && IsFeatureFlagMember(token) && !previousKind.LeftBrace?)
             || (inStateOptions && IsStateOption(token) && !previousKind.LeftBrace?)
             || (inGarbageCollection && IsGarbageCollectionMember(token) && !previousKind.LeftBrace?)) {
        NewLine(token.line > previousLine + 1);
      }
    }

    method StepToken()
      requires Valid() && done + 1 < |tokens| && Consistent(State(), tokens, done)
      modifies this
      ensures Valid() && done == old(done) + 1 && State() == Step(old(State()), tokens, old(done))
    {
      hide Written, Separator;
      var token := tokens[done];
      BreakLine(token);
      if token.kind.RightBrace? {
        WriteCloseBrace();
      } else {
        WriteToken();
      }
      previousLine := token.line;
    }

    /** Writes the tokens before the first end of file. */
    method WriteAll()
      requires Valid() && State() == START && done == 0 && Ended(tokens)
      modifies this
      ensures Valid() && done == Count(tokens, 0) && State() == Run(tokens, done)
    {
      hide Written, Consistent, Step;
      while !tokens[done].kind.EndOfFile?
        invariant Valid() && done < |tokens| && State() == Run(tokens, done)
        invariant forall k :: 0 <= k < done ==> !tokens[k].kind.EndOfFile?
        decreases |tokens| - done
      {
        RunConsistent(tokens, done);
        StepToken();
      }
      CountIsFirst(tokens, 0, done);
    }

    method TrimNewLines()
      modifies this`out
      ensures out == TrimNewlines(old(out))
    {
      while out != "" && out[|out| - 1] == '\n'
        invariant TrimNewlines(out) == TrimNewlines(old(out))
        decreases |out|
      {
        out := out[..|out| - 1];
      }
    }
  }

  /** Formats a token list that ends with an end of file, unless errors were reported before. */
  method Format(tokens: seq<Token>, hasErrors: bool) returns (result: string)
    requires Ended(tokens)
    ensures result == if hasErrors then "" else Formatted(tokens)
  {
    if hasErrors { return ""; }
    var formatter := new TokenFormatter(tokens);
    formatter.WriteAll();
    formatter.TrimNewLines();
    result := formatter.out + "\n";
  }

  lemma {:induction false} CountIsFirst(tokens: seq<Token>, from: nat, n: nat)
    requires Ended(tokens) && from <= n < |tokens| && tokens[n].kind.EndOfFile?
    requires forall i :: 0 <= i < n ==> !tokens[i].kind.EndOfFile?
    ensures Count(tokens, from) == n
    decreases n - from
  {
    if from < n { CountIsFirst(tokens, from + 1, n); }
  }
}
