/** The token formatter keeps the tokens: it puts white space around them and changes nothing else. */
module TokenConservation {
  import opened FormatTokens
  import opened Sequences
  import opened Strings
  import opened TokenGaps
  import opened TokenLayout
  import opened TokenText

  /** The first `n` tokens, each followed by its gap, after the gap that comes first. */
  function Interleave(tokens: seq<Token>, gaps: seq<string>, n: nat): string
    requires n <= |tokens| && n < |gaps|
  {
    if n == 0 then gaps[0] else Interleave(tokens, gaps, n - 1) + (TextOf(tokens[n - 1]) + gaps[n])
  }

  predicate IsWhite(s: string) {
    forall c :: c in s ==> c == ' ' || c == '\n'
  }

  predicate NeedsGap(tokens: seq<Token>, k: nat)
    requires k < |tokens|
  {
    0 < k && IsWord(tokens[k - 1].kind) && IsWord(tokens[k].kind)
  }

  /** `text` is the first `n` tokens in order with white gaps, never an empty one between two words. */
  ghost predicate Interleaves(tokens: seq<Token>, gaps: seq<string>, n: nat, text: string)
    requires n <= |tokens|
  {
    && |gaps| == n + 1
    && (forall k :: 0 <= k <= n ==> IsWhite(gaps[k]))
    && (forall k :: 0 <= k < n && NeedsGap(tokens, k) ==> gaps[k] != "")
    && text == Interleave(tokens, gaps, n)
  }

  lemma {:induction false} SpacesAreWhite(n: nat)
    ensures IsWhite(Indent(n))
  {
    if n > 0 { SpacesAreWhite(n - 1); }
  }

  // ------------------------------------------------------------------------ the formatted text

  /** The gaps of a text with a last one after its tokens. */
  function GapsOf(tokens: seq<Token>, n: nat, last: string): (r: seq<string>)
    requires n <= |tokens|
    ensures |r| == n + 1 && r[n] == last && forall k :: 0 <= k < n ==> r[k] == Gap(tokens, k)
  {
    seq(n + 1, k requires 0 <= k <= n => if k < n then Gap(tokens, k) else last)
  }

  lemma {:induction false} InterleaveIsLaid(tokens: seq<Token>, gaps: seq<string>, n: nat)
    requires n <= |tokens| && n < |gaps| && forall k :: 0 <= k < n ==> gaps[k] == Gap(tokens, k)
    ensures Interleave(tokens, gaps, n) == Laid(tokens, n) + gaps[n]
  {
    hide Gap, TextOf;
    if n > 0 {
      InterleaveIsLaid(tokens, gaps, n - 1);
      var laid, text := Laid(tokens, n - 1), TextOf(tokens[n - 1]);
      Assoc(laid, gaps[n - 1], text + gaps[n]);
      Assoc(gaps[n - 1], text, gaps[n]);
      Assoc(laid, gaps[n - 1] + text, gaps[n]);
    }
  }

  lemma GapIsWhite(tokens: seq<Token>, k: nat)
    requires k < |tokens|
    ensures IsWhite(Gap(tokens, k)) && (NeedsGap(tokens, k) ==> Gap(tokens, k) != "")
  {
    if k > 0 {
      KindsAre(tokens[k - 1].kind);
      KindsAre(tokens[k].kind);
      SpacesAreWhite(DepthOfLine(tokens, k));
      hide LineEnds, BlankAfter, Indent, DepthOfLine;
    }
  }

  /** The formatted text less the newlines that are trimmed and the one put in their place. */
  lemma FormattedInterleaves(tokens: seq<Token>) returns (gaps: seq<string>, text: string)
    requires Ended(tokens)
    ensures Interleaves(tokens, gaps, Count(tokens, 0), text)
    ensures forall k :: 0 <= k < Count(tokens, 0) ==> gaps[k] == Gap(tokens, k)
    ensures Formatted(tokens) == TrimNewlines(text) + "\n"
  {
    var n := Count(tokens, 0);
    gaps, text := GapsOf(tokens, n, ""), Laid(tokens, n);
    FormattedIsLaid(tokens);
    InterleaveIsLaid(tokens, gaps, n);
    assert text + "" == text;
    forall k | 0 <= k <= n ensures IsWhite(gaps[k]) && (k < n && NeedsGap(tokens, k) ==> gaps[k] != "") {
      if k < n { GapIsWhite(tokens, k); }
    }
  }

  predicate IsSpace(c: char) { c == ' ' || c == '\n' || c == '\t' || c == '\r' }

  /** The text without its white space. */
  function Strip(s: string): string {
    if s == "" then "" else (if IsSpace(s[0]) then "" else [s[0]]) + Strip(s[1..])
  }

  /** The first `n` tokens, one after the other, without white space. */
  function Stripped(tokens: seq<Token>, n: nat): string
    requires n <= |tokens|
  {
    if n == 0 then "" else Stripped(tokens, n - 1) + Strip(TextOf(tokens[n - 1]))
  }

  lemma {:induction false} StripConcat(a: string, b: string)
    ensures Strip(a + b) == Strip(a) + Strip(b)
  {
    if a == "" {
      assert a + b == b;
    } else {
      assert (a + b)[1..] == a[1..] + b;
      StripConcat(a[1..], b);
    }
  }

  lemma {:induction false} StripWhite(s: string)
    requires IsWhite(s)
    ensures Strip(s) == ""
  {
    if s != "" {
      assert s[0] in s && forall c :: c in s[1..] ==> c in s;
      StripWhite(s[1..]);
    }
  }

  lemma {:induction false} StripInterleave(tokens: seq<Token>, gaps: seq<string>, n: nat)
    requires n <= |tokens| && n < |gaps| && forall k :: 0 <= k <= n ==> IsWhite(gaps[k])
    ensures Strip(Interleave(tokens, gaps, n)) == Stripped(tokens, n)
  {
    hide Strip;
    StripWhite(gaps[n]);
    if n > 0 {
      StripInterleave(tokens, gaps, n - 1);
      StripConcat(Interleave(tokens, gaps, n - 1), TextOf(tokens[n - 1]) + gaps[n]);
      StripConcat(TextOf(tokens[n - 1]), gaps[n]);
    }
  }

  lemma {:induction false} StripTrim(s: string)
    ensures Strip(TrimNewlines(s)) == Strip(s)
  {
    if s != "" && s[|s| - 1] == '\n' {
      StripTrim(s[..|s| - 1]);
      StripConcat(s[..|s| - 1], "\n");
      assert s[..|s| - 1] + "\n" == s;
    }
  }

  /** White space aside, the output is the tokens before the first end of file, in order. */
  lemma {:induction false} TokensConserved(tokens: seq<Token>)
    requires Ended(tokens)
    ensures Strip(Formatted(tokens)) == Stripped(tokens, Count(tokens, 0))
  {
    var gaps, text := FormattedInterleaves(tokens);
    StripInterleave(tokens, gaps, Count(tokens, 0));
    StripTrim(text);
    StripConcat(TrimNewlines(text), "\n");
  }

  function Lexemes(tokens: seq<Token>, n: nat): string
    requires n <= |tokens|
  {
    if n == 0 then "" else Lexemes(tokens, n - 1) + Strip(tokens[n - 1].lexeme)
  }

  /** On the tokens of a lexer, whose closing braces read `}`, the output is the lexemes. */
  lemma LexemesConserved(tokens: seq<Token>)
    requires Ended(tokens)
    requires forall k :: 0 <= k < |tokens| && tokens[k].kind.RightBrace? ==> tokens[k].lexeme == "}"
    ensures Strip(Formatted(tokens)) == Lexemes(tokens, Count(tokens, 0))
  {
    TokensConserved(tokens);
    StrippedIsLexemes(tokens, Count(tokens, 0));
  }

  lemma {:induction false} StrippedIsLexemes(tokens: seq<Token>, n: nat)
    requires n <= |tokens|
    requires forall k :: 0 <= k < |tokens| && tokens[k].kind.RightBrace? ==> tokens[k].lexeme == "}"
    ensures Stripped(tokens, n) == Lexemes(tokens, n)
  {
    if n > 0 { StrippedIsLexemes(tokens, n - 1); }
  }

  // ----------------------------------------------------------------------------- blank lines

  predicate NoNewline(s: string) { '\n' !in s }

  /** Two blank lines in a row would show as three newlines. */
  ghost predicate NoTripleNewline(s: string) {
    forall i :: 0 <= i && i + 2 < |s| ==> !(s[i] == '\n' && s[i + 1] == '\n' && s[i + 2] == '\n')
  }

  lemma {:induction false} RenderTokensOneLine(tokens: seq<Token>, from: nat, end: nat)
    requires from < end <= |tokens|
    requires forall k :: 0 <= k < end ==> TextOf(tokens[k]) != "" && NoNewline(TextOf(tokens[k]))
    ensures RenderTokens(tokens, from, end) != "" && NoNewline(RenderTokens(tokens, from, end))
    decreases end
  {
    if from == end - 1 {
      RenderFirst(tokens, from);
    } else {
      hide TextOf, Separator, RenderTokens;
      RenderTokensOneLine(tokens, from, end - 1);
      RenderMore(tokens, from, end - 1);
      SeparatorNoNewline(tokens[end - 2].kind, tokens[end - 1].kind);
    }
  }

  lemma SeparatorNoNewline(a: Kind, b: Kind)
    ensures NoNewline(Separator(a, b))
  {
  }

  lemma RenderLineOneLine(tokens: seq<Token>, line: Line)
    requires line.Text? && line.from < line.end <= |tokens|
    requires forall k :: 0 <= k < line.end ==> TextOf(tokens[k]) != "" && NoNewline(TextOf(tokens[k]))
    ensures RenderLine(tokens, line) != "" && NoNewline(RenderLine(tokens, line))
  {
    RenderTokensOneLine(tokens, line.from, line.end);
    SpacesNoNewline(line.indent);
  }

  lemma {:induction false} SpacesNoNewline(n: nat)
    ensures NoNewline(Indent(n))
  {
    if n > 0 { SpacesNoNewline(n - 1); }
  }

  /** Lines of tokens, however many blank lines come between, never show two blank lines in a row. */
  lemma {:induction false} LinesNoTriple(tokens: seq<Token>, lines: seq<Line>, end: nat)
    requires Tiles(tokens, lines, end) && end <= |tokens|
    requires forall k :: 0 <= k < end ==> TextOf(tokens[k]) != "" && NoNewline(TextOf(tokens[k]))
    ensures NoTripleNewline(RenderLines(tokens, lines))
    ensures lines != [] && lines[|lines| - 1].Text? ==>
      var s := RenderLines(tokens, lines); |s| > 1 && s[|s| - 2] != '\n'
    decreases |lines|
  {
    if lines != [] {
      var init, last := lines[..|lines| - 1], lines[|lines| - 1];
      var before, line := RenderLines(tokens, init), RenderLine(tokens, last);
      hide NoTripleNewline, NoNewline;
      if last.Blank? {
        LinesNoTriple(tokens, init, end);
        assert RenderLines(tokens, lines) == before + "\n";
        EndWithBlank(before);
      } else {
        LinesNoTriple(tokens, init, last.from);
        RenderLineOneLine(tokens, last);
        AppendLine(before, line);
      }
    }
  }

  lemma EndWithBlank(s: string)
    requires NoTripleNewline(s) && |s| > 1 && s[|s| - 2] != '\n'
    ensures NoTripleNewline(s + "\n")
  {
    forall i | 0 <= i && i + 2 < |s + "\n"|
      ensures !((s + "\n")[i] == '\n' && (s + "\n")[i + 1] == '\n' && (s + "\n")[i + 2] == '\n')
    {
      if i + 2 == |s| { assert (s + "\n")[i] == s[|s| - 2]; }
    }
  }

  lemma AppendLine(before: string, line: string)
    requires NoTripleNewline(before) && line != "" && NoNewline(line)
    ensures NoTripleNewline(before + line + "\n")
    ensures var s := before + line + "\n"; |s| > 1 && s[|s| - 2] != '\n'
  {
    var s := before + line + "\n";
    forall i | |before| <= i < |s| - 1 ensures s[i] != '\n' {
      assert s[i] == line[i - |before|] && line[i - |before|] in line;
    }
  }

  lemma {:induction false} TrimIsPrefix(s: string)
    ensures TrimNewlines(s) <= s
    ensures TrimNewlines(s) != "" ==> TrimNewlines(s)[|TrimNewlines(s)| - 1] != '\n'
  {
    if s != "" && s[|s| - 1] == '\n' { TrimIsPrefix(s[..|s| - 1]); }
  }

  lemma {:induction false} FormattedIsLines(tokens: seq<Token>)
    requires Ended(tokens)
    ensures Formatted(tokens) == TrimNewlines(RenderLines(tokens, Lines(tokens))) + "\n"
  {
    var n := Count(tokens, 0);
    var p := Run(tokens, n).page;
    hide RenderLine;
    if p.atLineStart {
      assert Written(tokens, p, n) == RenderLines(tokens, p.lines);
    } else {
      RenderLinesConcat(tokens, p.lines, Text(p.indent, p.from, n));
      TrimLast(Written(tokens, p, n));
    }
  }

  /** With nonempty lexemes on one line each, the output never has two blank lines in a row. */
  lemma NoTwoBlankLines(tokens: seq<Token>)
    requires Ended(tokens)
    requires forall k :: 0 <= k < Count(tokens, 0) ==> TextOf(tokens[k]) != "" && NoNewline(TextOf(tokens[k]))
    ensures NoTripleNewline(Formatted(tokens))
  {
    hide RenderLines, NoTripleNewline, Tiles, Lines, Formatted;
    LinesPlaced(tokens);
    FormattedIsLines(tokens);
    LinesNoTriple(tokens, Lines(tokens), Count(tokens, 0));
    TrimmedNoTriple(RenderLines(tokens, Lines(tokens)));
  }

  lemma TrimmedNoTriple(s: string)
    requires NoTripleNewline(s)
    ensures NoTripleNewline(TrimNewlines(s) + "\n")
  {
    TrimIsPrefix(s);
    var t := TrimNewlines(s);
    forall i | 0 <= i && i + 2 < |t + "\n"|
      ensures !((t + "\n")[i] == '\n' && (t + "\n")[i + 1] == '\n' && (t + "\n")[i + 2] == '\n')
    {
      if i + 2 < |t| {
        assert t[i] == s[i] && t[i + 1] == s[i + 1] && t[i + 2] == s[i + 2];
      }
    }
  }
}
