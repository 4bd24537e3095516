/** The token formatter: one pass over the tokens of a file that decides line breaks and spacing. */
module FormatTokens {
  import opened Strings

  /**
   Token kinds, as far as the formatter tells them apart: `Word` stands for the literals and all
   the keywords it treats alike.  `on` is the one keyword it does not count as a word.
   */
  datatype Kind =
    | EndOfFile | Identifier | FeatureFlag | State | Terminal | Word | On | Unknown
    | LeftBrace | RightBrace | LeftParen | RightParen | LeftBracket | RightBracket | Less | Greater
    | Comma | Colon | Semicolon | Dot | Question | Bang
    | Arrow | Equals | EqualEqual | BangEqual | LessEqual | GreaterEqual
    | Plus | Minus | Star | Slash | Percent | AndAnd | OrOr

  datatype Token = Token(kind: Kind, lexeme: string, line: nat, endLine: nat)

  predicate IsWord(k: Kind) {
    k.Identifier? || k.FeatureFlag? || k.State? || k.Terminal? || k.Word?
  }

  predicate IsBinaryOperator(k: Kind) {
    k.Arrow? || k.Equals? || k.EqualEqual? || k.BangEqual? || k.LessEqual? || k.GreaterEqual?
    || k.Plus? || k.Minus? || k.Star? || k.Slash? || k.Percent? || k.AndAnd? || k.OrOr?
  }

  predicate StartsCompact(k: Kind) {
    k.LeftParen? || k.LeftBracket? || k.Less? || k.Dot? || k.Comma? || k.Semicolon? || k.Colon?
    || k.Question? || k.RightParen? || k.RightBracket? || k.Greater?
  }

  predicate EndsCompact(k: Kind) {
    k.LeftParen? || k.LeftBracket? || k.Less? || k.Dot? || k.Bang?
  }

  predicate IsFeatureFlagMember(t: Token) {
    t.kind.Identifier? && t.lexeme in {"type", "default", "scope", "owner", "description", "expires"}
  }

  predicate IsStateOption(t: Token) {
    t.kind.Terminal? || (t.kind.Identifier? && t.lexeme == GARBAGE_COLLECTION)
  }

  predicate IsGarbageCollectionMember(t: Token) {
    t.kind.Identifier? && t.lexeme in {"after", "mode"}
  }

  const GARBAGE_COLLECTION := "garbage_collection"

  /** What is put between two tokens of one line. */
  function Separator(previous: Kind, k: Kind): string {
    if IsBinaryOperator(k) || IsBinaryOperator(previous) then " "
    else if k.LeftBrace? then " "
    else if k.Comma? then ""
    else if previous.Comma? then " "
    else if IsWord(k) && IsWord(previous) then " "
    else if !StartsCompact(k) && !EndsCompact(previous) then " "
    else ""
  }

  /** What is put for a token: its lexeme, save that a closing brace is always written as one. */
  function TextOf(t: Token): string {
    if t.kind.RightBrace? then "}" else t.lexeme
  }

  // --------------------------------------------------------------------------- lines of tokens

  /** A line of output: the tokens from `from` up to `end` at an indentation, or nothing. */
  datatype Line = Text(indent: nat, from: nat, end: nat) | Blank

  /** The lines ended so far and the one being written, which starts with token `from`. */
  datatype Page = Page(lines: seq<Line>, atLineStart: bool, from: nat, indent: nat)

  /** The formatter between two tokens. */
  datatype Layout = Layout(
    page: Page, depth: nat, wasBlank: bool, previousKind: Kind, previousLine: nat,
    kinds: seq<Kind>, names: seq<string>)

  const START := Layout(Page([], true, 0, 0), 0, false, EndOfFile, 0, [], [])

  function EndPageLine(p: Page, end: nat, blank: bool): Page {
    p.(lines := p.lines + [Text(p.indent, p.from, end)] + if blank then [Blank] else [], atLineStart := true)
  }

  function EndLine(l: Layout, end: nat, blankAfter: bool): Layout {
    var blank := blankAfter && !l.wasBlank;
    l.(page := EndPageLine(l.page, end, blank), previousKind := EndOfFile, wasBlank := blank)
  }

  predicate BreaksBefore(l: Layout, t: Token) {
    && !l.page.atLineStart
    && (|| t.line > l.previousLine
        || (l.kinds != [] && l.kinds[|l.kinds| - 1].FeatureFlag?
            && IsFeatureFlagMember(t) && !l.previousKind.LeftBrace?)
        || (l.kinds != [] && l.kinds[|l.kinds| - 1].State? && IsStateOption(t) && !l.previousKind.LeftBrace?)
        || (l.names != [] && l.names[|l.names| - 1] == GARBAGE_COLLECTION && IsGarbageCollectionMember(t)
            && !l.previousKind.LeftBrace?))
  }

  function Pop<T>(s: seq<T>): seq<T> {
    if s == [] then [] else s[..|s| - 1]
  }

  function Lower(depth: nat): nat {
    if depth == 0 then 0 else depth - 1
  }

  ghost predicate Ended(tokens: seq<Token>) {
    |tokens| > 0 && tokens[|tokens| - 1].kind.EndOfFile?
  }

  function StartLine(p: Page, i: nat, indent: nat): Page {
    p.(atLineStart := false, from := i, indent := indent)
  }

  function EndOpenLine(l: Layout, i: nat): Layout {
    if l.page.atLineStart then l else EndLine(l, i, false)
  }

  function LeaveBlock(l: Layout, i: nat): Layout {
    l.(page := StartLine(l.page, i, Lower(l.depth)), depth := Lower(l.depth),
       kinds := Pop(l.kinds), names := Pop(l.names), previousKind := RightBrace)
  }

  function CloseBrace(l: Layout, tokens: seq<Token>, i: nat): Layout
    requires i + 1 < |tokens|
  {
    var closed := LeaveBlock(EndOpenLine(l, i), i);
    var next := tokens[i + 1];
    if next.kind.EndOfFile? then closed
    else EndLine(closed, i + 1, closed.depth == 0 || tokens[i].endLine + 1 < next.line)
  }

  /** The block that the brace `i` opens is known by the two tokens before it, or by the one. */
  function EnterBlock(l: Layout, tokens: seq<Token>, i: nat): Layout
    requires i < |tokens|
  {
    var named := l.previousKind.Identifier? && i >= 2;
    l.(kinds := l.kinds + [if named then tokens[i - 2].kind else l.previousKind],
       names := l.names + [if named then tokens[i - 1].lexeme else ""],
       depth := l.depth + 1)
  }

  function Begin(l: Layout, i: nat): Layout {
    if l.page.atLineStart then l.(page := StartLine(l.page, i, l.depth)) else l
  }

  function PutToken(l: Layout, tokens: seq<Token>, i: nat): Layout
    requires i < |tokens|
  {
    var started := Begin(l, i);
    var after :=
      if tokens[i].kind.LeftBrace? then EndLine(EnterBlock(started, tokens, i), i + 1, false)
      else if tokens[i].kind.Semicolon? then EndLine(started, i + 1, false)
      else started;
    after.(previousKind := tokens[i].kind)
  }

  function Break(l: Layout, token: Token, i: nat): Layout {
    if BreaksBefore(l, token) then EndLine(l, i, token.line > l.previousLine + 1) else l
  }

  /** The formatter after one more token. */
  function Step(l: Layout, tokens: seq<Token>, i: nat): Layout
    requires i + 1 < |tokens|
  {
    var broken := Break(l, tokens[i], i);
    var put := if tokens[i].kind.RightBrace? then CloseBrace(broken, tokens, i) else PutToken(broken, tokens, i);
    put.(previousLine := tokens[i].line)
  }

  function Run(tokens: seq<Token>, n: nat): Layout
    requires n < |tokens|
  {
    if n == 0 then START else Step(Run(tokens, n - 1), tokens, n - 1)
  }

  /** The number of tokens before the first end of file. */
  function Count(tokens: seq<Token>, n: nat): (c: nat)
    requires Ended(tokens) && n < |tokens|
    requires forall i :: 0 <= i < n ==> !tokens[i].kind.EndOfFile?
    ensures c < |tokens| && tokens[c].kind.EndOfFile?
    ensures forall i :: 0 <= i < c ==> !tokens[i].kind.EndOfFile?
    decreases |tokens| - n
  {
    if tokens[n].kind.EndOfFile? then n else Count(tokens, n + 1)
  }

  function PageLines(p: Page, n: nat): seq<Line> {
    if p.atLineStart then p.lines else p.lines + [Text(p.indent, p.from, n)]
  }

  /** The lines of the whole output, the last one included whether or not it was ended. */
  function Lines(tokens: seq<Token>): seq<Line>
    requires Ended(tokens)
  {
    var n := Count(tokens, 0);
    PageLines(Run(tokens, n).page, n)
  }

  // ---------------------------------------------------------------------------------- rendering

  function RenderTokens(tokens: seq<Token>, from: nat, end: nat): string {
    if end <= from || |tokens| < end then ""
    else RenderTokens(tokens, from, end - 1)
         + (if from == end - 1 then "" else Separator(tokens[end - 2].kind, tokens[end - 1].kind))
         + TextOf(tokens[end - 1])
  }

  function RenderLine(tokens: seq<Token>, line: Line): string {
    if line.Blank? then "" else Indent(line.indent) + RenderTokens(tokens, line.from, line.end)
  }

  function RenderLines(tokens: seq<Token>, lines: seq<Line>): string {
    if lines == [] then ""
    else RenderLines(tokens, lines[..|lines| - 1]) + RenderLine(tokens, lines[|lines| - 1]) + "\n"
  }

  /** What the formatter has written before token `n`. */
  function Written(tokens: seq<Token>, p: Page, n: nat): string {
    RenderLines(tokens, p.lines) + if p.atLineStart then "" else RenderLine(tokens, Text(p.indent, p.from, n))
  }

  function TrimNewlines(s: string): string {
    if s != "" && s[|s| - 1] == '\n' then TrimNewlines(s[..|s| - 1]) else s
  }

  /** The formatted text. */
  function Formatted(tokens: seq<Token>): string
    requires Ended(tokens)
  {
    var n := Count(tokens, 0);
    TrimNewlines(Written(tokens, Run(tokens, n).page, n)) + "\n"
  }
}
