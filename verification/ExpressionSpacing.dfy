/** Exactly when normalising an expression leaves none of the patterns it replaces. */
module ExpressionSpacing {
  import opened Expressions

  const OPENERS: set<char> := {'[', '('}
  const CLOSERS: set<char> := {']', ')', ','}

  function Spaces(n: nat): string { seq(n, _ => ' ') }

  /** The number of spaces in front. */
  function Lead(s: string): (n: nat)
    ensures n <= |s| && (n < |s| ==> s[n] != ' ') && forall i :: 0 <= i < n ==> s[i] == ' '
  {
    if s == "" || s[0] != ' ' then 0 else 1 + Lead(s[1..])
  }

  function Least(a: nat, b: nat): nat { if a < b then a else b }

  /** How many of the two neighbours of a run of spaces take one of them. */
  function Touching(left: set<char>, right: set<char>, p: char, rest: string): nat {
    (if p in left then 1 else 0) + if rest != "" && rest[0] in right then 1 else 0
  }

  /** What is left of a first run of spaces. */
  function Kept(left: set<char>, right: set<char>, p: char, n: nat, rest: string): nat {
    n - Least(n, Touching(left, right, p, rest))
  }

  /**
   The text after a character `p`, each run of spaces shorter by one for a character of `left` before
   it and by one for a character of `right` after it, as far as it has spaces.
   */
  function Shrunk(left: set<char>, right: set<char>, p: char, s: string): string
    decreases |s|
  {
    var n := Lead(s);
    var rest := s[n..];
    var kept := Spaces(Kept(left, right, p, n, rest));
    if rest == "" then kept else kept + ([rest[0]] + Shrunk(left, right, rest[0], rest[1..]))
  }

  // ------------------------------------------------------------------------- single replacements

  lemma SpacesFront(n: nat, s: string)
    requires n > 0
    ensures Spaces(n) + s == [' '] + (Spaces(n - 1) + s)
  {
    assert Spaces(n) == [' '] + Spaces(n - 1);
  }

  lemma LeadOf(n: nat, rest: string)
    requires rest == "" || rest[0] != ' '
    ensures Lead(Spaces(n) + rest) == n && (Spaces(n) + rest)[n..] == rest
  {
    var s := Spaces(n) + rest;
    assert forall i :: 0 <= i < n ==> s[i] == ' ';
    assert rest != "" ==> s[n] == rest[0];
  }

  lemma SplitLead(s: string)
    ensures s == Spaces(Lead(s)) + s[Lead(s)..]
  {
    assert s[..Lead(s)] == Spaces(Lead(s));
  }

  /** A replacement that cannot start in the first `k` of a run of spaces leaves those. */
  lemma ReplaceAfterSpaces(s: string, from: string, c: char, k: nat)
    requires from != "" && k <= |s| && forall i :: 0 <= i < k ==> s[i] == ' ' && !StartsWith(s[i..], from)
    ensures Replace(s, from, c) == Spaces(k) + Replace(s[k..], from, c)
  {
    ReplaceSkips(s, from, c, k);
    assert s[..k] == Spaces(k);
  }

  lemma ReplaceOther(s: string, from: string, c: char)
    requires from != "" && s != "" && !StartsWith(s, from)
    ensures Replace(s, from, c) == [s[0]] + Replace(s[1..], from, c)
  {
  }

  lemma StartsWithPair(s: string, a: char, b: char)
    ensures StartsWith(s, [a, b]) <==> |s| >= 2 && s[0] == a && s[1] == b
  {
    if |s| >= 2 { assert s[..2] == [s[0], s[1]]; }
  }

  /** An opener's replacement leaves the run of spaces in front. */
  lemma OpenAfterSpaces(o: char, s: string)
    requires o != ' '
    ensures Replace(s, [o, ' '], o) == Spaces(Lead(s)) + Replace(s[Lead(s)..], [o, ' '], o)
  {
    forall i | 0 <= i < Lead(s) ensures s[i] == ' ' && !StartsWith(s[i..], [o, ' ']) {
      StartsWithPair(s[i..], o, ' ');
    }
    ReplaceAfterSpaces(s, [o, ' '], o, Lead(s));
  }

  /** Replacing at an opener takes the first space after it. */
  lemma OpenFront(o: char, c: char, tail: string)
    requires o != ' ' && c != ' '
    ensures var m := Lead(tail);
      Replace([c] + tail, [o, ' '], o) ==
        [c] + (Spaces(if c == o && m > 0 then m - 1 else m) + Replace(tail[m..], [o, ' '], o))
  {
    hide Replace, StartsWith, Spaces;
    var m, s := Lead(tail), [c] + tail;
    StartsWithPair(s, o, ' ');
    if c == o && m > 0 {
      ReplaceMatch(s, [o, ' '], o);
      assert s[2..] == tail[1..];
      OpenAfterSpaces(o, tail[1..]);
      assert tail[1..][m - 1..] == tail[m..];
    } else {
      ReplaceOther(s, [o, ' '], o);
      OpenAfterSpaces(o, tail);
      assert s[1..] == tail;
    }
  }

  /** The passes on an opener shorten the first run of spaces, and then those after it. */
  lemma OpenShrinks(p: char, o: char, s: string)
    requires o != ' '
    ensures var n := Lead(s);
      Shrunk({o}, {}, p, s) == Spaces(if p == o && n > 0 then n - 1 else n)
        + if s[n..] == "" then "" else [s[n]] + Shrunk({o}, {}, s[n], s[n..][1..])
  {
    hide Spaces, Lead;
  }

  lemma {:induction false} OpenPass(p: char, o: char, s: string)
    requires o != ' '
    ensures var n := Lead(s);
      Shrunk({o}, {}, p, s) == Spaces(if p == o && n > 0 then n - 1 else n) + Replace(s[n..], [o, ' '], o)
    decreases |s|
  {
    assert Replace("", [o, ' '], o) == "";
    hide Shrunk, Lead, Spaces, Replace;
    var n := Lead(s);
    var rest := s[n..];
    OpenShrinks(p, o, s);
    if rest != "" {
      OpenPass(rest[0], o, rest[1..]);
      assert rest == [rest[0]] + rest[1..];
      OpenFront(o, rest[0], rest[1..]);
    }
  }

  /** Replacing at a closer takes the last space of the run before it. */
  lemma {:induction false} CloseFront(c: char, s: string)
    requires c != ' '
    ensures var n := Lead(s);
      var rest := s[n..];
      Replace(s, [' ', c], c) ==
        if rest == "" then Spaces(n)
        else Spaces(if rest[0] == c && n > 0 then n - 1 else n) + ([rest[0]] + Replace(rest[1..], [' ', c], c))
  {
    hide Replace, StartsWith, Spaces;
    var n, from := Lead(s), [' ', c];
    var rest := s[n..];
    var k := if rest != "" && rest[0] == c && n > 0 then n - 1 else n;
    forall i | 0 <= i < k ensures s[i] == ' ' && !StartsWith(s[i..], from) {
      StartsWithPair(s[i..], ' ', c);
      if i + 1 < n { assert s[i + 1] == ' '; }
    }
    ReplaceAfterSpaces(s, from, c, k);
    StartsWithPair(s[k..], ' ', c);
    if rest == "" {
      ReplaceNothing(from, c);
    } else if k < n {
      ReplaceMatch(s[k..], from, c);
      assert s[k..][2..] == rest[1..];
    } else {
      ReplaceOther(rest, from, c);
    }
  }

  lemma ReplaceNothing(from: string, c: char)
    requires from != ""
    ensures Replace("", from, c) == "" && Spaces(0) == ""
  {
  }

  lemma {:induction false} ClosePass(p: char, c: char, s: string)
    requires c != ' '
    ensures Replace(s, [' ', c], c) == Shrunk({}, {c}, p, s)
    decreases |s|
  {
    hide Replace, Spaces, Shrunk, Lead;
    var rest := s[Lead(s)..];
    CloseFront(c, s);
    ShrunkAtCloser(p, c, s);
    if rest != "" { ClosePass(rest[0], c, rest[1..]); }
  }

  lemma ShrunkAtCloser(p: char, c: char, s: string)
    ensures var n := Lead(s);
      var rest := s[n..];
      Shrunk({}, {c}, p, s) ==
        if rest == "" then Spaces(n)
        else Spaces(if rest[0] == c && n > 0 then n - 1 else n) + ([rest[0]] + Shrunk({}, {c}, rest[0], rest[1..]))
  {
    hide Spaces;
  }

  /** Two rounds of shortening by different characters are one by all of them. */
  /** Shortening a text shortens its first run of spaces, and what follows it. */
  lemma ShrunkAt(left: set<char>, right: set<char>, p: char, n: nat, rest: string)
    requires rest == "" || rest[0] != ' '
    ensures rest == "" ==> Shrunk(left, right, p, Spaces(n) + rest) == Spaces(Kept(left, right, p, n, rest)) + rest
    ensures rest != "" ==>
      Shrunk(left, right, p, Spaces(n) + rest) ==
        Spaces(Kept(left, right, p, n, rest)) + ([rest[0]] + Shrunk(left, right, rest[0], rest[1..]))
  {
    LeadOf(n, rest);
    hide Kept;
    assert rest == "" ==> Spaces(Kept(left, right, p, n, rest)) + rest == Spaces(Kept(left, right, p, n, rest));
  }

  lemma KeptTwice(
    l1: set<char>, r1: set<char>, l2: set<char>, r2: set<char>, p: char, n: nat, rest: string, next: string)
    requires l1 !! l2 && r1 !! r2 && (rest == "" <==> next == "") && (rest != "" ==> next[0] == rest[0])
    ensures Kept(l2, r2, p, Kept(l1, r1, p, n, rest), next) == Kept(l1 + l2, r1 + r2, p, n, rest)
  {
  }

  lemma {:induction false} ShrunkTwice(
    l1: set<char>, r1: set<char>, l2: set<char>, r2: set<char>, p: char, s: string)
    requires l1 !! l2 && r1 !! r2
    ensures Shrunk(l2, r2, p, Shrunk(l1, r1, p, s)) == Shrunk(l1 + l2, r1 + r2, p, s)
    decreases |s|
  {
    hide Shrunk, Spaces, Kept;
    var n := Lead(s);
    var rest := s[n..];
    var m := Kept(l1, r1, p, n, rest);
    SplitLead(s);
    ShrunkAt(l1, r1, p, n, rest);
    ShrunkAt(l1 + l2, r1 + r2, p, n, rest);
    hide Lead;
    if rest == "" {
      ShrunkAt(l2, r2, p, m, "");
      KeptTwice(l1, r1, l2, r2, p, n, rest, "");
    } else {
      var tail := Shrunk(l1, r1, rest[0], rest[1..]);
      var next := [rest[0]] + tail;
      ShrunkAt(l2, r2, p, m, next);
      KeptTwice(l1, r1, l2, r2, p, n, rest, next);
      assert next[1..] == tail;
      ShrunkTwice(l1, r1, l2, r2, rest[0], rest[1..]);
    }
  }

  const START := 'x'

  /** After the dots, normalising shortens the runs of spaces at brackets and commas. */
  lemma {:induction false} NormalizedIsShrunk(s: string)
    ensures Normalized(s) == Shrunk(OPENERS, CLOSERS, START, Replace(s, " . ", '.'))
  {
    hide Shrunk, Replace;
    var d := Replace(s, " . ", '.');
    OpenPassAll('[', d);
    var s2 := Replace(d, "[ ", '[');
    ClosePass(START, ']', s2);
    var s3 := Replace(s2, " ]", ']');
    OpenPassAll('(', s3);
    var s4 := Replace(s3, "( ", '(');
    ClosePass(START, ')', s4);
    var s5 := Replace(s4, " )", ')');
    ClosePass(START, ',', s5);
    ShrunkTwice({'['}, {}, {}, {']'}, START, d);
    ShrunkTwice({'['}, {']'}, {'('}, {}, START, d);
    ShrunkTwice({'[', '('}, {']'}, {}, {')'}, START, d);
    ShrunkTwice({'[', '('}, {']', ')'}, {}, {','}, START, d);
    var none: set<char> := {};
    assert {'['} + none == {'['} && none + {']'} == {']'} && {'['} + {'('} == OPENERS && {']'} + none == {']'};
    assert OPENERS + none == OPENERS && {']'} + {')'} == {']', ')'} && {']', ')'} + {','} == CLOSERS;
  }

  lemma {:induction false} OpenPassAll(o: char, s: string)
    requires o in OPENERS
    ensures Replace(s, [o, ' '], o) == Shrunk({o}, {}, START, s)
  {
    OpenPass(START, o, s);
    OpenAfterSpaces(o, s);
  }

  // ------------------------------------------------------------------------------- the condition

  /** A pattern that begins with `h` and goes on in `t`. */
  predicate Begins(h: char, t: string) {
    && t != ""
    && ((h in OPENERS && t[0] == ' ')
        || (h == ' ' && t[0] in CLOSERS)
        || (h == ' ' && t[0] == '.' && |t| > 1 && t[1] == ' '))
  }

  lemma TidyCons(h: char, t: string)
    ensures Tidy([h] + t) <==> Tidy(t) && !Begins(h, t)
  {
    hide Pair, Dotted;
    PairCons(h, t, '[', ' ');
    PairCons(h, t, ' ', ']');
    PairCons(h, t, '(', ' ');
    PairCons(h, t, ' ', ')');
    PairCons(h, t, ' ', ',');
    DottedCons(h, t);
  }

  lemma {:induction false} TidySpaces(n: nat, rest: string)
    requires n > 0 && (rest == "" || rest[0] != ' ')
    ensures Tidy(Spaces(n) + rest) <==> Tidy(rest) && !Begins(' ', rest)
  {
    hide Tidy;
    SpacesFront(n, rest);
    TidyCons(' ', Spaces(n - 1) + rest);
    if n == 1 {
      assert Spaces(0) + rest == rest;
    } else {
      TidySpaces(n - 1, rest);
      SpacesFront(n - 1, rest);
    }
  }

  /** No pattern after the character `p`; a dot is `spaced` if it has a space before it. */
  predicate Neat(p: char, spaced: bool, t: string)
    decreases |t|
  {
    var n := Lead(t);
    var rest := t[n..];
    && (n > 0 ==> Touching(OPENERS, CLOSERS, p, rest) == 0 && !spaced)
    && (rest != "" ==> Neat(rest[0], rest[0] == '.' && n > 0, rest[1..]))
  }

  function Before(spaced: bool): string { if spaced then " " else "" }

  lemma TidyBefore(spaced: bool, p: char, t: string)
    requires p != ' ' && (spaced ==> p == '.')
    ensures Tidy(Before(spaced) + ([p] + t)) <==>
      Tidy(t) && !Begins(p, t) && !(spaced && t != "" && t[0] == ' ')
  {
    hide Tidy;
    TidyCons(p, t);
    TidyCons(' ', [p] + t);
    assert "" + ([p] + t) == [p] + t;
  }

  lemma TidyAfter(p: char, spaced: bool, t: string)
    requires p != ' ' && (spaced ==> p == '.')
    ensures var n := Lead(t);
      var rest := t[n..];
      Tidy(Before(spaced) + ([p] + t)) <==>
        (n > 0 ==> Touching(OPENERS, CLOSERS, p, rest) == 0 && !spaced)
        && Tidy(Before(n > 0 && rest != "" && rest[0] == '.') + rest)
  {
    hide Tidy, Spaces;
    var n := Lead(t);
    var rest := t[n..];
    TidyBefore(spaced, p, t);
    SplitLead(t);
    assert "" + rest == rest;
    if n > 0 {
      TidySpaces(n, rest);
      TidyCons(' ', rest);
      assert t[0] == ' ';
    } else {
      assert t == rest;
    }
  }

  lemma {:induction false} NeatIffTidy(p: char, spaced: bool, t: string)
    requires p != ' ' && (spaced ==> p == '.')
    ensures Neat(p, spaced, t) <==> Tidy(Before(spaced) + ([p] + t))
    decreases |t|
  {
    hide Tidy, Spaces, Before, Touching;
    var n := Lead(t);
    var rest := t[n..];
    TidyAfter(p, spaced, t);
    if rest == "" {
      NothingTidy();
    } else {
      assert rest == [rest[0]] + rest[1..];
      NeatIffTidy(rest[0], rest[0] == '.' && n > 0, rest[1..]);
    }
  }

  lemma NothingTidy()
    ensures Tidy(Before(false) + "")
  {
  }

  /**
   Reading from the left after a character `p`: a run of spaces that touches a bracket or comma
   pattern, or that follows a dot which keeps a space before it, is no longer than the number of
   patterns it touches.
   */
  predicate RunsFit(p: char, spaced: bool, s: string)
    decreases |s|
  {
    var n := Lead(s);
    var rest := s[n..];
    var k := Touching(OPENERS, CLOSERS, p, rest);
    && (k > 0 || spaced ==> n <= k)
    && (rest != "" ==> RunsFit(rest[0], rest[0] == '.' && n > k, rest[1..]))
  }

  lemma {:induction false} NeatIffRunsFit(p: char, spaced: bool, s: string)
    ensures Neat(p, spaced, Shrunk(OPENERS, CLOSERS, p, s)) <==> RunsFit(p, spaced, s)
    decreases |s|
  {
    var n := Lead(s);
    var rest := s[n..];
    var m := n - Least(n, Touching(OPENERS, CLOSERS, p, rest));
    if rest == "" {
      LeadOf(m, "");
      assert Spaces(m) + "" == Spaces(m);
    } else {
      var next := [rest[0]] + Shrunk(OPENERS, CLOSERS, rest[0], rest[1..]);
      LeadOf(m, next);
      assert next[1..] == Shrunk(OPENERS, CLOSERS, rest[0], rest[1..]);
      NeatIffRunsFit(rest[0], rest[0] == '.' && m > 0, rest[1..]);
    }
  }

  /** The same before the dots are closed up: a dot with spaces on both sides takes one from each. */
  predicate InputFits(p: char, spaced: bool, s: string)
    decreases |s|
  {
    var n := Lead(s);
    var rest := s[n..];
    var closes := n > 0 && |rest| > 1 && rest[0] == '.' && rest[1] == ' ';
    var left := if closes then n - 1 else n;
    var k := Touching(OPENERS, CLOSERS, p, rest);
    && (k > 0 || spaced ==> left <= k)
    && (rest != "" ==> InputFits(rest[0], rest[0] == '.' && left > k, if closes then rest[2..] else rest[1..]))
  }

  lemma {:induction false} DotFront(s: string)
    ensures var n := Lead(s);
      var rest := s[n..];
      Replace(s, " . ", '.') ==
        if rest == "" then Spaces(n)
        else if n > 0 && |rest| > 1 && rest[0] == '.' && rest[1] == ' '
        then Spaces(n - 1) + ("." + Replace(rest[2..], " . ", '.'))
        else Spaces(n) + ([rest[0]] + Replace(rest[1..], " . ", '.'))
  {
    hide Replace, StartsWith, Spaces;
    var n := Lead(s);
    var rest := s[n..];
    var k := if n > 0 && |rest| > 1 && rest[0] == '.' && rest[1] == ' ' then n - 1 else n;
    forall i | 0 <= i < k ensures s[i] == ' ' && !StartsWith(s[i..], " . ") {
      StartsWithDot(s[i..]);
      if i + 1 < n { assert s[i + 1] == ' '; }
    }
    ReplaceAfterSpaces(s, " . ", '.', k);
    StartsWithDot(s[k..]);
    if rest == "" {
      ReplaceNothing(" . ", '.');
    } else if k < n {
      ReplaceMatch(s[k..], " . ", '.');
      assert s[k..][3..] == rest[2..];
    } else {
      ReplaceOther(rest, " . ", '.');
    }
  }

  lemma StartsWithDot(s: string)
    ensures StartsWith(s, " . ") <==> |s| >= 3 && s[0] == ' ' && s[1] == '.' && s[2] == ' '
  {
    if |s| >= 3 { assert s[..3] == [s[0], s[1], s[2]]; }
  }

  /** What fits of a text is what fits of its first run of spaces, and of what follows it. */
  lemma RunsFitFront(p: char, spaced: bool, n: nat, rest: string)
    requires rest == "" || rest[0] != ' '
    ensures var k := Touching(OPENERS, CLOSERS, p, rest);
      RunsFit(p, spaced, Spaces(n) + rest) <==>
        (k > 0 || spaced ==> n <= k) && (rest != "" ==> RunsFit(rest[0], rest[0] == '.' && n > k, rest[1..]))
  {
    LeadOf(n, rest);
  }

  lemma {:induction false} InputFitsIff(p: char, spaced: bool, s: string)
    ensures InputFits(p, spaced, s) <==> RunsFit(p, spaced, Replace(s, " . ", '.'))
    decreases |s|
  {
    hide Replace, Spaces, RunsFit;
    var n := Lead(s);
    var rest := s[n..];
    var closes := n > 0 && |rest| > 1 && rest[0] == '.' && rest[1] == ' ';
    var left := if closes then n - 1 else n;
    DotFront(s);
    if rest == "" {
      RunsFitFront(p, spaced, n, "");
      assert Spaces(n) + "" == Spaces(n);
    } else {
      var after := if closes then rest[2..] else rest[1..];
      var next := [rest[0]] + Replace(after, " . ", '.');
      var k := Touching(OPENERS, CLOSERS, p, rest);
      RunsFitFront(p, spaced, left, next);
      assert next[1..] == Replace(after, " . ", '.') && Touching(OPENERS, CLOSERS, p, next) == k;
      hide Touching;
      InputFitsIff(rest[0], rest[0] == '.' && left > k, after);
    }
  }

  /** On every text: normalising leaves none of the six patterns exactly if the runs of spaces fit. */
  lemma TidyIff(s: string)
    ensures Tidy(Normalized(s)) <==> InputFits(START, false, s)
  {
    hide Tidy, Normalized, Shrunk, Neat, RunsFit, InputFits, Replace;
    var d := Replace(s, " . ", '.');
    NormalizedIsShrunk(s);
    NeatIffTidy(START, false, Normalized(s));
    TidyCons(START, Normalized(s));
    assert Before(false) + ([START] + Normalized(s)) == [START] + Normalized(s);
    NeatIffRunsFit(START, false, d);
    InputFitsIff(START, false, s);
  }

  // --------------------------------------------------------------------------------- without dots

  /** A maximal run of spaces. */
  predicate IsRun(s: string, i: nat, j: nat) {
    && i < j <= |s| && (forall n :: i <= n < j ==> s[n] == ' ')
    && (i > 0 ==> s[i - 1] != ' ') && (j < |s| ==> s[j] != ' ')
  }

  /** How many bracket and comma patterns the run touches. */
  function Touches(s: string, i: nat, j: nat): nat
    requires i <= j <= |s|
  {
    (if i > 0 && s[i - 1] in OPENERS then 1 else 0) + if j < |s| && s[j] in CLOSERS then 1 else 0
  }

  predicate IsShort(s: string, i: nat, j: nat)
    requires i <= j <= |s|
  {
    Touches(s, i, j) > 0 ==> j - i <= Touches(s, i, j)
  }

  ghost predicate RunsAreShort(s: string, pos: nat) {
    forall i: nat, j: nat :: pos <= i && IsRun(s, i, j) ==> IsShort(s, i, j)
  }

  function CharBefore(s: string, pos: nat): char
    requires pos <= |s|
  {
    if pos > 0 then s[pos - 1] else START
  }

  lemma ShortSplit(s: string, pos: nat)
    requires pos <= |s| && CharBefore(s, pos) != ' '
    ensures var end := pos + Lead(s[pos..]);
      end <= |s| &&
      (RunsAreShort(s, pos) <==> (end > pos ==> IsShort(s, pos, end)) && (end < |s| ==> RunsAreShort(s, end + 1)))
  {
    hide IsShort, Lead;
    var end := pos + Lead(s[pos..]);
    if end == |s| {
      assert forall i: nat, j: nat :: IsRun(s, i, j) ==> i < |s|;
    }
  }

  lemma {:induction false} ShortFrom(s: string, pos: nat)
    requires '.' !in s && pos <= |s| && CharBefore(s, pos) != ' '
    ensures InputFits(CharBefore(s, pos), false, s[pos..]) <==> RunsAreShort(s, pos)
    decreases |s| - pos
  {
    hide *;
    var end := pos + Lead(s[pos..]);
    ShortSplit(s, pos);
    ShortStep(s, pos);
    if end < |s| { ShortFrom(s, end + 1); }
  }

  lemma ShortStep(s: string, pos: nat)
    requires '.' !in s && pos <= |s| && CharBefore(s, pos) != ' '
    ensures var end := pos + Lead(s[pos..]);
      && end <= |s| && (end < |s| ==> CharBefore(s, end + 1) != ' ')
      && (InputFits(CharBefore(s, pos), false, s[pos..]) <==>
           && (end > pos ==> IsShort(s, pos, end))
           && (end < |s| ==> InputFits(CharBefore(s, end + 1), false, s[end + 1..])))
  {
    hide InputFits;
    var end := pos + Lead(s[pos..]);
    var rest := s[pos..][end - pos..];
    assert rest == s[end..] && (end < |s| ==> rest[0] == s[end] && rest[1..] == s[end + 1..]);
    assert '.' !in s[pos..] by { assert forall c :: c in s[pos..] ==> c in s; }
    DotlessStep(CharBefore(s, pos), s[pos..]);
    assert Touching(OPENERS, CLOSERS, CharBefore(s, pos), rest) == Touches(s, pos, end);
  }

  lemma DotlessStep(p: char, t: string)
    requires '.' !in t
    ensures var n := Lead(t);
      var rest := t[n..];
      var k := Touching(OPENERS, CLOSERS, p, rest);
      InputFits(p, false, t) <==> (k > 0 ==> n <= k) && (rest != "" ==> InputFits(rest[0], false, rest[1..]))
  {
    var rest := t[Lead(t)..];
    assert rest != "" ==> rest[0] in t;
  }

  /**
   Without dots: none of the patterns is left exactly if every maximal run of spaces that touches
   bracket or comma patterns is no longer than the number it touches.
   */
  lemma DotlessTidyIff(s: string)
    requires '.' !in s
    ensures Tidy(Normalized(s)) <==> RunsAreShort(s, 0)
  {
    TidyIff(s);
    ShortFrom(s, 0);
    assert s[0..] == s;
  }

  // ------------------------------------------------------------------------------ a second round

  lemma {:induction false} ReplaceShortens(s: string, from: string, c: char)
    requires |from| > 1
    ensures |Replace(s, from, c)| <= |s|
    ensures |Replace(s, from, c)| == |s| ==>
      Replace(s, from, c) == s && forall i :: 0 <= i <= |s| ==> !StartsWith(s[i..], from)
    decreases |s|
  {
    if s == "" {
    } else if StartsWith(s, from) {
      ReplaceShortens(s[|from|..], from, c);
    } else {
      ReplaceShortens(s[1..], from, c);
      if |Replace(s, from, c)| == |s| {
        forall i | 0 <= i <= |s| ensures !StartsWith(s[i..], from) {
          if i > 0 { assert s[1..][i - 1..] == s[i..]; } else { assert s[0..] == s; }
        }
      }
    }
  }

  /** A second round changes nothing exactly if the first left no pattern. */
  lemma SecondRoundIff(s: string)
    ensures Normalized(Normalized(s)) == Normalized(s) <==> InputFits(START, false, s)
  {
    TidyIff(s);
    FixedIffTidy(Normalized(s));
  }

  lemma FixedIffTidy(t: string)
    ensures Normalized(t) == t <==> Tidy(t)
  {
    hide Replace, StartsWith, Pair, Dotted;
    if Tidy(t) {
      ReplaceAbsent(t, " . ", '.');
      ReplaceAbsent(t, "[ ", '[');
      ReplaceAbsent(t, " ]", ']');
      ReplaceAbsent(t, "( ", '(');
      ReplaceAbsent(t, " )", ')');
      ReplaceAbsent(t, " ,", ',');
    }
    var s1 := Replace(t, " . ", '.');
    var s2 := Replace(s1, "[ ", '[');
    var s3 := Replace(s2, " ]", ']');
    var s4 := Replace(s3, "( ", '(');
    var s5 := Replace(s4, " )", ')');
    ReplaceShortens(t, " . ", '.');
    ReplaceShortens(s1, "[ ", '[');
    ReplaceShortens(s2, " ]", ']');
    ReplaceShortens(s3, "( ", '(');
    ReplaceShortens(s4, " )", ')');
    ReplaceShortens(s5, " ,", ',');
    if Normalized(t) == t {
      NoDot(t);
      NoPair(t, '[', ' ');
      NoPair(t, ' ', ']');
      NoPair(t, '(', ' ');
      NoPair(t, ' ', ')');
      NoPair(t, ' ', ',');
    }
  }

  lemma NoPair(s: string, a: char, b: char)
    requires forall i :: 0 <= i <= |s| ==> !StartsWith(s[i..], [a, b])
    ensures !Pair(s, a, b)
  {
    forall i | 0 <= i < |s| - 1 ensures !(s[i] == a && s[i + 1] == b) {
      StartsWithPair(s[i..], a, b);
    }
  }

  lemma NoDot(s: string)
    requires forall i :: 0 <= i <= |s| ==> !StartsWith(s[i..], " . ")
    ensures !Dotted(s)
  {
    forall i | 0 <= i < |s| - 2 ensures !(s[i] == ' ' && s[i + 1] == '.' && s[i + 2] == ' ') {
      StartsWithDot(s[i..]);
    }
  }
}
