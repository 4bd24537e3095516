/** Tidying the spacing of an expression before it is printed. */
module Expressions {
  import opened Options

  predicate StartsWith(s: string, p: string) {
    |p| <= |s| && s[..|p|] == p
  }

  /** Every occurrence of `from`, leftmost first and without overlaps, becomes the character `c`. */
  function Replace(s: string, from: string, c: char): string
    requires from != ""
  {
    if s == "" then ""
    else if StartsWith(s, from) then [c] + Replace(s[|from|..], from, c)
    else [s[0]] + Replace(s[1..], from, c)
  }

  /** The first occurrence of `p` in `s` at `pos` or later. */
  method Find(s: string, p: string, pos: nat) returns (at: Option<nat>)
    requires p != "" && pos <= |s|
    ensures at.Some? ==> pos <= at.value < |s| && StartsWith(s[at.value..], p)
    ensures at.Some? ==> forall i :: pos <= i < at.value ==> !StartsWith(s[i..], p)
    ensures at.None? ==> forall i :: pos <= i < |s| ==> !StartsWith(s[i..], p)
  {
    for i := pos to |s|
      invariant forall j :: pos <= j < i ==> !StartsWith(s[j..], p)
    {
      if StartsWith(s[i..], p) { return Some(i); }
    }
    return None;
  }

  lemma {:induction false} ReplaceSkips(s: string, from: string, c: char, k: nat)
    requires from != "" && k <= |s| && forall i :: 0 <= i < k ==> !StartsWith(s[i..], from)
    ensures Replace(s, from, c) == s[..k] + Replace(s[k..], from, c)
    decreases k
  {
    if k == 0 {
      assert s[0..] == s;
    } else {
      assert s[0..] == s && !StartsWith(s, from);
      forall i | 0 <= i < k - 1 ensures !StartsWith(s[1..][i..], from) {
        assert s[1..][i..] == s[i + 1..];
      }
      ReplaceSkips(s[1..], from, c, k - 1);
      assert s[1..][k - 1..] == s[k..] && [s[0]] + s[1..][..k - 1] == s[..k];
    }
  }

  /** The loop that replaces occurrences in place, resuming after each replacement. */
  /** Where no occurrence is left, replacing changes nothing. */
  lemma NoneLeft(r: string, pos: nat, from: string, c: char)
    requires from != "" && pos <= |r| && forall i :: pos <= i < |r| ==> !StartsWith(r[i..], from)
    ensures r[..pos] + Replace(r[pos..], from, c) == r
  {
    assert r[|r|..] == "" && Replace("", from, c) == "";
    hide Replace, StartsWith;
    SkipsTo(r, pos, |r|, from, c);
    var rest := r[pos..];
    assert r[pos..|r|] == rest && rest + "" == rest;
    assert r[..pos] + rest == r;
  }

  method ReplaceAll(expression: string, from: string, c: char) returns (r: string)
    requires from != ""
    ensures r == Replace(expression, from, c)
  {
    hide Replace, StartsWith;
    r := expression;
    var pos: nat := 0;
    var at := Find(expression, from, pos);
    while at.Some?
      invariant pos <= |r| && r[..pos] + Replace(r[pos..], from, c) == Replace(expression, from, c)
      invariant at.Some? ==> pos <= at.value < |r| && StartsWith(r[at.value..], from)
      invariant forall i :: pos <= i < (if at.Some? then at.value else |r|) ==> !StartsWith(r[i..], from)
      decreases |r| - pos
    {
      var k, before := at.value, r;
      TurnReplaces(before, pos, k, from, c);
      r := r[..k] + [c] + r[k + |from|..];
      pos := k + 1;
      assert r[pos..] == before[k + |from|..] && r[..pos] == before[..k] + [c];
      at := Find(r, from, pos);
    }
    NoneLeft(r, pos, from, c);
  }

  lemma ReplaceMatch(s: string, from: string, c: char)
    requires from != "" && StartsWith(s, from)
    ensures Replace(s, from, c) == [c] + Replace(s[|from|..], from, c)
  {
  }

  lemma SkipsTo(r: string, pos: nat, k: nat, from: string, c: char)
    requires from != "" && pos <= k <= |r| && forall i :: pos <= i < k ==> !StartsWith(r[i..], from)
    ensures Replace(r[pos..], from, c) == r[pos..k] + Replace(r[k..], from, c)
  {
    hide Replace, StartsWith;
    forall i | 0 <= i < k - pos ensures !StartsWith(r[pos..][i..], from) {
      assert r[pos..][i..] == r[pos + i..];
    }
    ReplaceSkips(r[pos..], from, c, k - pos);
    assert r[pos..][k - pos..] == r[k..] && r[pos..][..k - pos] == r[pos..k];
  }

  lemma TurnReplaces(r: string, pos: nat, k: nat, from: string, c: char)
    requires from != "" && pos <= k < |r| && StartsWith(r[k..], from)
    requires forall i :: pos <= i < k ==> !StartsWith(r[i..], from)
    ensures k + |from| <= |r|
    ensures r[..pos] + Replace(r[pos..], from, c) == r[..k] + [c] + Replace(r[k + |from|..], from, c)
  {
    assert k + |from| <= |r|;
    hide Replace, StartsWith;
    SkipsTo(r, pos, k, from, c);
    ReplaceMatch(r[k..], from, c);
    assert r[k..][|from|..] == r[k + |from|..];
    Rejoin(r[..pos], r[pos..k], [c], Replace(r[k + |from|..], from, c));
    assert r[..pos] + r[pos..k] == r[..k];
  }

  lemma Rejoin(a: string, b: string, c: string, d: string)
    ensures a + (b + (c + d)) == (a + b) + c + d
  {
  }

  function Normalized(s: string): string {
    var s1 := Replace(s, " . ", '.');
    var s2 := Replace(s1, "[ ", '[');
    var s3 := Replace(s2, " ]", ']');
    var s4 := Replace(s3, "( ", '(');
    var s5 := Replace(s4, " )", ')');
    Replace(s5, " ,", ',')
  }

  method NormalizedExpression(expression: string) returns (r: string)
    ensures r == Normalized(expression)
  {
    r := ReplaceAll(expression, " . ", '.');
    r := ReplaceAll(r, "[ ", '[');
    r := ReplaceAll(r, " ]", ']');
    r := ReplaceAll(r, "( ", '(');
    r := ReplaceAll(r, " )", ')');
    r := ReplaceAll(r, " ,", ',');
  }

  // ---------------------------------------------------------------------- only spaces are lost

  function Despaced(s: string): string {
    if s == "" then "" else (if s[0] == ' ' then "" else [s[0]]) + Despaced(s[1..])
  }

  lemma {:induction false} DespacedConcat(a: string, b: string)
    ensures Despaced(a + b) == Despaced(a) + Despaced(b)
  {
    if a == "" {
      assert a + b == b;
    } else {
      assert (a + b)[1..] == a[1..] + b;
      DespacedConcat(a[1..], b);
    }
  }

  lemma {:induction false} ReplaceLosesSpaces(s: string, from: string, c: char)
    requires from != "" && Despaced(from) == [c]
    ensures Despaced(Replace(s, from, c)) == Despaced(s)
    decreases |s|
  {
    if s == "" {
    } else if StartsWith(s, from) {
      ReplaceLosesSpaces(s[|from|..], from, c);
      DespacedConcat(from, s[|from|..]);
      assert s == from + s[|from|..];
      DespacedConcat([c], Replace(s[|from|..], from, c));
      assert Despaced([c]) == [c] by { CharSurvives(from, c); }
    } else {
      ReplaceLosesSpaces(s[1..], from, c);
      DespacedConcat([s[0]], Replace(s[1..], from, c));
      DespacedConcat([s[0]], s[1..]);
      assert s == [s[0]] + s[1..];
    }
  }

  lemma {:induction false} CharSurvives(s: string, c: char)
    requires Despaced(s) == [c]
    ensures Despaced([c]) == [c]
  {
    assert [c][1..] == "";
    if s != "" && s[0] == ' ' { CharSurvives(s[1..], c); }
  }

  /** Normalising an expression deletes spaces and nothing else. */
  lemma NormalizedLosesSpaces(s: string)
    ensures Despaced(Normalized(s)) == Despaced(s)
  {
    hide Replace;
    var s1 := Replace(s, " . ", '.');
    ReplaceLosesSpaces(s, " . ", '.');
    var s2 := Replace(s1, "[ ", '[');
    ReplaceLosesSpaces(s1, "[ ", '[');
    var s3 := Replace(s2, " ]", ']');
    ReplaceLosesSpaces(s2, " ]", ']');
    var s4 := Replace(s3, "( ", '(');
    ReplaceLosesSpaces(s3, "( ", '(');
    var s5 := Replace(s4, " )", ')');
    ReplaceLosesSpaces(s4, " )", ')');
    ReplaceLosesSpaces(s5, " ,", ',');
  }

  // --------------------------------------------------------------------- no pattern is left

  ghost predicate Pair(s: string, a: char, b: char) {
    exists i :: 0 <= i < |s| - 1 && s[i] == a && s[i + 1] == b
  }

  lemma PairCons(h: char, t: string, a: char, b: char)
    ensures Pair([h] + t, a, b) <==> (t != "" && h == a && t[0] == b) || Pair(t, a, b)
  {
    var s := [h] + t;
    if Pair(s, a, b) {
      var i :| 0 <= i < |s| - 1 && s[i] == a && s[i + 1] == b;
      if i > 0 { assert t[i - 1] == a && t[i] == b; }
    }
    if t != "" && h == a && t[0] == b { assert s[0] == a && s[0 + 1] == b; }
    if Pair(t, a, b) {
      var i :| 0 <= i < |t| - 1 && t[i] == a && t[i + 1] == b;
      assert s[i + 1] == a && s[i + 1 + 1] == b;
    }
  }

  /** `from` is the character `c` with a space before it, after it, or on both sides. */
  predicate Padded(from: string, c: char) {
    c != ' ' && (from == [' ', c] || from == [c, ' '] || from == [' ', c, ' '])
  }

  /** Replacement makes no new neighbours of a space. */
  lemma {:induction false} ReplacePairs(s: string, from: string, c: char, a: char, b: char)
    requires Padded(from, c) && !Pair(s, ' ', ' ') && (a == ' ' || b == ' ')
    requires Pair(Replace(s, from, c), a, b)
    ensures Pair(s, a, b)
    decreases |s|
  {
    var n := if StartsWith(s, from) then |from| else 1;
    var h := if StartsWith(s, from) then c else s[0];
    var rest := Replace(s[n..], from, c);
    assert Replace(s, from, c) == [h] + rest;
    PairCons(h, rest, a, b);
    if Pair(rest, a, b) {
      ReplacePairs(s[n..], from, c, a, b);
    } else {
      assert s[n] == s[n - 1 + 1];
      if StartsWith(s, from) {
        assert s[n - 1] == from[n - 1];
      } else if StartsWith(s[1..], from) {
        assert s[1] == s[1..][0] == from[0];
      }
    }
  }

  /** No occurrence of a two-character pattern survives its replacement. */
  lemma {:induction false} ReplaceRemovesPair(s: string, from: string, c: char)
    requires Padded(from, c) && |from| == 2 && !Pair(s, ' ', ' ')
    ensures !Pair(Replace(s, from, c), from[0], from[1])
    decreases |s|
  {
    if s != "" {
      var n := if StartsWith(s, from) then |from| else 1;
      var h := if StartsWith(s, from) then c else s[0];
      var rest := Replace(s[n..], from, c);
      assert Replace(s, from, c) == [h] + rest;
      PairCons(h, rest, from[0], from[1]);
      ReplaceRemovesPair(s[n..], from, c);
    }
  }

  /** The dot pattern: a space, a dot and a space. */
  ghost predicate Dotted(s: string) {
    exists i :: 0 <= i < |s| - 2 && s[i] == ' ' && s[i + 1] == '.' && s[i + 2] == ' '
  }

  lemma DottedCons(h: char, t: string)
    ensures Dotted([h] + t) <==> (|t| > 1 && h == ' ' && t[0] == '.' && t[1] == ' ') || Dotted(t)
  {
    var s := [h] + t;
    if Dotted(s) {
      var i :| 0 <= i < |s| - 2 && s[i] == ' ' && s[i + 1] == '.' && s[i + 2] == ' ';
      if i > 0 { assert t[i - 1] == ' ' && t[i] == '.' && t[i + 1] == ' '; }
    }
    if |t| > 1 && h == ' ' && t[0] == '.' && t[1] == ' ' { assert s[0] == ' ' && s[0 + 1] == '.' && s[0 + 2] == ' '; }
    if Dotted(t) {
      var i :| 0 <= i < |t| - 2 && t[i] == ' ' && t[i + 1] == '.' && t[i + 2] == ' ';
      assert s[i + 1] == ' ' && s[i + 1 + 1] == '.' && s[i + 1 + 2] == ' ';
    }
  }

  /** A space that is kept before a dot and a space has them after it in the text. */
  lemma DotKept(s: string, from: string, c: char)
    requires Padded(from, c) && !Pair(s, ' ', ' ') && (from == " . " || c != '.')
    requires s != "" && s[0] == ' ' && !StartsWith(s, from)
    ensures var rest := Replace(s[1..], from, c);
      |rest| > 1 && rest[0] == '.' && rest[1] == ' ' ==> Dotted(s) && from != " . "
  {
    if |s| > 2 && s[1] == '.' {
      assert s[1..][1..] == s[2..];
      if s[2] == ' ' { assert s[0] == ' ' && s[0 + 1] == '.' && s[0 + 2] == ' ' && s[..3] == " . "; }
    }
    if |s| > 1 { assert !(s[0] == ' ' && s[0 + 1] == ' '); }
    hide Pair, Dotted;
  }

  /** Replacing the dot pattern removes it, and replacing another one does not bring it back. */
  lemma {:induction false} ReplaceUndots(s: string, from: string, c: char)
    requires Padded(from, c) && !Pair(s, ' ', ' ')
    requires from == " . " || (c != '.' && !Dotted(s))
    ensures !Dotted(Replace(s, from, c))
    decreases |s|
  {
    if s != "" {
      var n := if StartsWith(s, from) then |from| else 1;
      var h := if StartsWith(s, from) then c else s[0];
      var rest := Replace(s[n..], from, c);
      assert Replace(s, from, c) == [h] + rest;
      DottedCons(h, rest);
      DottedCons(s[0], s[1..]);
      PairCons(s[0], s[1..], ' ', ' ');
      assert s == [s[0]] + s[1..];
      if h == ' ' { DotKept(s, from, c); }
      hide Replace;
      ReplaceUndots(s[n..], from, c);
    }
  }

  /** None of the six patterns occurs. */
  ghost predicate Tidy(s: string) {
    && !Dotted(s)
    && !Pair(s, '[', ' ') && !Pair(s, ' ', ']') && !Pair(s, '(', ' ') && !Pair(s, ' ', ')') && !Pair(s, ' ', ',')
  }

  /** What a replacement keeps: single spaces, and the absence of the dot and of one other pattern. */
  lemma {:induction false} ReplaceKeeps(s: string, from: string, c: char)
    requires Padded(from, c) && |from| == 2 && c != '.' && !Pair(s, ' ', ' ') && !Dotted(s)
    ensures var r := Replace(s, from, c);
      && !Pair(r, ' ', ' ') && !Dotted(r) && !Pair(r, from[0], from[1])
      && forall a, b :: (a == ' ' || b == ' ') && !Pair(s, a, b) ==> !Pair(r, a, b)
  {
    var r := Replace(s, from, c);
    forall a, b | (a == ' ' || b == ' ') && !Pair(s, a, b) ensures !Pair(r, a, b) {
      if Pair(r, a, b) { ReplacePairs(s, from, c, a, b); }
    }
    ReplaceUndots(s, from, c);
    ReplaceRemovesPair(s, from, c);
  }

  /** On text without two spaces in a row, normalising leaves none of the six patterns. */
  lemma NormalizedIsTidy(s: string)
    requires !Pair(s, ' ', ' ')
    ensures Tidy(Normalized(s)) && !Pair(Normalized(s), ' ', ' ')
  {
    hide Replace, Pair, Dotted;
    var s1 := Replace(s, " . ", '.');
    if Pair(s1, ' ', ' ') { ReplacePairs(s, " . ", '.', ' ', ' '); }
    ReplaceUndots(s, " . ", '.');
    var s2 := Replace(s1, "[ ", '[');
    ReplaceKeeps(s1, "[ ", '[');
    var s3 := Replace(s2, " ]", ']');
    ReplaceKeeps(s2, " ]", ']');
    var s4 := Replace(s3, "( ", '(');
    ReplaceKeeps(s3, "( ", '(');
    var s5 := Replace(s4, " )", ')');
    ReplaceKeeps(s4, " )", ')');
    ReplaceKeeps(s5, " ,", ',');
  }

  lemma NotAtFront(s: string, from: string)
    requires if |from| == 2 then !Pair(s, from[0], from[1]) else from == " . " && !Dotted(s)
    ensures !StartsWith(s, from)
  {
    if |s| >= |from| {
      assert s[..|from|][0] == s[0] && s[..|from|][1] == s[0 + 1];
      if |from| == 3 { assert s[..|from|][2] == s[0 + 2]; }
    }
  }

  lemma {:induction false} ReplaceAbsent(s: string, from: string, c: char)
    requires Padded(from, c)
    requires |from| == 2 ==> !Pair(s, from[0], from[1])
    requires |from| == 3 ==> c == '.' && !Dotted(s)
    ensures Replace(s, from, c) == s
    decreases |s|
  {
    if s != "" {
      NotAtFront(s, from);
      assert s == [s[0]] + s[1..];
      if |from| == 2 { PairCons(s[0], s[1..], from[0], from[1]); } else { DottedCons(s[0], s[1..]); }
      hide Pair, Dotted, StartsWith;
      ReplaceAbsent(s[1..], from, c);
    }
  }

  /** Normalising twice changes nothing more. */
  lemma NormalizedTwice(s: string)
    requires !Pair(s, ' ', ' ')
    ensures Normalized(Normalized(s)) == Normalized(s)
  {
    hide Replace;
    NormalizedIsTidy(s);
    var r := Normalized(s);
    ReplaceAbsent(r, " . ", '.');
    ReplaceAbsent(r, "[ ", '[');
    ReplaceAbsent(r, " ]", ']');
    ReplaceAbsent(r, "( ", '(');
    ReplaceAbsent(r, " )", ')');
    ReplaceAbsent(r, " ,", ',');
  }

  /** With two spaces in a row a pattern can be left behind, and a second round changes the text. */
  lemma DoubleSpaceLeavesPattern()
    ensures Normalized("[  x") == "[ x" && Normalized("[ x") == "[x"
  {
    ReplaceAbsent("[  x", " . ", '.');
    assert "[  x"[2..] == " x" && "[ x"[2..] == "x";
    ReplaceAbsent(" x", "[ ", '[');
    ReplaceAbsent("x", "[ ", '[');
    assert Replace("[  x", "[ ", '[') == "[ x" && Replace("[ x", "[ ", '[') == "[x";
    OtherPatternsAbsent("[ x");
    ReplaceAbsent("[ x", " . ", '.');
    OtherPatternsAbsent("[x");
  }

  lemma OtherPatternsAbsent(s: string)
    requires s == "[ x" || s == "[x"
    ensures Replace(s, " ]", ']') == s && Replace(s, "( ", '(') == s
    ensures Replace(s, " )", ')') == s && Replace(s, " ,", ',') == s
  {
    hide Replace;
    ReplaceAbsent(s, " ]", ']');
    ReplaceAbsent(s, "( ", '(');
    ReplaceAbsent(s, " )", ')');
    ReplaceAbsent(s, " ,", ',');
  }
}
