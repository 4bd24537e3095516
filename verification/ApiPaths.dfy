/** The path of an API as a sum of literals and entity constants. */
module ApiPaths {
  import opened Options
  import opened Strings
  import opened Routes
  import opened EntityConstants

  function FieldTerms(e: Entity, pair: (string, string)): seq<Term> {
    [Literal(pair.0 + "{"), PathFieldTerm(e, pair.1), Literal("}")]
  }

  function PairTerms(e: Entity, pairs: seq<(string, string)>): (r: seq<Term>)
    ensures |r| == 3 * |pairs|
  {
    if pairs == [] then [] else FieldTerms(e, pairs[0]) + PairTerms(e, pairs[1..])
  }

  predicate NamesField(e: Entity, pairs: seq<(string, string)>) {
    exists pair :: pair in pairs && IsField(e, pair.1)
  }

  predicate UsesConstants(e: Entity, path: string) { NamesField(e, ScanBraces(path, 0).pairs) }

  /** The terms of a path; the whole path is one literal if no field is named or a brace is unmatched. */
  function PathTerms(entity: Option<Entity>, path: string): seq<Term> {
    if entity.None? || !UsesConstants(entity.value, path) || ScanBraces(path, 0).unmatched then [Literal(path)]
    else
      var scan := ScanBraces(path, 0);
      PairTerms(entity.value, scan.pairs) + if scan.end < |path| then [Literal(path[scan.end..])] else []
  }

  /** Constants are used exactly if a name between braces is that of a field. */
  lemma UsesConstantsIff(e: Entity, path: string)
    ensures UsesConstants(e, path) <==> exists k :: 0 <= k < |e.fields| && IsBracedName(path, 0, e.fields[k].0)
  {
    hide ScanBraces, IsBracedName;
    forall name ensures HasName(ScanBraces(path, 0).pairs, name) <==> IsBracedName(path, 0, name) {
      ScannedIff(path, 0, name);
    }
  }

  method PathUsesEntityConstants(e: Entity, path: string) returns (uses: bool)
    ensures uses == UsesConstants(e, path)
  {
    hide NamesField, ScanBraces, IsField;
    NamesFieldFront(e, ("", ""), []);
    var pos := 0;
    while true
      invariant pos <= |path|
      invariant UsesConstants(e, path) == NamesField(e, ScanBraces(path, pos).pairs)
      decreases |path| - pos
    {
      ScanStep(path, pos);
      var open := FindChar(path, '{', pos);
      if open.None? { return false; }
      var end := FindChar(path, '}', open.value + 1);
      if end.None? { return false; }
      var pair := (path[pos..open.value], path[open.value + 1..end.value]);
      NamesFieldFront(e, pair, ScanBraces(path, end.value + 1).pairs);
      var field := HasField(e, path[open.value + 1..end.value]);
      if field { return true; }
      pos := end.value + 1;
    }
  }

  lemma NamesFieldFront(e: Entity, pair: (string, string), pairs: seq<(string, string)>)
    ensures NamesField(e, [pair] + pairs) <==> IsField(e, pair.1) || NamesField(e, pairs)
    ensures !NamesField(e, [])
  {
    hide IsField;
    assert forall p :: p in [pair] + pairs <==> p == pair || p in pairs;
  }

  method HasField(e: Entity, name: string) returns (found: bool)
    ensures found == IsField(e, name)
  {
    for i := 0 to |e.fields|
      invariant forall k :: 0 <= k < i ==> e.fields[k].0 != name
    {
      if e.fields[i].0 == name { return true; }
    }
    return false;
  }

  method OptionalPathTerms(entity: Option<Entity>, path: Option<string>) returns (terms: Option<seq<Term>>)
    ensures terms == if path.None? then None else Some(PathTerms(entity, path.value))
  {
    hide *;
    if path.None? { return None; }
    var p := path.value;
    if entity.None? {
      OneTerm(entity, p);
      return Some([Literal(p)]);
    }
    var uses := PathUsesEntityConstants(entity.value, p);
    if !uses {
      OneTerm(entity, p);
      return Some([Literal(p)]);
    }
    var e := entity.value;
    var parts: seq<Term>, cursor: nat, done := [], 0, false;
    ghost var pairs: seq<(string, string)> := [];
    Started(e, p);
    while !done
      invariant cursor <= |p| && parts == PairTerms(e, pairs)
      invariant Read(p, pairs, cursor)
      invariant done ==> NextFrom(p, '{', cursor) == None
      decreases |p| - cursor, !done
    {
      var pos := FindChar(p, '{', cursor);
      if pos.None? {
        done := true;
      } else {
        var end := FindChar(p, '}', pos.value + 1);
        if end.None? {
          Unmatched(p, pairs, cursor);
          OneTerm(entity, p);
          return Some([Literal(p)]);
        }
        parts := AppendField(e, parts, p[cursor..pos.value], p[pos.value + 1..end.value]);
        ReadOn(e, p, pairs, cursor, pos.value, end.value);
        pairs := pairs + [(p[cursor..pos.value], p[pos.value + 1..end.value])];
        cursor := end.value + 1;
      }
    }
    assert entity == Some(e);
    ReadAll(e, p, pairs, cursor);
    if cursor < |p| {
      parts := parts + [Literal(p[cursor..])];
    }
    return Some(parts);
  }

  method AppendField(e: Entity, parts: seq<Term>, text: string, name: string) returns (more: seq<Term>)
    ensures more == parts + FieldTerms(e, (text, name))
  {
    more := parts + [Literal(text + "{")];
    var field := HasField(e, name);
    if field {
      more := more + [Constant(FieldConstant(e.name, name))];
    } else {
      more := more + [Literal(name)];
    }
    more := more + [Literal("}")];
  }

  // The loop's progress: the pairs read so far, and a scan still to be made.

  predicate Read(s: string, pairs: seq<(string, string)>, pos: nat) {
    pos <= |s| && ScanBraces(s, 0) == Resumed(pairs, ScanBraces(s, pos))
  }

  lemma Started(e: Entity, s: string)
    ensures Read(s, [], 0) && PairTerms(e, []) == []
  {
    ResumedTwice([], [], ScanBraces(s, 0));
  }

  lemma ReadOn(e: Entity, s: string, pairs: seq<(string, string)>, pos: nat, open: nat, close: nat)
    requires Read(s, pairs, pos) && NextFrom(s, '{', pos) == Some(open) && NextFrom(s, '}', open + 1) == Some(close)
    ensures var pair := (s[pos..open], s[open + 1..close]);
      Read(s, pairs + [pair], close + 1) && PairTerms(e, pairs + [pair]) == PairTerms(e, pairs) + FieldTerms(e, pair)
  {
    hide ScanBraces, Resumed, PairTerms;
    var pair := (s[pos..open], s[open + 1..close]);
    ScanStep(s, pos);
    ResumedTwice(pairs, [pair], ScanBraces(s, close + 1));
    PairTermsSnoc(e, pairs, pair);
  }

  lemma Unmatched(s: string, pairs: seq<(string, string)>, pos: nat)
    requires Read(s, pairs, pos) && NextFrom(s, '{', pos).Some?
    requires NextFrom(s, '}', NextFrom(s, '{', pos).value + 1).None?
    ensures ScanBraces(s, 0).unmatched
  {
    ScanStep(s, pos);
  }

  lemma {:induction false} ReadAll(e: Entity, s: string, pairs: seq<(string, string)>, pos: nat)
    requires Read(s, pairs, pos) && NextFrom(s, '{', pos) == None && UsesConstants(e, s)
    ensures PathTerms(Some(e), s) ==
      if pos < |s| then PairTerms(e, pairs) + [Literal(s[pos..])] else PairTerms(e, pairs)
  {
    hide PairTerms, UsesConstants;
    ScanStep(s, pos);
    assert pairs + [] == pairs;
  }

  lemma OneTerm(entity: Option<Entity>, path: string)
    requires entity.None? || !UsesConstants(entity.value, path) || ScanBraces(path, 0).unmatched
    ensures PathTerms(entity, path) == [Literal(path)]
  {
  }

  lemma ResumedTwice(a: seq<(string, string)>, b: seq<(string, string)>, rest: Scan)
    ensures Resumed(a, Resumed(b, rest)) == Resumed(a + b, rest)
    ensures Resumed([], rest) == rest
    ensures Resumed(a, rest).end == rest.end && Resumed(a, rest).unmatched == rest.unmatched
    ensures Resumed(a, rest).pairs == a + rest.pairs
  {
    assert a + (b + rest.pairs) == (a + b) + rest.pairs;
  }

  lemma {:induction false} PairTermsSnoc(e: Entity, pairs: seq<(string, string)>, pair: (string, string))
    ensures PairTerms(e, pairs + [pair]) == PairTerms(e, pairs) + FieldTerms(e, pair)
    ensures PairTerms(e, []) == []
  {
    hide FieldTerms;
    if pairs != [] {
      assert (pairs + [pair])[1..] == pairs[1..] + [pair];
      PairTermsSnoc(e, pairs[1..], pair);
    }
  }

  // ------------------------------------------------------------------------------------ meaning

  function Meaning(table: seq<(string, string)>, terms: seq<Term>): string {
    if terms == [] then "" else Denoted(table, terms[0]) + Meaning(table, terms[1..])
  }

  lemma {:induction false} MeaningConcat(table: seq<(string, string)>, a: seq<Term>, b: seq<Term>)
    ensures Meaning(table, a + b) == Meaning(table, a) + Meaning(table, b)
  {
    hide Denoted;
    if a == [] {
      assert a + b == b;
    } else {
      assert (a + b)[1..] == a[1..] + b;
      MeaningConcat(table, a[1..], b);
    }
  }

  /** The text that the pairs of a scan stand for. */
  function PairText(pairs: seq<(string, string)>): string {
    if pairs == [] then "" else pairs[0].0 + ("{" + (pairs[0].1 + ("}" + PairText(pairs[1..]))))
  }

  lemma {:induction false} PairTermsMeaning(e: Entity, helper: string, pairs: seq<(string, string)>)
    requires Compiles(Constants(e, helper)) && KeysAreFields(e)
    ensures Meaning(Constants(e, helper), PairTerms(e, pairs)) == PairText(pairs)
  {
    hide Constants, PathFieldTerm, Compiles;
    var table := Constants(e, helper);
    if pairs != [] {
      var (text, name) := pairs[0];
      PairTermsMeaning(e, helper, pairs[1..]);
      KeyExpressionsDenoteNames(e, helper, name);
      MeaningConcat(table, FieldTerms(e, pairs[0]), PairTerms(e, pairs[1..]));
      ThreeTerms(table, text, PathFieldTerm(e, name), name);
    }
  }

  lemma ThreeTerms(table: seq<(string, string)>, text: string, term: Term, name: string)
    requires Denoted(table, term) == name
    ensures Meaning(table, [Literal(text + "{"), term, Literal("}")]) == text + ("{" + (name + "}"))
  {
    var terms := [Literal(text + "{"), term, Literal("}")];
    assert terms[1..] == [term, Literal("}")] && terms[1..][1..] == [Literal("}")] && terms[1..][1..][1..] == [];
    assert Meaning(table, [Literal("}")]) == "}";
    assert Meaning(table, terms[1..]) == name + "}";
    assert (text + "{") + (name + "}") == text + ("{" + (name + "}"));
  }

  lemma {:induction false} ScanCoversText(s: string, pos: nat)
    requires pos <= |s|
    ensures var scan := ScanBraces(s, pos); PairText(scan.pairs) + s[scan.end..] == s[pos..]
    decreases |s| - pos
  {
    hide ScanBraces;
    var scan := ScanBraces(s, pos);
    ScanStep(s, pos);
    if scan.pairs != [] {
      var open := NextFrom(s, '{', pos).value;
      var close := NextFrom(s, '}', open + 1).value;
      ScanCoversText(s, close + 1);
      SplitAtBraces(s, pos, open, close);
      var more := ScanBraces(s, close + 1);
      Shift(s[pos..open], s[open + 1..close], PairText(more.pairs), s[scan.end..]);
    }
  }

  lemma SplitAtBraces(s: string, pos: nat, open: nat, close: nat)
    requires pos <= open < close < |s| && s[open] == '{' && s[close] == '}'
    ensures s[pos..] == s[pos..open] + ("{" + (s[open + 1..close] + ("}" + s[close + 1..])))
  {
    assert s[close..] == "}" + s[close + 1..];
    assert s[open + 1..] == s[open + 1..close] + s[close..];
    assert s[open..] == "{" + s[open + 1..];
    assert s[pos..] == s[pos..open] + s[open..];
  }

  lemma Shift(a: string, b: string, c: string, d: string)
    ensures (a + ("{" + (b + ("}" + c)))) + d == a + ("{" + (b + ("}" + (c + d))))
  {
  }

  /** Splitting a path keeps its meaning: the terms add up to the path, whatever its braces. */
  lemma TermsDenotePath(e: Entity, helper: string, path: string)
    requires Compiles(Constants(e, helper)) && KeysAreFields(e)
    ensures Meaning(Constants(e, helper), PathTerms(Some(e), path)) == path
    ensures Meaning([], PathTerms(None, path)) == path
  {
    hide Constants, Compiles, PairTerms, ScanBraces, UsesConstants, KeysAreFields;
    var table := Constants(e, helper);
    var scan := ScanBraces(path, 0);
    if UsesConstants(e, path) && !scan.unmatched {
      var tail := path[scan.end..];
      PairTermsMeaning(e, helper, scan.pairs);
      ScanCoversText(path, 0);
      var last := if scan.end < |path| then [Literal(tail)] else [];
      MeaningConcat(table, PairTerms(e, scan.pairs), last);
      assert Meaning(table, last) == tail;
      assert path[0..] == path;
    }
  }

  /** With no brace left open, the constants are those of the fields between braces; else there are none. */
  lemma FieldsAreConstants(e: Entity, path: string, constant: string)
    ensures Constant(constant) in PathTerms(Some(e), path) <==>
      && (forall open :: 0 <= open < |path| && path[open] == '{' ==> '}' in path[open + 1..])
      && exists k :: 0 <= k < |e.fields| && IsBracedName(path, 0, e.fields[k].0)
                     && constant == FieldConstant(e.name, e.fields[k].0)
  {
    hide ScanBraces, IsBracedName, FieldConstant, UsesConstants;
    var scan := ScanBraces(path, 0);
    UnmatchedIff(path, 0);
    UsesConstantsIff(e, path);
    ConstantInPairs(e, scan.pairs, constant);
    forall name ensures HasName(scan.pairs, name) <==> IsBracedName(path, 0, name) {
      ScannedIff(path, 0, name);
    }
    hide PairTerms, IsField;
  }

  lemma {:induction false} ConstantInPairs(e: Entity, pairs: seq<(string, string)>, constant: string)
    ensures Constant(constant) in PairTerms(e, pairs) <==>
      exists k ::
        0 <= k < |e.fields| && HasName(pairs, e.fields[k].0) && constant == FieldConstant(e.name, e.fields[k].0)
  {
    hide FieldConstant;
    if pairs != [] {
      var (text, name) := pairs[0];
      ConstantInPairs(e, pairs[1..], constant);
      assert pairs == [(text, name)] + pairs[1..];
      forall other { HasNameFront(text, name, pairs[1..], other); }
      hide HasName;
      assert Constant(constant) in FieldTerms(e, pairs[0]) <==> Constant(constant) == PathFieldTerm(e, name);
    }
  }

  /** The nonempty names among the middle terms are the path's parameters, if every brace is matched. */
  lemma MiddleTermsAreParameters(e: Entity, helper: string, path: string)
    requires Compiles(Constants(e, helper)) && KeysAreFields(e)
    requires UsesConstants(e, path) && !ScanBraces(path, 0).unmatched
    ensures var terms := PathTerms(Some(e), path);
      forall name :: name in PathParameterNames(path) <==>
        && name != ""
        && exists i :: 0 <= i && 3 * i + 2 < |terms| && Denoted(Constants(e, helper), terms[3 * i + 1]) == name
  {
    hide Constants, Compiles, Denoted, ScanBraces, UsesConstants, KeysAreFields, PathFieldTerm;
    var table, terms, scan := Constants(e, helper), PathTerms(Some(e), path), ScanBraces(path, 0);
    forall i | 0 <= i < |scan.pairs| ensures Denoted(table, terms[3 * i + 1]) == scan.pairs[i].1 {
      MiddleTerm(e, scan.pairs, i);
      KeyExpressionsDenoteNames(e, helper, scan.pairs[i].1);
    }
    forall name | name in PathParameterNames(path)
      ensures exists i :: 0 <= i && 3 * i + 2 < |terms| && Denoted(table, terms[3 * i + 1]) == name
    {
      var pair :| pair in scan.pairs && pair.1 == name;
      var i :| 0 <= i < |scan.pairs| && scan.pairs[i] == pair;
      assert Denoted(table, terms[3 * i + 1]) == name;
    }
    forall i | 0 <= i && 3 * i + 2 < |terms| && Denoted(table, terms[3 * i + 1]) != ""
      ensures Denoted(table, terms[3 * i + 1]) in PathParameterNames(path)
    {
      assert scan.pairs[i] in scan.pairs;
    }
  }

  lemma {:induction false} MiddleTerm(e: Entity, pairs: seq<(string, string)>, i: nat)
    requires i < |pairs|
    ensures PairTerms(e, pairs)[3 * i + 1] == PathFieldTerm(e, pairs[i].1)
  {
    hide PathFieldTerm;
    if i > 0 { MiddleTerm(e, pairs[1..], i - 1); }
  }
}
