/** Route templates: extracting parameters from a path, and filling a template with their values. */
module Routes {
  import opened Options
  import opened Json
  import opened Strings

  // ------------------------------------------------------------------------- cutting at slashes

  /** The text between slashes, empty pieces included. */
  function Pieces(s: string): (r: seq<string>)
    ensures |r| > 0 && forall p :: p in r ==> '/' !in p
    decreases |s|
  {
    match IndexOf(s, '/')
    case None => [s]
    case Some(i) => [s[..i]] + Pieces(s[i + 1..])
  }

  function NonEmpty(pieces: seq<string>): (r: seq<string>)
    ensures forall p :: p in r <==> p in pieces && p != ""
  {
    if pieces == [] then []
    else (if pieces[0] != "" then [pieces[0]] else []) + NonEmpty(pieces[1..])
  }

  /** The parts of a path: the nonempty text between slashes. */
  function Parts(path: string): seq<string> { NonEmpty(Pieces(path)) }

  /** The first part of a path, if nonempty, comes before the parts of what follows its slash. */
  lemma PartsFront(s: string)
    ensures match IndexOf(s, '/')
      case None => Parts(s) == if s == "" then [] else [s]
      case Some(i) => Parts(s) == (if i == 0 then [] else [s[..i]]) + Parts(s[i + 1..])
  {
    match IndexOf(s, '/')
    case None =>
      assert NonEmpty([s][1..]) == [];
    case Some(i) =>
      assert Pieces(s)[0] == s[..i] && Pieces(s)[1..] == Pieces(s[i + 1..]);
  }

  method SplitApiPath(path: string) returns (parts: seq<string>)
    ensures parts == Parts(path)
  {
    hide Parts, NextFrom;
    parts := [];
    var rest, done := path, false;
    while !done
      invariant parts + (if done then [] else Parts(rest)) == Parts(path)
      decreases |rest|, !done
    {
      var i := FindChar(rest, '/', 0);
      PartsFront(rest);
      var piece := if i.Some? then rest[..i.value] else rest;
      if piece != "" { parts := parts + [piece]; }
      if i.Some? {
        rest := rest[i.value + 1..];
      } else {
        done := true;
      }
    }
  }

  // --------------------------------------------------------------------------------- extraction

  predicate IsPlaceholder(part: string) {
    |part| > 2 && part[0] == '{' && part[|part| - 1] == '}'
  }

  function NameOf(part: string): string
    requires IsPlaceholder(part)
  {
    part[1..|part| - 1]
  }

  function Min(a: nat, b: nat): nat { if a < b then a else b }

  /** The value of each placeholder part, the last part of a name winning. */
  function Bind(template: seq<string>, actual: seq<string>, n: nat): map<string, string>
    requires n <= |template| && n <= |actual|
  {
    if n == 0 then map[]
    else
      var before := Bind(template, actual, n - 1);
      if IsPlaceholder(template[n - 1]) then before[NameOf(template[n - 1]) := actual[n - 1]] else before
  }

  function Extract(template: string, actual: Option<string>): map<string, string> {
    if actual.None? then map[]
    else
      var t, a := Parts(template), Parts(actual.value);
      Bind(t, a, Min(|t|, |a|))
  }

  method ExtractApiPathParameters(template: string, actual: Option<string>) returns (parameters: map<string, string>)
    ensures parameters == Extract(template, actual)
  {
    parameters := map[];
    if actual.None? { return; }
    var templateParts := SplitApiPath(template);
    var actualParts := SplitApiPath(actual.value);
    var i := 0;
    while i < |templateParts| && i < |actualParts|
      invariant i <= |templateParts| && i <= |actualParts|
      invariant parameters == Bind(templateParts, actualParts, i)
    {
      var part := templateParts[i];
      if |part| > 2 && part[0] == '{' && part[|part| - 1] == '}' {
        parameters := parameters[part[1..|part| - 1] := actualParts[i]];
      }
      i := i + 1;
    }
  }

  function PathParameterJson(parameters: map<string, string>, name: string): Json {
    if name in parameters then Str(parameters[name]) else Null
  }

  // ------------------------------------------------------------------------------------ filling

  /** A part with its value in place of the placeholder. */
  function FillPart(part: string, values: map<string, string>): string {
    if IsPlaceholder(part) && NameOf(part) in values then values[NameOf(part)] else part
  }

  function FillParts(parts: seq<string>, values: map<string, string>): seq<string> {
    seq(|parts|, i requires 0 <= i < |parts| => FillPart(parts[i], values))
  }

  function Join(parts: seq<string>): string {
    if parts == [] then "" else "/" + (parts[0] + Join(parts[1..]))
  }

  /** The path that a template denotes for the given values. */
  function Fill(template: string, values: map<string, string>): string {
    Join(FillParts(Parts(template), values))
  }

  predicate IsSegment(s: string) { s != "" && '/' !in s }

  lemma {:induction false} PartsOfJoin(parts: seq<string>)
    requires forall i :: 0 <= i < |parts| ==> IsSegment(parts[i])
    ensures Parts(Join(parts)) == parts
  {
    hide Parts;
    if parts == [] {
      PartsFront("");
    } else {
      var text := parts[0] + Join(parts[1..]);
      PartsOfJoin(parts[1..]);
      PartsFront(Join(parts));
      assert IndexOf(Join(parts), '/') == Some(0) && Join(parts)[1..] == text;
      PartsOfSegment(parts[0], parts[1..]);
    }
  }

  lemma PartsOfSegment(part: string, parts: seq<string>)
    requires IsSegment(part) && Parts(Join(parts)) == parts
    ensures Parts(part + Join(parts)) == [part] + parts
  {
    hide Parts, Pieces;
    var text, tail := part + Join(parts), Join(parts);
    PartsFront(text);
    PartsFront(tail);
    if parts == [] {
      assert text == part;
    } else {
      assert tail[0] == '/' && IndexOf(tail, '/') == Some(0);
      CutAtSlash(part, tail);
    }
  }

  lemma CutAtSlash(part: string, tail: string)
    requires IsSegment(part) && tail != "" && tail[0] == '/'
    ensures var text := part + tail;
      IndexOf(text, '/') == Some(|part|) && text[..|part|] == part && text[|part| + 1..] == tail[1..]
  {
    assert part + tail == part + ['/'] + tail[1..];
    IndexOfFirst(part, tail[1..], '/');
  }

  /** The names of the placeholders that are whole parts. */
  function WholeNames(parts: seq<string>): set<string> {
    set p | p in parts && IsPlaceholder(p) :: NameOf(p)
  }

  lemma {:induction false} BindNames(template: seq<string>, actual: seq<string>, n: nat)
    requires n <= |template| && n <= |actual|
    ensures forall name :: name in Bind(template, actual, n) <==>
      exists i :: 0 <= i < n && IsPlaceholder(template[i]) && NameOf(template[i]) == name
  {
    if n > 0 { BindNames(template, actual, n - 1); }
  }

  lemma {:induction false} BindFilled(parts: seq<string>, values: map<string, string>, n: nat)
    requires n <= |parts| && WholeNames(parts) <= values.Keys
    ensures forall name :: name in Bind(parts, FillParts(parts, values), n) ==>
      name in values && Bind(parts, FillParts(parts, values), n)[name] == values[name]
  {
    if n > 0 {
      BindFilled(parts, values, n - 1);
      assert parts[n - 1] in parts;
    }
  }

  /**
   The parameters are the names that fill a segment between braces, each with the segment of the
   path in the place of its last one.
   */
  lemma ExtractIs(template: string, actual: string, name: string)
    ensures var t, a := Parts(template), Parts(actual);
      name in Extract(template, Some(actual)) <==>
        exists i :: 0 <= i < Min(|t|, |a|) && name != "" && t[i] == "{" + name + "}"
    ensures var t, a := Parts(template), Parts(actual);
      forall i :: IsLastNamed(t, Min(|t|, |a|), name, i) ==>
        name in Extract(template, Some(actual)) && Extract(template, Some(actual))[name] == a[i]
  {
    var t, a := Parts(template), Parts(actual);
    hide Parts, Bind;
    BindLast(t, a, Min(|t|, |a|), name);
  }

  /** The last of the first `n` segments that is the name between braces. */
  predicate IsLastNamed(t: seq<string>, n: nat, name: string, i: int)
    requires n <= |t|
  {
    && 0 <= i < n && name != "" && t[i] == "{" + name + "}"
    && forall j :: i < j < n ==> t[j] != "{" + name + "}"
  }

  lemma PlaceholderIs(part: string, name: string)
    ensures IsPlaceholder(part) && NameOf(part) == name <==> name != "" && part == "{" + name + "}"
  {
    if IsPlaceholder(part) { assert part == "{" + part[1..|part| - 1] + "}"; }
    if part == "{" + name + "}" { assert part[1..|part| - 1] == name; }
  }

  lemma {:induction false} BindLast(t: seq<string>, a: seq<string>, n: nat, name: string)
    requires n <= |t| && n <= |a|
    ensures name in Bind(t, a, n) <==> exists i :: 0 <= i < n && name != "" && t[i] == "{" + name + "}"
    ensures forall i :: IsLastNamed(t, n, name, i) ==> name in Bind(t, a, n) && Bind(t, a, n)[name] == a[i]
  {
    hide IsPlaceholder, NameOf;
    if n > 0 {
      BindLast(t, a, n - 1, name);
      PlaceholderIs(t[n - 1], name);
    }
  }

  /** Binding the names of a template to its filled parts gives back the values. */
  lemma BindsValues(parts: seq<string>, values: map<string, string>)
    requires values.Keys == WholeNames(parts)
    ensures Bind(parts, FillParts(parts, values), |parts|) == values
  {
    var filled := FillParts(parts, values);
    assert |filled| == |parts|;
    hide Bind, FillParts;
    BindNames(parts, filled, |parts|);
    BindFilled(parts, values, |parts|);
    var bound := Bind(parts, filled, |parts|);
    forall name | name in values ensures name in bound {
      var p :| p in parts && IsPlaceholder(p) && NameOf(p) == name;
      var i :| 0 <= i < |parts| && parts[i] == p;
      assert IsPlaceholder(parts[i]);
    }
    assert bound.Keys == values.Keys;
  }

  /**
   Extraction undoes filling: for every template, and nonempty slash-free values for its
   placeholders, the parameters of the filled path are exactly those values.
   */
  lemma ExtractAfterFill(template: string, values: map<string, string>)
    requires values.Keys == WholeNames(Parts(template))
    requires forall name :: name in values ==> IsSegment(values[name])
    ensures Extract(template, Some(Fill(template, values))) == values
  {
    hide Bind, Join;
    var parts := Parts(template);
    var filled := FillParts(parts, values);
    forall i | 0 <= i < |filled| ensures IsSegment(filled[i]) {
      assert parts[i] in parts;
    }
    PartsOfJoin(filled);
    BindsValues(parts, values);
  }

  // -------------------------------------------------------------------------------- validation

  /** The text before each pair of matched braces with the name inside, then where the scan stops. */
  datatype Scan = Scan(pairs: seq<(string, string)>, end: nat, unmatched: bool)

  function ScanBraces(s: string, pos: nat): (r: Scan)
    requires pos <= |s|
    ensures pos <= r.end <= |s|
    decreases |s| - pos
  {
    match NextFrom(s, '{', pos)
    case None => Scan([], pos, false)
    case Some(open) =>
      match NextFrom(s, '}', open + 1)
      case None => Scan([], pos, true)
      case Some(close) =>
        var more := ScanBraces(s, close + 1);
        more.(pairs := [(s[pos..open], s[open + 1..close])] + more.pairs)
  }

  function Resumed(pairs: seq<(string, string)>, rest: Scan): Scan { rest.(pairs := pairs + rest.pairs) }

  lemma ScanStep(s: string, pos: nat)
    requires pos <= |s|
    ensures match NextFrom(s, '{', pos)
      case None => ScanBraces(s, pos) == Scan([], pos, false)
      case Some(open) =>
        match NextFrom(s, '}', open + 1)
        case None => ScanBraces(s, pos) == Scan([], pos, true)
        case Some(close) =>
          ScanBraces(s, pos) == Resumed([(s[pos..open], s[open + 1..close])], ScanBraces(s, close + 1))
  {
  }

  /** The names between matched braces, the empty name left out. */
  function Names(pairs: seq<(string, string)>): set<string> {
    set pair | pair in pairs && pair.1 != "" :: pair.1
  }

  function PathParameterNames(path: string): set<string> { Names(ScanBraces(path, 0).pairs) }

  method PathParameterSet(path: Option<string>) returns (parameters: set<string>)
    ensures parameters == if path.None? then {} else PathParameterNames(path.value)
  {
    hide Names, ScanBraces;
    parameters := {};
    if path.None? { return; }
    var p, offset := path.value, 0;
    while offset < |p|
      invariant offset <= |p|
      invariant parameters + Names(ScanBraces(p, offset).pairs) == PathParameterNames(p)
    {
      NamesNotFound(p, offset);
      var open := FindChar(p, '{', offset);
      if open.None? { return; }
      var close := FindChar(p, '}', open.value + 1);
      if close.None? { return; }
      NamesFound(p, offset, open.value, close.value);
      if close.value > open.value + 1 {
        parameters := parameters + {p[open.value + 1..close.value]};
      }
      offset := close.value + 1;
    }
    NamesNotFound(p, |p|);
  }

  lemma NamesFound(s: string, pos: nat, open: nat, close: nat)
    requires pos <= |s| && NextFrom(s, '{', pos) == Some(open) && NextFrom(s, '}', open + 1) == Some(close)
    ensures Names(ScanBraces(s, pos).pairs) ==
      (if close > open + 1 then {s[open + 1..close]} else {}) + Names(ScanBraces(s, close + 1).pairs)
  {
    hide Names, ScanBraces;
    ScanStep(s, pos);
    NamesFront(s[pos..open], s[open + 1..close], ScanBraces(s, close + 1).pairs);
  }

  lemma NamesNotFound(s: string, pos: nat)
    requires pos <= |s|
    ensures var open := NextFrom(s, '{', pos);
      open.None? || NextFrom(s, '}', open.value + 1).None? ==> Names(ScanBraces(s, pos).pairs) == {}
  {
    NoNames();
  }

  lemma NoNames()
    ensures Names([]) == {}
  {
  }

  lemma NamesFront(text: string, name: string, pairs: seq<(string, string)>)
    ensures Names([(text, name)] + pairs) == (if name == "" then {} else {name}) + Names(pairs)
  {
    var all := [(text, name)] + pairs;
    assert forall pair :: pair in all <==> pair == (text, name) || pair in pairs;
    forall n | n in (if name == "" then {} else {name}) + Names(pairs)
      ensures n in Names(all)
    {
      if n == name && name != "" {
        assert (text, name) in all;
      } else {
        var pair :| pair in pairs && pair.1 != "" && pair.1 == n;
        assert pair in all;
      }
    }
  }

  /** The name stands between a brace that opens where all before it are closed, and the first to close it. */
  ghost predicate IsBraced(s: string, pos: nat, open: int, close: int, name: string) {
    && pos <= open < close < |s| && s[open] == '{' && s[close] == '}'
    && name == s[open + 1..close] && '}' !in name
    && forall m :: pos <= m < open && s[m] == '{' ==> '}' in s[m + 1..open]
  }

  ghost predicate IsBracedName(s: string, pos: nat, name: string) {
    exists open, close :: IsBraced(s, pos, open, close, name)
  }

  predicate HasName(pairs: seq<(string, string)>, name: string) { exists pair :: pair in pairs && pair.1 == name }

  /** The scan finds the names between braces. */
  lemma {:induction false} ScannedIff(s: string, pos: nat, name: string)
    requires pos <= |s|
    ensures HasName(ScanBraces(s, pos).pairs, name) <==> IsBracedName(s, pos, name)
    decreases |s| - pos
  {
    hide ScanBraces, IsBracedName;
    ScanStep(s, pos);
    var open := NextFrom(s, '{', pos);
    if open.None? || NextFrom(s, '}', open.value + 1).None? {
      NoneBraced(s, pos);
    } else {
      var close := NextFrom(s, '}', open.value + 1).value;
      ScannedIff(s, close + 1, name);
      NamedLater(s, pos, open.value, close, name);
      HasNameFront(s[pos..open.value], s[open.value + 1..close], ScanBraces(s, close + 1).pairs, name);
    }
  }

  lemma NoneBraced(s: string, pos: nat)
    requires pos <= |s|
    requires NextFrom(s, '{', pos).None? || NextFrom(s, '}', NextFrom(s, '{', pos).value + 1).None?
    ensures forall name :: !IsBracedName(s, pos, name)
  {
  }

  /** A pair of braces is the first one or comes after it. */
  lemma BracedLater(s: string, pos: nat, open: nat, close: nat, next: nat, name: string)
    requires pos <= |s| && NextFrom(s, '{', pos) == Some(open) && NextFrom(s, '}', open + 1) == Some(close)
    requires next == close + 1
    ensures forall i, j :: IsBraced(s, pos, i, j, name) <==>
      (i == open && j == close && name == s[open + 1..close]) || IsBraced(s, next, i, j, name)
  {
  }

  lemma NamedLater(s: string, pos: nat, open: nat, close: nat, name: string)
    requires pos <= |s| && NextFrom(s, '{', pos) == Some(open) && NextFrom(s, '}', open + 1) == Some(close)
    ensures IsBracedName(s, pos, name) <==> s[open + 1..close] == name || IsBracedName(s, close + 1, name)
  {
    BracedLater(s, pos, open, close, close + 1, name);
    hide IsBraced, NextFrom;
    if s[open + 1..close] == name { assert IsBraced(s, pos, open, close, name); }
  }

  lemma HasNameFront(text: string, first: string, pairs: seq<(string, string)>, name: string)
    ensures HasName([(text, first)] + pairs, name) <==> first == name || HasName(pairs, name)
  {
    var all := [(text, first)] + pairs;
    assert forall pair :: pair in all <==> pair == (text, first) || pair in pairs;
  }

  /** A brace is left open exactly if none closes after it. */
  lemma {:induction false} UnmatchedIff(s: string, pos: nat)
    requires pos <= |s|
    ensures ScanBraces(s, pos).unmatched <==>
      exists open :: pos <= open < |s| && s[open] == '{' && '}' !in s[open + 1..]
    decreases |s| - pos
  {
    hide ScanBraces;
    ScanStep(s, pos);
    var open := NextFrom(s, '{', pos);
    if open.Some? {
      var close := NextFrom(s, '}', open.value + 1);
      if close.Some? {
        UnmatchedIff(s, close.value + 1);
        forall i | pos <= i <= close.value && s[i] == '{' ensures '}' in s[i + 1..] {
          assert s[i + 1..][close.value - i - 1] == '}';
        }
      }
    }
  }

  /** The parameters of a path are the nonempty names between a brace and the first to close it. */
  lemma ParametersAre(path: string, name: string)
    ensures name in PathParameterNames(path) <==> name != "" && IsBracedName(path, 0, name)
  {
    ScannedIff(path, 0, name);
    hide ScanBraces, IsBracedName;
  }

  predicate AcceptsKeyRoute(path: Option<string>, keyFields: seq<string>) {
    path.Some? && forall f :: f in keyFields ==> f in PathParameterNames(path.value)
  }

  /** Every key field, as a placeholder, is a whole part of the template. */
  predicate KeysAreParts(template: string, keyFields: seq<string>) {
    forall f :: f in keyFields ==> f in WholeNames(Parts(template))
  }

  /**
   The key fields are never null, on any path with as many parts as the template, exactly if each
   is a placeholder filling a whole part.
   */
  lemma KeysNeverNullIff(template: string, keyFields: seq<string>)
    ensures KeysAreParts(template, keyFields) <==>
      forall actual, f :: |Parts(actual)| >= |Parts(template)| && f in keyFields ==>
        PathParameterJson(Extract(template, Some(actual)), f) != Null
  {
    var t := Parts(template);
    forall actual, f | |Parts(actual)| >= |t| && f in keyFields
      ensures PathParameterJson(Extract(template, Some(actual)), f) != Null <==> f in WholeNames(t)
    {
      BindNames(t, Parts(actual), |t|);
      if f in WholeNames(t) {
        var p :| p in t && IsPlaceholder(p) && NameOf(p) == f;
        var i :| 0 <= i < |t| && t[i] == p;
        assert IsPlaceholder(t[i]);
      }
    }
    assert |Parts(template)| >= |t|;
  }

  /** Acceptance by validation is not enough: a placeholder may be only part of a segment. */
  lemma AcceptedKeyCanBeNull()
    ensures AcceptsKeyRoute(Some("/v{id}"), ["id"])
    ensures PathParameterJson(Extract("/v{id}", Some("/v7")), "id") == Null
  {
    hide Parts, PathParameterNames;
    PartsOfOneSegment("v{id}");
    PartsOfOneSegment("v7");
    assert "/" + "v{id}" == "/v{id}" && "/" + "v7" == "/v7";
    BindNames(["v{id}"], ["v7"], 1);
    OneName("/v", "id");
    assert "/v" + "{" + "id" + "}" == "/v{id}";
  }

  lemma PartsOfOneSegment(part: string)
    requires IsSegment(part)
    ensures Parts("/" + part) == [part]
  {
    hide Parts;
    assert Join([part][1..]) == "" && part + "" == part;
    PartsOfJoin([part]);
  }

  lemma OneName(text: string, name: string)
    requires '{' !in text && '}' !in name && name != ""
    ensures PathParameterNames(text + "{" + name + "}") == {name}
  {
    hide Names;
    var s := text + "{" + name + "}";
    assert s[|text|] == '{' && forall k :: 0 <= k < |text| ==> s[k] == text[k];
    assert s[|s| - 1] == '}' && s[|text| + 1..|s| - 1] == name;
    assert forall k :: |text| + 1 <= k < |s| - 1 ==> s[k] == name[k - |text| - 1];
    assert NextFrom(s, '{', 0) == Some(|text|) && NextFrom(s, '}', |text| + 1) == Some(|s| - 1);
    assert ScanBraces(s, |s|).pairs == [];
    NoNames();
    NamesFront(s[..|text|], name, []);
    assert ScanBraces(s, 0).pairs == [(s[..|text|], name)] + [];
  }
}
