/** What a walk reports, told by the files alone: which diagnostics there are, in which order, and why. */
module CompositionReports {
  import opened Options
  import opened Sequences
  import opened SpecFiles
  import opened IncludeGraph
  import opened Composition
  import opened CompositionResults
  import opened DeclaredVersions

  /** A walk parses files, each with a stack of includes from the root, and finds faults in the includes of files. */
  datatype Event = Parse(file: FileId, stack: seq<FileId>) | Fault(code: string, at: FileId, includer: FileId)

  function Says(files: Files, e: Event): seq<Diagnostic> {
    match e
    case Parse(file, _) => if file in files then files[file].diagnostics else []
    case Fault(code, at, _) => [Diagnostic(Error, code, at)]
  }

  /** The diagnostics of a trace: those of each parse, and one error for each fault. */
  function Told(files: Files, trace: seq<Event>): seq<Diagnostic> {
    if trace == [] then [] else Says(files, trace[0]) + Told(files, trace[1..])
  }

  function Parsed(trace: seq<Event>): seq<FileId> {
    if trace == [] then [] else (if trace[0].Parse? then [trace[0].file] else []) + Parsed(trace[1..])
  }

  /** Where a file's includes have a fault of the code, in order. */
  function FaultsBy(trace: seq<Event>, code: string, includer: FileId): seq<FileId> {
    if trace == [] then []
    else
      (if trace[0].Fault? && trace[0].code == code && trace[0].includer == includer then [trace[0].at] else [])
        + FaultsBy(trace[1..], code, includer)
  }

  function Missing(files: Files, includes: seq<FileId>): seq<FileId> {
    if includes == [] then []
    else (if includes[0] in files then [] else [includes[0]]) + Missing(files, includes[1..])
  }

  /** The includes that lead back to a file on the stack. */
  function Stacked(files: Files, includes: seq<FileId>, stack: seq<FileId>): seq<FileId> {
    if includes == [] then []
    else
      (if includes[0] in files && includes[0] in stack then [includes[0]] else [])
        + Stacked(files, includes[1..], stack)
  }

  // ------------------------------------------------------------------------- what holds of a trace

  /** No error was there when the file was parsed, nor in the file: its includes are followed. */
  ghost predicate OpenAt(
    files: Files, before: seq<Diagnostic>, trace: seq<Event>, i: int, file: FileId, stack: seq<FileId>)
  {
    && 0 <= i < |trace| && trace[i] == Parse(file, stack)
    && !HasErrors(before + Told(files, trace[..i + 1]))
  }

  ghost predicate IsOpened(files: Files, before: seq<Diagnostic>, trace: seq<Event>, file: FileId) {
    exists i, stack :: OpenAt(files, before, trace, i, file, stack)
  }

  ghost predicate ParsedAfresh(files: Files, trace: seq<Event>, loaded: set<FileId>) {
    NoDuplicates(Parsed(trace)) && forall f :: f in Parsed(trace) ==> f in files && f !in loaded
  }

  /** The faults of missing and of stacked includes are just those of `includes`, each once and in order. */
  ghost predicate FaultsOf(
    files: Files, trace: seq<Event>, includer: FileId, includes: seq<FileId>, stack: seq<FileId>)
  {
    && FaultsBy(trace, "SSPEC5001", includer) == Missing(files, includes)
    && FaultsBy(trace, "SSPEC5002", includer) == Stacked(files, includes, stack)
  }

  function Due(q: FileId, p: FileId, todo: seq<FileId>): seq<FileId> { if q == p then todo else [] }

  /** A file that was opened has the faults of its includes, any other none; but `p` those of `todo`. */
  ghost predicate IncludesReported(
    files: Files, before: seq<Diagnostic>, trace: seq<Event>, p: FileId, todo: seq<FileId>, stack: seq<FileId>)
  {
    && (forall i, q, st :: OpenAt(files, before, trace, i, q, st) ==> FaultsOf(files, trace, q, Follow(files, q), st))
    && (forall q :: !IsOpened(files, before, trace, q) ==> FaultsOf(files, trace, q, Due(q, p, todo), stack))
  }

  /** The stack is the one of the includer and the file, and the includer was opened, or is the given one. */
  ghost predicate StackAt(
    files: Files, before: seq<Diagnostic>, trace: seq<Event>, j: nat, stack: seq<FileId>, roots: seq<FileId>)
    requires j < |trace| && trace[j].Parse?
  {
    var (file, st) := (trace[j].file, trace[j].stack);
    && st != [] && st[|st| - 1] == file
    && var parents := st[..|st| - 1];
       || (parents == stack && file in roots)
       || exists i, q :: i < j && OpenAt(files, before, trace, i, q, parents) && file in Follow(files, q)
  }

  ghost predicate StacksFollow(
    files: Files, before: seq<Diagnostic>, trace: seq<Event>, stack: seq<FileId>, roots: seq<FileId>)
  {
    forall j :: 0 <= j < |trace| && trace[j].Parse? ==> StackAt(files, before, trace, j, stack, roots)
  }

  /** Every include that can be parsed is parsed, now or before. */
  ghost predicate AllParsed(
    files: Files, trace: seq<Event>, loaded: set<FileId>, includes: seq<FileId>, stack: seq<FileId>)
  {
    forall g :: g in includes && g in files && g !in stack ==> g in loaded || g in Parsed(trace)
  }

  ghost predicate IncludesParsed(
    files: Files, before: seq<Diagnostic>, trace: seq<Event>, loaded: set<FileId>, todo: seq<FileId>,
    stack: seq<FileId>)
  {
    && AllParsed(files, trace, loaded, todo, stack)
    && forall i, q, st :: OpenAt(files, before, trace, i, q, st) ==>
         AllParsed(files, trace, loaded, Follow(files, q), st)
  }

  /** A version clash is one between a file and its first includer, and nothing failed before it. */
  ghost predicate VersionClash(files: Files, before: seq<Diagnostic>, trace: seq<Event>, j: nat)
    requires j < |trace| && trace[j].Fault?
  {
    var (g, q) := (trace[j].at, trace[j].includer);
    && g in files && q in files && !Compatible(files[q].spec.version, files[g].spec.version)
    && (exists i :: 0 <= i < j && trace[i].Parse? && trace[i].file == g && EndsIn(trace[i].stack, q, g))
    && !HasErrors(before + Told(files, trace[..j]))
  }

  predicate EndsIn(stack: seq<FileId>, q: FileId, g: FileId) {
    |stack| > 1 && stack[|stack| - 2] == q && stack[|stack| - 1] == g
  }

  /** A scope clash is one between two parsed files, and nothing failed before but the versions there. */
  ghost predicate ScopeClash(files: Files, before: seq<Diagnostic>, trace: seq<Event>, j: nat, loaded: set<FileId>)
    requires j < |trace| && trace[j].Fault?
  {
    var (g, q) := (trace[j].at, trace[j].includer);
    && ScopesDiffer(files, loaded + ToSet(Parsed(trace[..j])))
    && (|| !HasErrors(before + Told(files, trace[..j]))
        || (j > 0 && trace[j - 1] == Fault("SSPEC5003", g, q) && !HasErrors(before + Told(files, trace[..j - 1]))))
  }

  ghost predicate ScopesDiffer(files: Files, known: set<FileId>) {
    exists x, y :: x in known && y in known && !Compatible(OwnScope(files, x), OwnScope(files, y))
  }

  ghost predicate FaultAt(files: Files, before: seq<Diagnostic>, trace: seq<Event>, j: nat, loaded: set<FileId>)
    requires j < |trace| && trace[j].Fault?
  {
    && trace[j].code in {"SSPEC5001", "SSPEC5002", "SSPEC5003", "SSPEC5004"}
    && (trace[j].code == "SSPEC5003" ==> VersionClash(files, before, trace, j))
    && (trace[j].code == "SSPEC5004" ==> ScopeClash(files, before, trace, j, loaded))
  }

  ghost predicate FaultsJustified(files: Files, before: seq<Diagnostic>, trace: seq<Event>, loaded: set<FileId>) {
    forall j :: 0 <= j < |trace| && trace[j].Fault? ==> FaultAt(files, before, trace, j, loaded)
  }

  /** The fault of an include comes after its includer was opened, or is one of those given. */
  ghost predicate PlacedAt(
    files: Files, before: seq<Diagnostic>, trace: seq<Event>, j: nat, p: FileId, todo: seq<FileId>)
    requires j < |trace| && trace[j].Fault?
  {
    || (trace[j].includer == p && trace[j].at in todo)
    || exists i, st :: i < j && OpenAt(files, before, trace, i, trace[j].includer, st)
  }

  ghost predicate FaultsPlaced(
    files: Files, before: seq<Diagnostic>, trace: seq<Event>, p: FileId, todo: seq<FileId>)
  {
    forall j :: 0 <= j < |trace| && trace[j].Fault? ==> PlacedAt(files, before, trace, j, p, todo)
  }

  /** All this of the trace of the includes `todo` of the file `p` on top of the stack. */
  ghost predicate Reports(
    files: Files, before: seq<Diagnostic>, trace: seq<Event>, p: FileId, todo: seq<FileId>,
    stack: seq<FileId>, loaded: set<FileId>, roots: seq<FileId>)
  {
    && ParsedAfresh(files, trace, loaded)
    && IncludesReported(files, before, trace, p, todo, stack)
    && StacksFollow(files, before, trace, stack, roots)
    && IncludesParsed(files, before, trace, loaded, todo, stack)
    && FaultsJustified(files, before, trace, loaded)
    && FaultsPlaced(files, before, trace, p, todo)
  }

  // ------------------------------------------------------------------------------- concatenation

  lemma {:induction false} ToldConcat(files: Files, a: seq<Event>, b: seq<Event>)
    ensures Told(files, a + b) == Told(files, a) + Told(files, b)
  {
    if a == [] {
      assert a + b == b;
    } else {
      assert (a + b)[1..] == a[1..] + b;
      ToldConcat(files, a[1..], b);
    }
  }

  lemma {:induction false} ParsedConcat(a: seq<Event>, b: seq<Event>)
    ensures Parsed(a + b) == Parsed(a) + Parsed(b)
  {
    if a == [] {
      assert a + b == b;
    } else {
      assert (a + b)[1..] == a[1..] + b;
      ParsedConcat(a[1..], b);
    }
  }

  lemma {:induction false} FaultsByConcat(a: seq<Event>, b: seq<Event>, code: string, includer: FileId)
    ensures FaultsBy(a + b, code, includer) == FaultsBy(a, code, includer) + FaultsBy(b, code, includer)
  {
    if a == [] {
      assert a + b == b;
    } else {
      assert (a + b)[1..] == a[1..] + b;
      FaultsByConcat(a[1..], b, code, includer);
    }
  }

  lemma {:induction false} MissingConcat(files: Files, a: seq<FileId>, b: seq<FileId>)
    ensures Missing(files, a + b) == Missing(files, a) + Missing(files, b)
  {
    if a == [] {
      assert a + b == b;
    } else {
      assert (a + b)[1..] == a[1..] + b;
      MissingConcat(files, a[1..], b);
    }
  }

  lemma {:induction false} StackedConcat(files: Files, a: seq<FileId>, b: seq<FileId>, stack: seq<FileId>)
    ensures Stacked(files, a + b, stack) == Stacked(files, a, stack) + Stacked(files, b, stack)
  {
    if a == [] {
      assert a + b == b;
    } else {
      assert (a + b)[1..] == a[1..] + b;
      StackedConcat(files, a[1..], b, stack);
    }
  }

  lemma FaultsOfConcat(
    files: Files, a: seq<Event>, b: seq<Event>, includer: FileId, first: seq<FileId>, rest: seq<FileId>,
    stack: seq<FileId>)
    requires FaultsOf(files, a, includer, first, stack) && FaultsOf(files, b, includer, rest, stack)
    ensures FaultsOf(files, a + b, includer, first + rest, stack)
  {
    FaultsByConcat(a, b, "SSPEC5001", includer);
    FaultsByConcat(a, b, "SSPEC5002", includer);
    MissingConcat(files, first, rest);
    StackedConcat(files, first, rest, stack);
  }

  /** What was told up to a place in the second part. */
  lemma ToldUpTo(files: Files, before: seq<Diagnostic>, a: seq<Event>, b: seq<Event>, k: nat)
    requires k <= |b|
    ensures before + Told(files, (a + b)[..|a| + k]) == before + Told(files, a) + Told(files, b[..k])
  {
    assert (a + b)[..|a| + k] == a + b[..k];
    ToldConcat(files, a, b[..k]);
    hide Told;
    Assoc(before, Told(files, a), Told(files, b[..k]));
  }

  lemma OpenAtConcat(
    files: Files, before: seq<Diagnostic>, a: seq<Event>, b: seq<Event>, i: int, q: FileId, stack: seq<FileId>)
    ensures i < |a| ==> (OpenAt(files, before, a + b, i, q, stack) <==> OpenAt(files, before, a, i, q, stack))
    ensures i >= |a| ==>
      (OpenAt(files, before, a + b, i, q, stack) <==>
         OpenAt(files, before + Told(files, a), b, i - |a|, q, stack))
  {
    if 0 <= i < |a| { assert (a + b)[..i + 1] == a[..i + 1]; }
    if |a| <= i < |a| + |b| { ToldUpTo(files, before, a, b, i - |a| + 1); }
  }

  lemma OpenedConcat(files: Files, before: seq<Diagnostic>, a: seq<Event>, b: seq<Event>, q: FileId)
    ensures IsOpened(files, before, a + b, q) <==>
      IsOpened(files, before, a, q) || IsOpened(files, before + Told(files, a), b, q)
  {
    if i, stack :| OpenAt(files, before, a + b, i, q, stack) {
      OpenAtConcat(files, before, a, b, i, q, stack);
    }
    if i, stack :| OpenAt(files, before, a, i, q, stack) {
      OpenAtConcat(files, before, a, b, i, q, stack);
    }
    if i, stack :| OpenAt(files, before + Told(files, a), b, i, q, stack) {
      OpenAtConcat(files, before, a, b, |a| + i, q, stack);
    }
  }

  lemma OpenedIsParsed(files: Files, before: seq<Diagnostic>, trace: seq<Event>, q: FileId)
    requires IsOpened(files, before, trace, q)
    ensures q in Parsed(trace)
  {
    var i, stack :| OpenAt(files, before, trace, i, q, stack);
    InParsed(trace, i);
  }

  lemma {:induction false} InParsed(trace: seq<Event>, i: nat)
    requires i < |trace| && trace[i].Parse?
    ensures trace[i].file in Parsed(trace)
  {
    if i > 0 { InParsed(trace[1..], i - 1); }
  }

  /** Two traces, one after the other, for the includes of one file. */
  lemma ReportsConcat(
    files: Files, before: seq<Diagnostic>, a: seq<Event>, b: seq<Event>, p: FileId,
    first: seq<FileId>, rest: seq<FileId>, stack: seq<FileId>, loaded: set<FileId>, roots: seq<FileId>)
    requires Reports(files, before, a, p, first, stack, loaded, roots)
    requires Reports(files, before + Told(files, a), b, p, rest, stack, loaded + ToSet(Parsed(a)), roots)
    requires p in loaded && ToSet(stack) <= loaded
    ensures Reports(files, before, a + b, p, first + rest, stack, loaded, roots)
  {
    hide OpenAt, FaultsOf, StackAt, FaultAt, AllParsed, IsOpened;
    ParsedConcat(a, b);
    assert ParsedAfresh(files, a + b, loaded) by { AfreshConcat(files, a, b, loaded); }
    assert IncludesReported(files, before, a + b, p, first + rest, stack) by {
      ReportedConcat(files, before, a, b, p, first, rest, stack, loaded);
    }
    assert StacksFollow(files, before, a + b, stack, roots) by { StacksConcat(files, before, a, b, stack, roots); }
    assert IncludesParsed(files, before, a + b, loaded, first + rest, stack) by {
      IncludesParsedConcat(files, before, a, b, loaded, first, rest, stack);
    }
    assert FaultsJustified(files, before, a + b, loaded) by { JustifiedConcat(files, before, a, b, loaded); }
    hide PlacedAt;
    assert FaultsPlaced(files, before, a + b, p, first + rest) by { PlacedConcat(files, before, a, b, p, first, rest); }
  }

  lemma PlacedAtFirst(
    files: Files, before: seq<Diagnostic>, a: seq<Event>, b: seq<Event>, j: nat, p: FileId,
    todo: seq<FileId>, more: seq<FileId>)
    requires j < |a| && a[j].Fault? && PlacedAt(files, before, a, j, p, todo) && forall g :: g in todo ==> g in more
    ensures PlacedAt(files, before, a + b, j, p, more)
  {
    hide OpenAt;
    if i, st :| i < j && OpenAt(files, before, a, i, a[j].includer, st) {
      OpenAtConcat(files, before, a, b, i, a[j].includer, st);
    }
  }

  lemma PlacedAtSecond(
    files: Files, before: seq<Diagnostic>, a: seq<Event>, b: seq<Event>, j: nat, p: FileId,
    todo: seq<FileId>, more: seq<FileId>)
    requires j < |b| && b[j].Fault? && PlacedAt(files, before + Told(files, a), b, j, p, todo)
    requires forall g :: g in todo ==> g in more
    ensures PlacedAt(files, before, a + b, |a| + j, p, more)
  {
    hide OpenAt;
    var middle := before + Told(files, a);
    assert (a + b)[|a| + j] == b[j];
    if i, st :| i < j && OpenAt(files, middle, b, i, b[j].includer, st) {
      OpenIn(files, middle, b, i, b[j].includer, st);
      OpenAtConcat(files, before, a, b, |a| + i, b[j].includer, st);
      assert |a| + i < |a| + j;
    }
  }

  lemma PlacedConcat(
    files: Files, before: seq<Diagnostic>, a: seq<Event>, b: seq<Event>, p: FileId, first: seq<FileId>,
    rest: seq<FileId>)
    requires FaultsPlaced(files, before, a, p, first) && FaultsPlaced(files, before + Told(files, a), b, p, rest)
    ensures FaultsPlaced(files, before, a + b, p, first + rest)
  {
    hide PlacedAt;
    forall j | 0 <= j < |a + b| && (a + b)[j].Fault? ensures PlacedAt(files, before, a + b, j, p, first + rest) {
      if j < |a| {
        PlacedAtFirst(files, before, a, b, j, p, first, first + rest);
      } else {
        PlacedAtSecond(files, before, a, b, j - |a|, p, rest, first + rest);
      }
    }
  }

  lemma AfreshConcat(files: Files, a: seq<Event>, b: seq<Event>, loaded: set<FileId>)
    requires ParsedAfresh(files, a, loaded) && ParsedAfresh(files, b, loaded + ToSet(Parsed(a)))
    ensures ParsedAfresh(files, a + b, loaded)
  {
    ParsedConcat(a, b);
    var x, y := Parsed(a), Parsed(b);
    forall i, j | 0 <= i < j < |x + y| ensures (x + y)[i] != (x + y)[j] {
      if i < |x| <= j { assert x[i] in x && y[j - |x|] in y; }
    }
  }

  lemma ReportedConcat(
    files: Files, before: seq<Diagnostic>, a: seq<Event>, b: seq<Event>, p: FileId,
    first: seq<FileId>, rest: seq<FileId>, stack: seq<FileId>, loaded: set<FileId>)
    requires IncludesReported(files, before, a, p, first, stack)
    requires IncludesReported(files, before + Told(files, a), b, p, rest, stack)
    requires ParsedAfresh(files, a, loaded) && ParsedAfresh(files, b, loaded + ToSet(Parsed(a))) && p in loaded
    ensures IncludesReported(files, before, a + b, p, first + rest, stack)
  {
    hide FaultsOf, OpenAt, IsOpened;
    var middle := before + Told(files, a);
    forall i, q, st | OpenAt(files, before, a + b, i, q, st)
      ensures FaultsOf(files, a + b, q, Follow(files, q), st)
    {
      OpenIn(files, before, a + b, i, q, st);
      OpenAtConcat(files, before, a, b, i, q, st);
      if i < |a| {
        OpenIn(files, before, a, i, q, st);
        if IsOpened(files, middle, b, q) { OpenedIsParsed(files, middle, b, q); }
        NoFaults(files, b, q, stack, st);
        FaultsOfConcat(files, a, b, q, Follow(files, q), [], st);
        assert Follow(files, q) + [] == Follow(files, q);
      } else {
        OpenIn(files, middle, b, i - |a|, q, st);
        if IsOpened(files, before, a, q) { OpenedIsParsed(files, before, a, q); }
        NoFaults(files, a, q, stack, st);
        FaultsOfConcat(files, a, b, q, [], Follow(files, q), st);
        assert [] + Follow(files, q) == Follow(files, q);
      }
    }
    var none: seq<FileId> := [];
    assert none + none == none;
    forall q | !IsOpened(files, before, a + b, q)
      ensures FaultsOf(files, a + b, q, Due(q, p, first + rest), stack)
    {
      OpenedConcat(files, before, a, b, q);
      FaultsOfConcat(files, a, b, q, Due(q, p, first), Due(q, p, rest), stack);
    }
  }

  lemma OpenIn(files: Files, before: seq<Diagnostic>, trace: seq<Event>, i: int, q: FileId, st: seq<FileId>)
    requires OpenAt(files, before, trace, i, q, st)
    ensures IsOpened(files, before, trace, q) && q in Parsed(trace) && 0 <= i < |trace|
  {
    InParsed(trace, i);
  }

  lemma NoFaults(files: Files, trace: seq<Event>, q: FileId, stack: seq<FileId>, st: seq<FileId>)
    ensures FaultsOf(files, trace, q, [], stack) <==> FaultsOf(files, trace, q, [], st)
  {
  }

  lemma StackAtFirst(
    files: Files, before: seq<Diagnostic>, a: seq<Event>, b: seq<Event>, j: nat, stack: seq<FileId>, roots: seq<FileId>)
    requires j < |a| && a[j].Parse? && StackAt(files, before, a, j, stack, roots)
    ensures StackAt(files, before, a + b, j, stack, roots)
  {
    hide OpenAt;
    var parents := a[j].stack[..|a[j].stack| - 1];
    if i, q :| i < j && OpenAt(files, before, a, i, q, parents) && a[j].file in Follow(files, q) {
      OpenAtConcat(files, before, a, b, i, q, parents);
    }
  }

  lemma StackAtSecond(
    files: Files, before: seq<Diagnostic>, a: seq<Event>, b: seq<Event>, j: nat, stack: seq<FileId>, roots: seq<FileId>)
    requires j < |b| && b[j].Parse? && StackAt(files, before + Told(files, a), b, j, stack, roots)
    ensures StackAt(files, before, a + b, |a| + j, stack, roots)
  {
    hide OpenAt;
    var middle, parents := before + Told(files, a), b[j].stack[..|b[j].stack| - 1];
    if i, q :| i < j && OpenAt(files, middle, b, i, q, parents) && b[j].file in Follow(files, q) {
      OpenIn(files, middle, b, i, q, parents);
      OpenAtConcat(files, before, a, b, |a| + i, q, parents);
      assert |a| + i < |a| + j;
    }
  }

  lemma StacksConcat(
    files: Files, before: seq<Diagnostic>, a: seq<Event>, b: seq<Event>, stack: seq<FileId>, roots: seq<FileId>)
    requires StacksFollow(files, before, a, stack, roots)
    requires StacksFollow(files, before + Told(files, a), b, stack, roots)
    ensures StacksFollow(files, before, a + b, stack, roots)
  {
    hide StackAt;
    forall j | 0 <= j < |a + b| && (a + b)[j].Parse? ensures StackAt(files, before, a + b, j, stack, roots) {
      if j < |a| {
        StackAtFirst(files, before, a, b, j, stack, roots);
      } else {
        StackAtSecond(files, before, a, b, j - |a|, stack, roots);
      }
    }
  }

  lemma IncludesParsedConcat(
    files: Files, before: seq<Diagnostic>, a: seq<Event>, b: seq<Event>, loaded: set<FileId>,
    first: seq<FileId>, rest: seq<FileId>, stack: seq<FileId>)
    requires IncludesParsed(files, before, a, loaded, first, stack)
    requires IncludesParsed(files, before + Told(files, a), b, loaded + ToSet(Parsed(a)), rest, stack)
    ensures IncludesParsed(files, before, a + b, loaded, first + rest, stack)
  {
    hide OpenAt;
    ParsedConcat(a, b);
    forall i, q, st | OpenAt(files, before, a + b, i, q, st)
      ensures AllParsed(files, a + b, loaded, Follow(files, q), st)
    {
      OpenAtConcat(files, before, a, b, i, q, st);
      if i < |a| {
        assert AllParsed(files, a, loaded, Follow(files, q), st);
      } else {
        assert AllParsed(files, b, loaded + ToSet(Parsed(a)), Follow(files, q), st);
      }
    }
  }

  lemma FaultAtFirst(
    files: Files, before: seq<Diagnostic>, a: seq<Event>, b: seq<Event>, j: nat, loaded: set<FileId>)
    requires j < |a| && a[j].Fault? && FaultAt(files, before, a, j, loaded)
    ensures FaultAt(files, before, a + b, j, loaded)
  {
    assert (a + b)[..j] == a[..j] && (j > 0 ==> (a + b)[..j - 1] == a[..j - 1]);
  }

  lemma FaultAtSecond(
    files: Files, before: seq<Diagnostic>, a: seq<Event>, b: seq<Event>, j: nat, loaded: set<FileId>)
    requires j < |b| && b[j].Fault? && FaultAt(files, before + Told(files, a), b, j, loaded + ToSet(Parsed(a)))
    ensures FaultAt(files, before, a + b, |a| + j, loaded)
  {
    hide ScopesDiffer, Compatible, HasErrors, Told, Parsed, ToSet;
    var n := |a| + j;
    ToldUpTo(files, before, a, b, j);
    if j > 0 { ToldUpTo(files, before, a, b, j - 1); }
    ParsedUpTo(a, b, j, loaded);
    if b[j].code == "SSPEC5003" {
      var (g, q) := (b[j].at, b[j].includer);
      var i :| 0 <= i < j && b[i].Parse? && b[i].file == g && EndsIn(b[i].stack, q, g);
      assert (a + b)[|a| + i] == b[i];
    }
    if j > 0 { assert (a + b)[n - 1] == b[j - 1]; }
  }

  lemma ParsedUpTo(a: seq<Event>, b: seq<Event>, j: nat, loaded: set<FileId>)
    requires j <= |b|
    ensures loaded + ToSet(Parsed(a)) + ToSet(Parsed(b[..j])) == loaded + ToSet(Parsed((a + b)[..|a| + j]))
  {
    assert (a + b)[..|a| + j] == a + b[..j];
    ParsedConcat(a, b[..j]);
  }

  lemma JustifiedConcat(files: Files, before: seq<Diagnostic>, a: seq<Event>, b: seq<Event>, loaded: set<FileId>)
    requires FaultsJustified(files, before, a, loaded)
    requires FaultsJustified(files, before + Told(files, a), b, loaded + ToSet(Parsed(a)))
    ensures FaultsJustified(files, before, a + b, loaded)
  {
    hide FaultAt;
    forall j | 0 <= j < |a + b| && (a + b)[j].Fault? ensures FaultAt(files, before, a + b, j, loaded) {
      if j < |a| {
        FaultAtFirst(files, before, a, b, j, loaded);
      } else {
        FaultAtSecond(files, before, a, b, j - |a|, loaded);
      }
    }
  }

  // ------------------------------------------------------------------------------------- one file

  lemma NothingReported(
    files: Files, before: seq<Diagnostic>, p: FileId, stack: seq<FileId>, loaded: set<FileId>, roots: seq<FileId>)
    ensures Reports(files, before, [], p, [], stack, loaded, roots)
  {
  }

  /** An include that is missing or stacked gives one fault. */
  lemma FaultReported(
    files: Files, before: seq<Diagnostic>, code: string, g: FileId, p: FileId,
    stack: seq<FileId>, loaded: set<FileId>, roots: seq<FileId>)
    requires if g !in files then code == "SSPEC5001" else g in stack && code == "SSPEC5002"
    ensures Reports(files, before, [Fault(code, g, p)], p, [g], stack, loaded, roots)
  {
    var trace := [Fault(code, g, p)];
    assert trace[1..] == [] && [g][1..] == [];
    assert forall i, q, st :: !OpenAt(files, before, trace, i, q, st);
    forall q ensures FaultsOf(files, trace, q, Due(q, p, [g]), stack) {
      assert Due(q, p, [g]) == [] || q == p;
    }
  }

  lemma OneParse(files: Files, before: seq<Diagnostic>, g: FileId, st: seq<FileId>)
    requires g in files
    ensures var one := [Parse(g, st)];
      && Told(files, one) == files[g].diagnostics && Parsed(one) == [g]
      && (forall code, q :: FaultsBy(one, code, q) == [])
      && forall i, q, x :: OpenAt(files, before, one, i, q, x) <==>
           i == 0 && q == g && x == st && !HasErrors(before + files[g].diagnostics)
  {
    var one := [Parse(g, st)];
    assert one[1..] == [] && one[..1] == one;
  }

  lemma FaultsAfterParse(files: Files, g: FileId, st: seq<FileId>, inner: seq<Event>, q: FileId)
    ensures forall includes, x ::
      FaultsOf(files, [Parse(g, st)] + inner, q, includes, x) <==> FaultsOf(files, inner, q, includes, x)
  {
    assert ([Parse(g, st)] + inner)[1..] == inner;
  }

  /** A file that is parsed with errors around is not opened. */
  lemma UnopenedReports(
    files: Files, before: seq<Diagnostic>, g: FileId, p: FileId, stack: seq<FileId>, loaded: set<FileId>)
    requires g in files && g !in loaded && HasErrors(before + files[g].diagnostics)
    ensures Reports(files, before, [Parse(g, stack + [g])], p, [], stack, loaded, [g])
  {
    OneParse(files, before, g, stack + [g]);
    hide OpenAt;
    assert (stack + [g])[..|stack + [g]| - 1] == stack;
  }

  /** A file that is opened, and what its includes report. */
  lemma OpenedReports(
    files: Files, before: seq<Diagnostic>, g: FileId, inner: seq<Event>, p: FileId, stack: seq<FileId>,
    loaded: set<FileId>)
    requires g in files && g !in loaded && p != g && !HasErrors(before + files[g].diagnostics)
    requires Reports(
      files, before + files[g].diagnostics, inner, g, Follow(files, g), stack + [g], loaded + {g}, Follow(files, g))
    ensures Reports(files, before, [Parse(g, stack + [g])] + inner, p, [], stack, loaded, [g])
  {
    var one := [Parse(g, stack + [g])];
    OneParse(files, before, g, stack + [g]);
    hide OpenAt, FaultsOf, StackAt, FaultAt, AllParsed, IsOpened, HasErrors;
    assert ToSet([g]) == {g};
    ParsedConcat(one, inner);
    assert ParsedAfresh(files, one, loaded) by { assert forall f :: f in [g] ==> f == g; }
    AfreshConcat(files, one, inner, loaded);
    assert IncludesReported(files, before, one + inner, p, [], stack) by {
      OpenedIncludes(files, before, g, inner, p, stack, loaded);
    }
    assert StacksFollow(files, before, one + inner, stack, [g]) by { OpenedStacks(files, before, g, inner, stack); }
    assert IncludesParsed(files, before, one + inner, loaded, [], stack) by {
      OpenedParses(files, before, g, inner, stack, loaded);
    }
    assert FaultsJustified(files, before, one, loaded);
    JustifiedConcat(files, before, one, inner, loaded);
    hide PlacedAt;
    assert FaultsPlaced(files, before, one + inner, p, []) by { OpenedPlaced(files, before, g, inner, p, stack); }
  }

  lemma OpenedPlaced(
    files: Files, before: seq<Diagnostic>, g: FileId, inner: seq<Event>, p: FileId, stack: seq<FileId>)
    requires g in files && !HasErrors(before + files[g].diagnostics)
    requires FaultsPlaced(files, before + files[g].diagnostics, inner, g, Follow(files, g))
    ensures FaultsPlaced(files, before, [Parse(g, stack + [g])] + inner, p, [])
  {
    var one, middle := [Parse(g, stack + [g])], before + files[g].diagnostics;
    OneParse(files, before, g, stack + [g]);
    hide OpenAt, HasErrors, Told, Parsed, FaultsBy, Follow;
    OpenAtConcat(files, before, one, inner, 0, g, stack + [g]);
    forall j | 0 <= j < |one + inner| && (one + inner)[j].Fault?
      ensures PlacedAt(files, before, one + inner, j, p, [])
    {
      assert inner[j - 1] == (one + inner)[j] && PlacedAt(files, middle, inner, j - 1, g, Follow(files, g));
      var n, q := j - 1, inner[j - 1].includer;
      if i, st :| i < n && OpenAt(files, middle, inner, i, q, st) {
        OpenIn(files, middle, inner, i, q, st);
        OpenAtConcat(files, before, one, inner, i + 1, q, st);
        assert i + 1 < j;
      }
    }
  }

  lemma OpenedIncludes(
    files: Files, before: seq<Diagnostic>, g: FileId, inner: seq<Event>, p: FileId, stack: seq<FileId>,
    loaded: set<FileId>)
    requires g in files && g !in loaded && p != g && !HasErrors(before + files[g].diagnostics)
    requires ParsedAfresh(files, inner, loaded + {g})
    requires IncludesReported(files, before + files[g].diagnostics, inner, g, Follow(files, g), stack + [g])
    ensures IncludesReported(files, before, [Parse(g, stack + [g])] + inner, p, [], stack)
  {
    var one, middle := [Parse(g, stack + [g])], before + files[g].diagnostics;
    OneParse(files, before, g, stack + [g]);
    hide OpenAt, FaultsOf, IsOpened, HasErrors;
    if IsOpened(files, middle, inner, g) { OpenedIsParsed(files, middle, inner, g); }
    forall i, q, st | OpenAt(files, before, one + inner, i, q, st)
      ensures FaultsOf(files, one + inner, q, Follow(files, q), st)
    {
      OpenIn(files, before, one + inner, i, q, st);
      OpenAtConcat(files, before, one, inner, i, q, st);
      FaultsAfterParse(files, g, stack + [g], inner, q);
    }
    forall q | !IsOpened(files, before, one + inner, q) ensures FaultsOf(files, one + inner, q, [], stack) {
      OpenedConcat(files, before, one, inner, q);
      FaultsAfterParse(files, g, stack + [g], inner, q);
      if q == g { OpenIn(files, before, one, 0, g, stack + [g]); }
      NoFaults(files, inner, q, stack + [g], stack);
    }
  }

  lemma OpenedStacks(files: Files, before: seq<Diagnostic>, g: FileId, inner: seq<Event>, stack: seq<FileId>)
    requires g in files && !HasErrors(before + files[g].diagnostics)
    requires StacksFollow(files, before + files[g].diagnostics, inner, stack + [g], Follow(files, g))
    ensures StacksFollow(files, before, [Parse(g, stack + [g])] + inner, stack, [g])
  {
    var one := [Parse(g, stack + [g])];
    FirstStackAt(files, before, g, inner, stack);
    hide StackAt, HasErrors;
    forall j | 0 < j < |one + inner| && (one + inner)[j].Parse?
      ensures StackAt(files, before, one + inner, j, stack, [g])
    {
      assert inner[j - 1] == (one + inner)[j];
      OpenedStackAt(files, before, g, inner, stack, j - 1);
    }
  }

  lemma FirstStackAt(files: Files, before: seq<Diagnostic>, g: FileId, inner: seq<Event>, stack: seq<FileId>)
    ensures StackAt(files, before, [Parse(g, stack + [g])] + inner, 0, stack, [g])
  {
    hide OpenAt;
    assert (stack + [g])[..|stack + [g]| - 1] == stack;
  }

  lemma OpenedStackAt(
    files: Files, before: seq<Diagnostic>, g: FileId, inner: seq<Event>, stack: seq<FileId>, j: nat)
    requires g in files && !HasErrors(before + files[g].diagnostics) && j < |inner| && inner[j].Parse?
    requires StackAt(files, before + files[g].diagnostics, inner, j, stack + [g], Follow(files, g))
    ensures StackAt(files, before, [Parse(g, stack + [g])] + inner, j + 1, stack, [g])
  {
    var one, middle := [Parse(g, stack + [g])], before + files[g].diagnostics;
    OneParse(files, before, g, stack + [g]);
    hide OpenAt, HasErrors, Told, Parsed, FaultsBy, Follow;
    assert (one + inner)[j + 1] == inner[j];
    hide IsOpened;
    var parents, file := inner[j].stack[..|inner[j].stack| - 1], inner[j].file;
    var at: int, includer: FileId := 0, g;
    if parents == stack + [g] && file in Follow(files, g) {
      OpenAtConcat(files, before, one, inner, 0, g, stack + [g]);
    } else {
      var i, q :| i < j && OpenAt(files, middle, inner, i, q, parents) && file in Follow(files, q);
      OpenIn(files, middle, inner, i, q, parents);
      OpenAtConcat(files, before, one, inner, i + 1, q, parents);
      at, includer := i + 1, q;
    }
    OpenedBy(files, before, one + inner, j + 1, stack, g, at, includer);
  }

  /** A file parsed on the stack of an opened file that includes it. */
  lemma OpenedBy(
    files: Files, before: seq<Diagnostic>, trace: seq<Event>, j: nat, stack: seq<FileId>, g: FileId,
    i: int, q: FileId)
    requires j < |trace| && trace[j].Parse? && i < j
    requires var st := trace[j].stack;
      st != [] && st[|st| - 1] == trace[j].file && OpenAt(files, before, trace, i, q, st[..|st| - 1])
    requires trace[j].file in Follow(files, q)
    ensures StackAt(files, before, trace, j, stack, [g])
  {
    hide OpenAt, Follow;
  }

  lemma OpenedParses(
    files: Files, before: seq<Diagnostic>, g: FileId, inner: seq<Event>, stack: seq<FileId>, loaded: set<FileId>)
    requires g in files && !HasErrors(before + files[g].diagnostics)
    requires IncludesParsed(files, before + files[g].diagnostics, inner, loaded + {g}, Follow(files, g), stack + [g])
    ensures IncludesParsed(files, before, [Parse(g, stack + [g])] + inner, loaded, [], stack)
  {
    var one, middle := [Parse(g, stack + [g])], before + files[g].diagnostics;
    OneParse(files, before, g, stack + [g]);
    ParsedConcat(one, inner);
    hide OpenAt, HasErrors;
    forall i, q, st | OpenAt(files, before, one + inner, i, q, st)
      ensures AllParsed(files, one + inner, loaded, Follow(files, q), st)
    {
      OpenAtConcat(files, before, one, inner, i, q, st);
      assert AllParsed(files, inner, loaded + {g}, Follow(files, q), st);
    }
  }

  // ------------------------------------------------------------------------------------- clashes

  ghost predicate ScopeFrom(files: Files, scope: Option<string>, known: set<FileId>) {
    scope.Some? ==> exists x :: x in known && OwnScope(files, x) == scope
  }

  /** The faults of a clash, after what was reported for the include. */
  function Clashes(version: bool, scope: bool, g: FileId, p: FileId): seq<Event> {
    (if version then [Fault("SSPEC5003", g, p)] else []) + (if scope then [Fault("SSPEC5004", g, p)] else [])
  }

  lemma ClashesReported(
    files: Files, before: seq<Diagnostic>, a: seq<Event>, version: bool, scope: bool, g: FileId, p: FileId,
    todo: seq<FileId>, stack: seq<FileId>, loaded: set<FileId>, roots: seq<FileId>)
    requires Reports(files, before, a, p, todo, stack, loaded, roots) && !HasErrors(before + Told(files, a))
    requires p in files && g in files && stack != [] && stack[|stack| - 1] == p
    requires version ==> !Compatible(files[p].spec.version, files[g].spec.version) && Parse(g, stack + [g]) in a
    requires scope ==> ScopesDiffer(files, loaded + ToSet(Parsed(a)))
    requires g in todo
    ensures Reports(files, before, a + Clashes(version, scope, g, p), p, todo, stack, loaded, roots)
  {
    var b := Clashes(version, scope, g, p);
    ClashesOnly(version, scope, g, p);
    ClashesJustified(files, before, a, version, scope, g, p, stack, loaded);
    ParsedConcat(a, b);
    assert Parsed(a) + [] == Parsed(a);
    hide HasErrors, ScopesDiffer, Compatible, Clashes, Told, Parsed, FaultsBy, FaultAt, FaultsOf, StackAt;
    hide FaultsJustified, FaultsPlaced, PlacedAt, IncludesReported, StacksFollow, IncludesParsed, NoDuplicates;
    hide AllParsed, OpenAt, IsOpened;
    ClashesKeepIncludes(files, before, a, b, p, todo, stack);
    ClashesKeepStacks(files, before, a, b, stack, roots);
    ClashesKeepParses(files, before, a, b, loaded, todo, stack);
    ClashesPlaced(files, before, a, version, scope, g, p, todo);
  }

  lemma ClashesPlaced(
    files: Files, before: seq<Diagnostic>, a: seq<Event>, version: bool, scope: bool, g: FileId, p: FileId,
    todo: seq<FileId>)
    requires FaultsPlaced(files, before, a, p, todo) && g in todo
    ensures FaultsPlaced(files, before, a + Clashes(version, scope, g, p), p, todo)
  {
    var b := Clashes(version, scope, g, p);
    hide OpenAt;
    forall j | 0 <= j < |a + b| && (a + b)[j].Fault? ensures PlacedAt(files, before, a + b, j, p, todo) {
      if j < |a| {
        PlacedAtFirst(files, before, a, b, j, p, todo, todo);
      } else {
        assert (a + b)[j] == b[j - |a|] && b[j - |a|].includer == p && b[j - |a|].at == g;
      }
    }
  }

  lemma ClashesOnly(version: bool, scope: bool, g: FileId, p: FileId)
    ensures var b := Clashes(version, scope, g, p);
      && Parsed(b) == [] && (forall i :: 0 <= i < |b| ==> b[i].Fault?)
      && forall q :: FaultsBy(b, "SSPEC5001", q) == [] && FaultsBy(b, "SSPEC5002", q) == []
  {
    var first: seq<Event> := if version then [Fault("SSPEC5003", g, p)] else [];
    var second: seq<Event> := if scope then [Fault("SSPEC5004", g, p)] else [];
    ParsedConcat(first, second);
    forall q ensures FaultsBy(first + second, "SSPEC5001", q) == [] && FaultsBy(first + second, "SSPEC5002", q) == [] {
      FaultsByConcat(first, second, "SSPEC5001", q);
      FaultsByConcat(first, second, "SSPEC5002", q);
    }
  }

  lemma ClashesKeepStacks(
    files: Files, before: seq<Diagnostic>, a: seq<Event>, b: seq<Event>, stack: seq<FileId>, roots: seq<FileId>)
    requires StacksFollow(files, before, a, stack, roots) && forall i :: 0 <= i < |b| ==> b[i].Fault?
    ensures StacksFollow(files, before, a + b, stack, roots)
  {
    hide StackAt;
    forall j | 0 <= j < |a + b| && (a + b)[j].Parse? ensures StackAt(files, before, a + b, j, stack, roots) {
      StackAtFirst(files, before, a, b, j, stack, roots);
    }
  }

  lemma ClashesKeepParses(
    files: Files, before: seq<Diagnostic>, a: seq<Event>, b: seq<Event>, loaded: set<FileId>,
    todo: seq<FileId>, stack: seq<FileId>)
    requires IncludesParsed(files, before, a, loaded, todo, stack) && forall i :: 0 <= i < |b| ==> b[i].Fault?
    requires Parsed(a + b) == Parsed(a)
    ensures IncludesParsed(files, before, a + b, loaded, todo, stack)
  {
    hide OpenAt, AllParsed, Parsed;
    forall i, q, st | OpenAt(files, before, a + b, i, q, st)
      ensures AllParsed(files, a + b, loaded, Follow(files, q), st)
    {
      OpenParse(files, before, a + b, i, q, st);
      OpenAtConcat(files, before, a, b, i, q, st);
      SameParsed(files, a, a + b, loaded, Follow(files, q), st);
    }
    SameParsed(files, a, a + b, loaded, todo, stack);
  }

  lemma SameParsed(
    files: Files, a: seq<Event>, b: seq<Event>, loaded: set<FileId>, includes: seq<FileId>, stack: seq<FileId>)
    requires Parsed(a) == Parsed(b) && AllParsed(files, a, loaded, includes, stack)
    ensures AllParsed(files, b, loaded, includes, stack)
  {
  }

  lemma OpenParse(files: Files, before: seq<Diagnostic>, trace: seq<Event>, i: int, q: FileId, st: seq<FileId>)
    requires OpenAt(files, before, trace, i, q, st)
    ensures 0 <= i < |trace| && trace[i].Parse?
  {
  }

  lemma ClashesKeepIncludes(
    files: Files, before: seq<Diagnostic>, a: seq<Event>, b: seq<Event>, p: FileId, todo: seq<FileId>,
    stack: seq<FileId>)
    requires IncludesReported(files, before, a, p, todo, stack) && forall i :: 0 <= i < |b| ==> b[i].Fault?
    requires forall q :: FaultsBy(b, "SSPEC5001", q) == [] && FaultsBy(b, "SSPEC5002", q) == []
    ensures IncludesReported(files, before, a + b, p, todo, stack)
  {
    hide OpenAt, IsOpened, FaultsBy, Missing, Stacked;
    forall q, includes, st | FaultsOf(files, a, q, includes, st) ensures FaultsOf(files, a + b, q, includes, st) {
      FaultsByConcat(a, b, "SSPEC5001", q);
      FaultsByConcat(a, b, "SSPEC5002", q);
      assert forall x: seq<FileId> :: x + [] == x;
    }
    hide FaultsOf;
    forall i, q, st | OpenAt(files, before, a + b, i, q, st)
      ensures FaultsOf(files, a + b, q, Follow(files, q), st)
    {
      OpenParse(files, before, a + b, i, q, st);
      OpenAtConcat(files, before, a, b, i, q, st);
    }
    forall q | !IsOpened(files, before, a + b, q) ensures FaultsOf(files, a + b, q, Due(q, p, todo), stack) {
      OpenedConcat(files, before, a, b, q);
    }
  }

  lemma FaultJustified(files: Files, before: seq<Diagnostic>, a: seq<Event>, e: Event, loaded: set<FileId>)
    requires FaultsJustified(files, before, a, loaded) && e.Fault?
    requires FaultAt(files, before, a + [e], |a|, loaded)
    ensures FaultsJustified(files, before, a + [e], loaded)
  {
    hide FaultAt;
    forall j | 0 <= j < |a + [e]| && (a + [e])[j].Fault? ensures FaultAt(files, before, a + [e], j, loaded) {
      if j < |a| { FaultAtFirst(files, before, a, [e], j, loaded); }
    }
  }

  lemma VersionClashAt(
    files: Files, before: seq<Diagnostic>, a: seq<Event>, g: FileId, p: FileId, stack: seq<FileId>, loaded: set<FileId>)
    requires !HasErrors(before + Told(files, a)) && Parse(g, stack + [g]) in a
    requires p in files && g in files && stack != [] && stack[|stack| - 1] == p
    requires !Compatible(files[p].spec.version, files[g].spec.version)
    ensures FaultAt(files, before, a + [Fault("SSPEC5003", g, p)], |a|, loaded)
  {
    hide HasErrors, Compatible, Told;
    var b := a + [Fault("SSPEC5003", g, p)];
    var i :| 0 <= i < |a| && a[i] == Parse(g, stack + [g]);
    assert b[i] == a[i] && EndsIn(stack + [g], p, g) && b[..|a|] == a;
  }

  lemma ScopeClashAt(
    files: Files, before: seq<Diagnostic>, b: seq<Event>, g: FileId, p: FileId, loaded: set<FileId>)
    requires ScopesDiffer(files, loaded + ToSet(Parsed(b)))
    requires !HasErrors(before + Told(files, b)) ||
      (b != [] && b[|b| - 1] == Fault("SSPEC5003", g, p) && !HasErrors(before + Told(files, b[..|b| - 1])))
    ensures FaultAt(files, before, b + [Fault("SSPEC5004", g, p)], |b|, loaded)
  {
    hide HasErrors, ScopesDiffer, Told, Parsed, ToSet;
    var c := b + [Fault("SSPEC5004", g, p)];
    assert c[..|b|] == b;
    if b != [] { assert c[|b| - 1] == b[|b| - 1] && c[..|b| - 1] == b[..|b| - 1]; }
  }

  lemma ParsedNoFault(a: seq<Event>, e: Event)
    requires e.Fault?
    ensures Parsed(a + [e]) == Parsed(a)
  {
    ParsedConcat(a, [e]);
    assert [e][1..] == [] && Parsed([e]) == [];
    assert Parsed(a) + [] == Parsed(a);
  }

  lemma ClashesJustified(
    files: Files, before: seq<Diagnostic>, a: seq<Event>, version: bool, scope: bool, g: FileId, p: FileId,
    stack: seq<FileId>, loaded: set<FileId>)
    requires FaultsJustified(files, before, a, loaded) && !HasErrors(before + Told(files, a))
    requires p in files && g in files && stack != [] && stack[|stack| - 1] == p
    requires version ==> !Compatible(files[p].spec.version, files[g].spec.version) && Parse(g, stack + [g]) in a
    requires scope ==> ScopesDiffer(files, loaded + ToSet(Parsed(a)))
    ensures FaultsJustified(files, before, a + Clashes(version, scope, g, p), loaded)
  {
    hide HasErrors, ScopesDiffer, Compatible, Told, Parsed, FaultsJustified, FaultAt, ToSet;
    var first: seq<Event> := if version then [Fault("SSPEC5003", g, p)] else [];
    if version {
      VersionClashAt(files, before, a, g, p, stack, loaded);
      FaultJustified(files, before, a, first[0], loaded);
      ParsedNoFault(a, first[0]);
      assert (a + first)[..|a|] == a;
    } else {
      assert a + first == a;
    }
    if scope {
      ScopeClashAt(files, before, a + first, g, p, loaded);
      FaultJustified(files, before, a + first, Fault("SSPEC5004", g, p), loaded);
      Assoc(a, first, [Fault("SSPEC5004", g, p)]);
    } else {
      assert first + [] == first;
    }
  }

  // ------------------------------------------------------------------------------------ the walk

  lemma LoadReports(files: Files, w: Walker, g: FileId, p: FileId) returns (trace: seq<Event>)
    requires g in files && g !in w.stack && ToSet(w.stack) <= w.loaded && p != g
    ensures var (after, spec) := Load(files, w, g); LoadTold(files, w, g, after, spec, trace)
    ensures Reports(files, w.diagnostics, trace, p, [], w.stack, w.loaded, [g])
    decreases |files.Keys - w.loaded|, 0
  {
    var st, diagnostics := w.stack + [g], w.diagnostics + files[g].diagnostics;
    var inside := Walker(diagnostics, st, w.loaded + {g}, w.parses + [g]);
    hide Reports, LoadTold;
    if g in w.loaded {
      trace := [];
      NothingReported(files, w.diagnostics, p, w.stack, w.loaded, [g]);
      AgainTold(files, w, g);
    } else if HasErrors(diagnostics) {
      trace := [Parse(g, st)];
      UnopenedReports(files, w.diagnostics, g, p, w.stack, w.loaded);
      UnopenedTold(files, w, g);
    } else {
      assert files.Keys - w.loaded == files.Keys - inside.loaded + {g};
      assert ToSet(st) == ToSet(w.stack) + {g};
      var inner := OpenedIncludesReport(files, inside, g);
      trace := [Parse(g, st)] + inner;
      OpenedReports(files, w.diagnostics, g, inner, p, w.stack, w.loaded);
      OpenedTold(files, w, g, inner);
    }
  }

  /** How the outcome of loading a file is told by the trace. */
  ghost predicate LoadTold(files: Files, w: Walker, g: FileId, after: Walker, spec: Spec, trace: seq<Event>) {
    && g in files
    && after.diagnostics == w.diagnostics + Told(files, trace)
    && after.parses == w.parses + Parsed(trace)
    && after.loaded == w.loaded + ToSet(Parsed(trace))
    && (spec.version.Some? ==> spec.version == files[g].spec.version && Parse(g, w.stack + [g]) in trace)
    && (spec.system.Some? ==> ScopeFrom(files, spec.system.value.tenantScope, after.loaded))
    && (g in w.loaded || g in Parsed(trace))
  }

  lemma AgainTold(files: Files, w: Walker, g: FileId)
    requires g in files && g in w.loaded
    ensures LoadTold(files, w, g, w, EMPTY_SPEC, [])
  {
    assert w.diagnostics + [] == w.diagnostics && w.parses + [] == w.parses;
  }

  lemma UnopenedTold(files: Files, w: Walker, g: FileId)
    requires g in files
    ensures LoadTold(
      files, w, g, Walker(w.diagnostics + files[g].diagnostics, w.stack, w.loaded + {g}, w.parses + [g]),
      files[g].spec, [Parse(g, w.stack + [g])])
  {
    var one := [Parse(g, w.stack + [g])];
    OneParse(files, w.diagnostics, g, w.stack + [g]);
    assert one[0] in one && ToSet([g]) == {g};
    if files[g].spec.system.Some? { OwnScopeIs(files, g); }
    hide Told, Parsed;
  }

  /** How the outcome of the includes of a file that is opened is told. */
  ghost predicate OpenedOutcome(files: Files, inside: Walker, g: FileId, after: Walker, spec: Spec, inner: seq<Event>) {
    && g in files
    && after.stack == inside.stack
    && after.diagnostics == inside.diagnostics + Told(files, inner)
    && after.parses == inside.parses + Parsed(inner)
    && after.loaded == inside.loaded + ToSet(Parsed(inner))
    && spec.version == files[g].spec.version
    && (spec.system.Some? ==> ScopeFrom(files, spec.system.value.tenantScope, after.loaded))
  }

  lemma OwnScopeIs(files: Files, g: FileId)
    requires g in files && files[g].spec.system.Some?
    ensures forall known :: g in known ==> ScopeFrom(files, files[g].spec.system.value.tenantScope, known)
  {
  }

  lemma OpenedTold(files: Files, w: Walker, g: FileId, inner: seq<Event>)
    requires g in files && g !in w.loaded && g !in w.stack && !HasErrors(w.diagnostics + files[g].diagnostics)
    requires var inside := Walker(
        w.diagnostics + files[g].diagnostics, w.stack + [g], w.loaded + {g}, w.parses + [g]);
      var (after, spec) := Opened(files, inside, files[g].spec);
      OpenedOutcome(files, inside, g, after, spec, inner)
    ensures var (after, spec) := Load(files, w, g);
      LoadTold(files, w, g, after, spec, [Parse(g, w.stack + [g])] + inner)
  {
    var one := [Parse(g, w.stack + [g])];
    OneParse(files, w.diagnostics, g, w.stack + [g]);
    ToldConcat(files, one, inner);
    ParsedConcat(one, inner);
    hide Told, Parsed, Opened, HasErrors, FaultsBy, OpenAt, ScopeFrom;
    assert (one + inner)[0] in one + inner;
    Assoc(w.diagnostics, files[g].diagnostics, Told(files, inner));
    Assoc(w.parses, [g], Parsed(inner));
    SetOfCons(g, Parsed(inner), w.loaded);
  }

  lemma SetOfCons(g: FileId, rest: seq<FileId>, loaded: set<FileId>)
    ensures loaded + ToSet([g] + rest) == loaded + {g} + ToSet(rest) && g in [g] + rest
  {
    assert forall x :: x in [g] + rest <==> x == g || x in rest;
  }

  lemma OpenedIncludesReport(files: Files, inside: Walker, g: FileId) returns (inner: seq<Event>)
    requires g in files && inside.stack != [] && inside.stack[|inside.stack| - 1] == g
    requires ToSet(inside.stack) <= inside.loaded
    ensures var (after, spec) := Opened(files, inside, files[g].spec);
      OpenedOutcome(files, inside, g, after, spec, inner)
    ensures Reports(
      files, inside.diagnostics, inner, g, Follow(files, g), inside.stack, inside.loaded, Follow(files, g))
    decreases |files.Keys - inside.loaded|, |files[g].spec.includes| + 2
  {
    hide Reports, Append, LoadIncludes;
    var spec := files[g].spec;
    if spec.system.None? {
      inner := [];
      NothingReported(files, inside.diagnostics, g, inside.stack, inside.loaded, []);
      assert inside.diagnostics + [] == inside.diagnostics && inside.parses + [] == inside.parses;
    } else {
      OwnScopeIs(files, g);
      assert g in ToSet(inside.stack);
      inner := IncludesReports(files, inside, g, spec.includes, spec.system.value.(members := NO_MEMBERS));
    }
  }

  /** The includes `todo` of the file on top of the stack. */
  lemma IncludesReports(files: Files, w: Walker, p: FileId, todo: seq<FileId>, target: System)
    returns (trace: seq<Event>)
    requires p in files && w.stack != [] && w.stack[|w.stack| - 1] == p && ToSet(w.stack) <= w.loaded
    requires ScopeFrom(files, target.tenantScope, w.loaded)
    ensures var (after, system) := LoadIncludes(files, w, files[p].spec.version, todo, target);
      StepTold(files, w, after, system, trace)
    ensures Reports(files, w.diagnostics, trace, p, todo, w.stack, w.loaded, todo)
    decreases |files.Keys - w.loaded|, |todo| + 1
  {
    hide Reports, Load, Opened, StepTold;
    if todo == [] {
      trace := [];
      NothingReported(files, w.diagnostics, p, w.stack, w.loaded, []);
      NoStepTold(files, w, target);
    } else {
      var first, next, merged := IncludeReports(files, w, p, todo, target);
      hide LoadIncludes;
      StepGrows(files, w, next, merged, first);
      CardinalityMonotone(files.Keys - next.loaded, files.Keys - w.loaded);
      var rest := IncludesReports(files, next, p, todo[1..], merged);
      trace := first + rest;
      var (after, system) := LoadIncludes(files, w, files[p].spec.version, todo, target);
      StepsTold(files, w, next, after, merged, system, first, rest);
      assert todo == [todo[0]] + todo[1..];
      RootsMore(files, w.diagnostics, first, p, [todo[0]], w.stack, w.loaded, [todo[0]], todo);
      RootsMore(files, next.diagnostics, rest, p, todo[1..], w.stack, next.loaded, todo[1..], todo);
      assert p in ToSet(w.stack);
      ReportsConcat(files, w.diagnostics, first, rest, p, [todo[0]], todo[1..], w.stack, w.loaded, todo);
    }
  }

  /** How the outcome of some of the includes of a file is told. */
  ghost predicate StepTold(files: Files, w: Walker, after: Walker, system: System, trace: seq<Event>) {
    && after.stack == w.stack
    && after.diagnostics == w.diagnostics + Told(files, trace)
    && after.parses == w.parses + Parsed(trace)
    && after.loaded == w.loaded + ToSet(Parsed(trace))
    && ScopeFrom(files, system.tenantScope, after.loaded)
  }

  lemma NoStepTold(files: Files, w: Walker, target: System)
    requires ScopeFrom(files, target.tenantScope, w.loaded)
    ensures StepTold(files, w, w, target, [])
  {
    assert w.diagnostics + [] == w.diagnostics && w.parses + [] == w.parses;
  }

  lemma StepGrows(files: Files, w: Walker, next: Walker, system: System, trace: seq<Event>)
    requires StepTold(files, w, next, system, trace)
    ensures next.stack == w.stack && next.diagnostics == w.diagnostics + Told(files, trace)
    ensures next.loaded == w.loaded + ToSet(Parsed(trace)) && ScopeFrom(files, system.tenantScope, next.loaded)
  {
  }

  lemma StepsTold(
    files: Files, w: Walker, next: Walker, after: Walker, merged: System, system: System,
    first: seq<Event>, rest: seq<Event>)
    requires StepTold(files, w, next, merged, first) && StepTold(files, next, after, system, rest)
    ensures StepTold(files, w, after, system, first + rest)
  {
    ToldConcat(files, first, rest);
    ParsedConcat(first, rest);
    hide Told, Parsed, ScopeFrom;
    assert ToSet(Parsed(first) + Parsed(rest)) == ToSet(Parsed(first)) + ToSet(Parsed(rest));
  }

  lemma RootsMore(
    files: Files, before: seq<Diagnostic>, trace: seq<Event>, p: FileId, todo: seq<FileId>,
    stack: seq<FileId>, loaded: set<FileId>, roots: seq<FileId>, more: seq<FileId>)
    requires Reports(files, before, trace, p, todo, stack, loaded, roots) && forall f :: f in roots ==> f in more
    ensures Reports(files, before, trace, p, todo, stack, loaded, more)
  {
    hide OpenAt, ParsedAfresh, IncludesReported, IncludesParsed, FaultsJustified;
    forall j | 0 <= j < |trace| && trace[j].Parse? ensures StackAt(files, before, trace, j, stack, more) {
      assert StackAt(files, before, trace, j, stack, roots);
    }
  }

  /** The first of the includes to do, and where the walk goes on. */
  lemma IncludeReports(files: Files, w: Walker, p: FileId, todo: seq<FileId>, target: System)
    returns (trace: seq<Event>, next: Walker, merged: System)
    requires p in files && w.stack != [] && w.stack[|w.stack| - 1] == p && ToSet(w.stack) <= w.loaded
    requires todo != [] && ScopeFrom(files, target.tenantScope, w.loaded)
    ensures var version := files[p].spec.version;
      LoadIncludes(files, w, version, todo, target) == LoadIncludes(files, next, version, todo[1..], merged)
    ensures StepTold(files, w, next, merged, trace)
    ensures Reports(files, w.diagnostics, trace, p, [todo[0]], w.stack, w.loaded, [todo[0]])
    decreases |files.Keys - w.loaded|, |todo|
  {
    hide Reports, Load, StepTold, LoadTold;
    var g := todo[0];
    if g !in files || g in w.stack {
      var code := if g !in files then "SSPEC5001" else "SSPEC5002";
      trace, next, merged := [Fault(code, g, p)], Reported(w, code, g), target;
      FaultReported(files, w.diagnostics, code, g, p, w.stack, w.loaded, [g]);
      FaultTold(files, w, code, g, p, target);
    } else {
      hide LoadIncludes;
      assert p in ToSet(w.stack) && p in w.stack;
      trace := LoadReports(files, w, g, p);
      var (after, included) := Load(files, w, g);
      IncludedTold(files, w, g, after, included, target, trace);
      LoadedInclude(files, w.diagnostics, trace, p, g, w.stack, w.loaded);
      AfterInclude(files, w, p, todo, target);
      if HasErrors(after.diagnostics) {
        next, merged := after, target;
      } else {
        var version := !Compatible(files[p].spec.version, included.version);
        var scope := included.system.Some? && ScopesConflict(target, included.system.value);
        ClashesReported(files, w.diagnostics, trace, version, scope, g, p, [g], w.stack, w.loaded, [g]);
        next, merged := AfterClashes(after, version, scope, g), MergedWith(target, included.system);
        ClashesTold(files, w, after, target, merged, trace, version, scope, g, p);
        trace := trace + Clashes(version, scope, g, p);
      }
    }
  }

  lemma FaultTold(files: Files, w: Walker, code: string, g: FileId, p: FileId, target: System)
    requires ScopeFrom(files, target.tenantScope, w.loaded)
    ensures StepTold(files, w, Reported(w, code, g), target, [Fault(code, g, p)])
  {
    OneFault(files, code, g, p);
    assert w.parses + [] == w.parses;
  }

  /** What an included file brings: the walker goes on with its scope merged, or it clashes. */
  lemma IncludedTold(
    files: Files, w: Walker, g: FileId, after: Walker, included: Spec, target: System, trace: seq<Event>)
    requires LoadTold(files, w, g, after, included, trace) && after.stack == w.stack
    requires ScopeFrom(files, target.tenantScope, w.loaded)
    ensures g in w.loaded || g in Parsed(trace)
    ensures after.diagnostics == w.diagnostics + Told(files, trace) && after.loaded == w.loaded + ToSet(Parsed(trace))
    ensures StepTold(files, w, after, target, trace)
    ensures StepTold(files, w, after, MergedWith(target, included.system), trace)
    ensures included.version.Some? ==> included.version == files[g].spec.version && Parse(g, w.stack + [g]) in trace
    ensures included.system.Some? && ScopesConflict(target, included.system.value) ==>
      ScopesDiffer(files, w.loaded + ToSet(Parsed(trace)))
  {
    hide Told, Parsed;
    assert ScopeFrom(files, target.tenantScope, after.loaded);
    if included.system.Some? && ScopesConflict(target, included.system.value) {
      KnownScopesDiffer(files, target.tenantScope, included.system.value.tenantScope, after.loaded);
    }
  }

  lemma ClashesTold(
    files: Files, w: Walker, after: Walker, target: System, merged: System, first: seq<Event>,
    version: bool, scope: bool, g: FileId, p: FileId)
    requires StepTold(files, w, after, merged, first)
    ensures StepTold(files, w, AfterClashes(after, version, scope, g), merged, first + Clashes(version, scope, g, p))
  {
    ToldOfClashes(files, first, version, scope, g, p);
    hide Told, Parsed, ScopeFrom, Clashes;
    assert forall x: seq<Diagnostic> :: x + [] == x;
  }

  function AfterClashes(after: Walker, version: bool, scope: bool, g: FileId): Walker {
    after.(diagnostics := after.diagnostics
      + (if version then [Diagnostic(Error, "SSPEC5003", g)] else [])
      + (if scope then [Diagnostic(Error, "SSPEC5004", g)] else []))
  }

  function MergedWith(target: System, source: Option<System>): System {
    if source.None? then target
    else
      var merged := MergeLevel(target, source.value);
      merged.(members := Append(merged.members, source.value.members))
  }

  /** Where the walk goes on once an include has been loaded. */
  lemma AfterInclude(files: Files, w: Walker, p: FileId, todo: seq<FileId>, target: System)
    requires p in files && todo != [] && todo[0] in files && todo[0] !in w.stack
    ensures var (after, included) := Load(files, w, todo[0]);
      var version := files[p].spec.version;
      var clash := included.system.Some? && ScopesConflict(target, included.system.value);
      LoadIncludes(files, w, version, todo, target) ==
        if HasErrors(after.diagnostics) then LoadIncludes(files, after, version, todo[1..], target)
        else
          LoadIncludes(
            files, AfterClashes(after, !Compatible(version, included.version), clash, todo[0]), version, todo[1..],
            MergedWith(target, included.system))
  {
    hide Load, HasErrors, ScopesConflict, Compatible, MergeLevel, Append;
    var (after, included) := Load(files, w, todo[0]);
    assert after.diagnostics + [] + [] == after.diagnostics;
    assert forall d :: after.diagnostics + [] + [d] == after.diagnostics + [d];
    assert forall d :: after.diagnostics + [d] + [] == after.diagnostics + [d];
  }

  lemma OneFault(files: Files, code: string, g: FileId, p: FileId)
    ensures Told(files, [Fault(code, g, p)]) == [Diagnostic(Error, code, g)] && Parsed([Fault(code, g, p)]) == []
  {
    assert [Fault(code, g, p)][1..] == [];
  }

  lemma ToldOfClashes(files: Files, first: seq<Event>, version: bool, scope: bool, g: FileId, p: FileId)
    ensures var clashes := Clashes(version, scope, g, p);
      && Told(files, first + clashes) == Told(files, first)
           + (if version then [Diagnostic(Error, "SSPEC5003", g)] else [])
           + (if scope then [Diagnostic(Error, "SSPEC5004", g)] else [])
      && Parsed(first + clashes) == Parsed(first)
  {
    var a: seq<Event> := if version then [Fault("SSPEC5003", g, p)] else [];
    var b: seq<Event> := if scope then [Fault("SSPEC5004", g, p)] else [];
    OneFault(files, "SSPEC5003", g, p);
    OneFault(files, "SSPEC5004", g, p);
    ToldConcat(files, a, b);
    ParsedConcat(a, b);
    ToldConcat(files, first, a + b);
    ParsedConcat(first, a + b);
    assert Parsed(first) + [] == Parsed(first);
  }

  /** An include that is parsed now or before, and neither missing nor stacked, has no faults of those kinds. */
  lemma LoadedInclude(
    files: Files, before: seq<Diagnostic>, trace: seq<Event>, p: FileId, g: FileId, stack: seq<FileId>,
    loaded: set<FileId>)
    requires Reports(files, before, trace, p, [], stack, loaded, [g])
    requires g in files && g !in stack && (g in loaded || g in Parsed(trace))
    ensures Reports(files, before, trace, p, [g], stack, loaded, [g])
  {
    hide OpenAt, IsOpened, StackAt, FaultAt, FaultsBy, Parsed;
    assert [g][1..] == [];
    assert Missing(files, [g]) == [] && Stacked(files, [g], stack) == [];
    assert forall q, st :: FaultsOf(files, trace, q, [], st) ==> Stacked(files, [], st) == [];
  }

  lemma KnownScopesDiffer(files: Files, a: Option<string>, b: Option<string>, known: set<FileId>)
    requires ScopeFrom(files, a, known) && ScopeFrom(files, b, known) && !Compatible(a, b)
    ensures ScopesDiffer(files, known)
  {
    var x :| x in known && OwnScope(files, x) == a;
    var y :| y in known && OwnScope(files, y) == b;
  }

  // ------------------------------------------------------------------------------ the whole walk

  /**
   The diagnostics of a composition: those of the parsed files in order of parsing, among them one
   error for each missing or stacked include of each opened file, and errors for clashes where
   nothing had failed before.
   */
  lemma WalkReports(files: Files, root: FileId) returns (trace: seq<Event>)
    ensures var w := Load(files, FRESH, root).0;
      if root !in files then w.diagnostics == [Diagnostic(Error, "SSPEC5001", root)] && w.parses == []
      else
        && w.diagnostics == Told(files, trace) && w.parses == Parsed(trace)
        && Reports(files, [], trace, root, [], [], {}, [root])
        && |trace| > 0 && trace[0] == Parse(root, [root])
  {
    if root in files {
      var other := root + "'";
      trace := LoadReports(files, FRESH, root, other);
      hide Load;
      RootIsFirst(files, trace, root);
      AnyIncluder(files, trace, other, root);
      assert [] + Told(files, trace) == Told(files, trace) && [] + Parsed(trace) == Parsed(trace);
    } else {
      trace := [];
    }
  }

  lemma AnyIncluder(files: Files, trace: seq<Event>, p: FileId, root: FileId)
    requires Reports(files, [], trace, p, [], [], {}, [root])
    ensures Reports(files, [], trace, root, [], [], {}, [root])
  {
    hide OpenAt, IsOpened, FaultsOf, StackAt, FaultAt;
    assert forall j :: 0 <= j < |trace| && trace[j].Fault? && PlacedAt(files, [], trace, j, p, []) ==>
      PlacedAt(files, [], trace, j, root, []);
    assert forall q :: Due(q, p, []) == Due(q, root, []) == [];
  }

  lemma {:induction false} InParsedAt(trace: seq<Event>, f: FileId) returns (i: nat)
    requires f in Parsed(trace)
    ensures i < |trace| && trace[i].Parse? && trace[i].file == f
  {
    if trace[0].Parse? && trace[0].file == f {
      i := 0;
    } else {
      i := InParsedAt(trace[1..], f);
      i := i + 1;
    }
  }

  lemma {:induction false} RootIsFirst(files: Files, trace: seq<Event>, root: FileId)
    requires root in Parsed(trace) && StacksFollow(files, [], trace, [], [root])
    requires FaultsPlaced(files, [], trace, root + "'", [])
    ensures |trace| > 0 && trace[0] == Parse(root, [root])
  {
    var i := InParsedAt(trace, root);
    FirstIsParse(files, trace, root + "'");
    if trace[0].Parse? {
      assert StackAt(files, [], trace, 0, [], [root]);
      var st := trace[0].stack;
      assert st == st[..|st| - 1] + [st[|st| - 1]];
    }
  }

  lemma FirstIsParse(files: Files, trace: seq<Event>, p: FileId)
    requires trace != [] && FaultsPlaced(files, [], trace, p, [])
    ensures trace[0].Parse?
  {
  }

  // ---------------------------------------------------------------------------- clashes reported

  /** Each file is parsed on a stack of followed includes from the root. */
  lemma {:induction false} StackIsWalk(files: Files, trace: seq<Event>, root: FileId, j: nat)
    requires StacksFollow(files, [], trace, [], [root]) && j < |trace| && trace[j].Parse?
    ensures WalkBetween(files, trace[j].stack, root, trace[j].file)
    decreases j
  {
    hide OpenAt, Follow;
    assert StackAt(files, [], trace, j, [], [root]);
    var st, file := trace[j].stack, trace[j].file;
    var parents := st[..|st| - 1];
    assert st == parents + [file];
    if parents != [] || file != root {
      var i, q :| i < j && OpenAt(files, [], trace, i, q, parents) && file in Follow(files, q);
      ParseAt(files, [], trace, i, q, parents);
      StackIsWalk(files, trace, root, i);
      forall n | 0 <= n < |st| - 1 ensures st[n + 1] in Follow(files, st[n]) {
        if n < |parents| - 1 { assert parents[n + 1] in Follow(files, parents[n]); }
      }
    }
  }

  lemma ParseAt(files: Files, before: seq<Diagnostic>, trace: seq<Event>, i: int, q: FileId, st: seq<FileId>)
    requires OpenAt(files, before, trace, i, q, st)
    ensures 0 <= i < |trace| && trace[i] == Parse(q, st)
  {
  }

  lemma {:induction false} InFaultsBy(trace: seq<Event>, j: nat)
    requires j < |trace| && trace[j].Fault?
    ensures trace[j].at in FaultsBy(trace, trace[j].code, trace[j].includer)
  {
    if j > 0 { InFaultsBy(trace[1..], j - 1); }
  }

  lemma {:induction false} InMissing(files: Files, includes: seq<FileId>, stack: seq<FileId>, g: FileId)
    ensures g in Missing(files, includes) ==> g in includes && g !in files
    ensures g in Stacked(files, includes, stack) ==> g in includes && g in stack
  {
    if includes != [] { InMissing(files, includes[1..], stack, g); }
  }

  /** Where all reachable files parse cleanly and none includes its way back, all faults are clashes. */
  lemma FaultsAreClashes(files: Files, trace: seq<Event>, root: FileId, j: nat)
    requires Reports(files, [], trace, root, [], [], {}, [root]) && j < |trace| && trace[j].Fault?
    requires (forall f :: Reaches(files, root, f) ==> ParsesCleanly(files, f)) && !HasCycle(files, root)
    ensures trace[j].code in {"SSPEC5003", "SSPEC5004"}
  {
    var (g, q, code) := (trace[j].at, trace[j].includer, trace[j].code);
    assert FaultAt(files, [], trace, j, {}) && PlacedAt(files, [], trace, j, root, []);
    hide Reaches, HasCycle, ParsesCleanly, StackAt, AllParsed, FaultAt, FaultsJustified, IncludesParsed, ParsedAfresh;
    if code in {"SSPEC5001", "SSPEC5002"} {
      var i, st :| i < j && OpenAt(files, [], trace, i, q, st);
      ParseAt(files, [], trace, i, q, st);
      StackIsWalk(files, trace, root, i);
      InFaultsBy(trace, j);
      assert FaultsOf(files, trace, q, Follow(files, q), st);
      InMissing(files, Follow(files, q), st, g);
      NoSuchInclude(files, root, st, q, g);
    }
  }

  /** Then no include of a file is missing, and none is on the way to it. */
  lemma NoSuchInclude(files: Files, root: FileId, stack: seq<FileId>, q: FileId, g: FileId)
    requires WalkBetween(files, stack, root, q)
    requires (forall f :: Reaches(files, root, f) ==> ParsesCleanly(files, f)) && !HasCycle(files, root)
    ensures g in Follow(files, q) ==> g in files && g !in stack
  {
    if g in Follow(files, q) {
      ReachesStep(files, root, q, g);
      assert ParsesCleanly(files, g);
      if n :| 0 <= n < |stack| && stack[n] == g {
        assert WalkBetween(files, stack[n..], g, q);
      }
    }
  }

  ghost predicate HasError(diagnostics: seq<Diagnostic>, code: string) {
    exists d :: d in diagnostics && d.severity.Error? && d.code == code
  }

  /** Every error told is that of a fault, if the parsed files have none. */
  lemma {:induction false} ErrorsAreFaults(files: Files, trace: seq<Event>, d: Diagnostic) returns (j: nat)
    requires d in Told(files, trace) && d.severity.Error?
    requires forall f :: f in Parsed(trace) ==> ParsesCleanly(files, f)
    ensures j < |trace| && trace[j].Fault? && d == Diagnostic(Error, trace[j].code, trace[j].at)
  {
    if d in Says(files, trace[0]) {
      assert trace[0].Parse? ==> trace[0].file in Parsed(trace);
      j := 0;
    } else {
      assert forall f :: f in Parsed(trace[1..]) ==> f in Parsed(trace);
      j := ErrorsAreFaults(files, trace[1..], d);
      j := j + 1;
    }
  }

  lemma ParsedCleanly(files: Files, trace: seq<Event>, root: FileId)
    requires StacksFollow(files, [], trace, [], [root])
    ensures forall f :: f in Parsed(trace) ==> Reaches(files, root, f)
  {
    forall f | f in Parsed(trace) ensures Reaches(files, root, f) {
      var i := InParsedAt(trace, f);
      StackIsWalk(files, trace, root, i);
    }
  }

  /**
   If every reachable file parses cleanly and none includes its way back, only clashes are reported:
   a version clash exactly if versions disagree along an edge that first enters a file, provided the
   scopes agree, and a scope clash exactly if scopes differ, provided the versions agree.
   */
  lemma ClashIsReported(files: Files, root: FileId)
    requires (forall f :: Reaches(files, root, f) ==> ParsesCleanly(files, f)) && !HasCycle(files, root)
    ensures var told := Load(files, FRESH, root).0.diagnostics;
      && (forall d :: d in told && d.severity.Error? ==> d.code in {"SSPEC5003", "SSPEC5004"})
      && (ScopesAllAgree(files, root) ==>
            (HasError(told, "SSPEC5003") <==> exists e :: e in TreeEdges(files, root) && !VersionsAgree(files, e)))
      && (VersionsCompatible(files, root) ==> (HasError(told, "SSPEC5004") <==> !ScopesAllAgree(files, root)))
      && !(ScopesAllAgree(files, root) && HasError(told, "SSPEC5004"))
      && !(VersionsCompatible(files, root) && HasError(told, "SSPEC5003"))
  {
    var told := Load(files, FRESH, root).0.diagnostics;
    ReachesSelf(files, root);
    var trace := WalkReports(files, root);
    ParsedCleanly(files, trace, root);
    SucceedsIff(files, root);
    hide Reaches, HasCycle, ParsesCleanly, Load, Reports, Compatible, OwnScope;
    forall d | d in told && d.severity.Error?
      ensures d.code in {"SSPEC5003", "SSPEC5004"}
      ensures d.code == "SSPEC5003" ==> !VersionsCompatible(files, root)
      ensures d.code == "SSPEC5004" ==> !ScopesAllAgree(files, root)
    {
      var j := ErrorsAreFaults(files, trace, d);
      FaultsAreClashes(files, trace, root, j);
      ClashMeans(files, trace, root, j);
    }
    if HasErrors(told) {
      var i :| 0 <= i < |told| && told[i].severity.Error?;
      assert told[i] in told;
    }
    if d :| d in told && d.severity.Error? {
      var i :| 0 <= i < |told| && told[i] == d;
    }
    if VersionsCompatible(files, root) { TreeIsCompatible(files, root); }
  }

  lemma VersionClashMeans(files: Files, trace: seq<Event>, root: FileId, j: nat)
    requires StacksFollow(files, [], trace, [], [root]) && j < |trace| && trace[j].Fault?
    requires VersionClash(files, [], trace, j)
    ensures !VersionsCompatible(files, root)
  {
    hide StacksFollow, HasErrors, Told, Compatible, Reaches, WalkBetween;
    var (g, q) := (trace[j].at, trace[j].includer);
    var i :| 0 <= i < j && trace[i].Parse? && trace[i].file == g && EndsIn(trace[i].stack, q, g);
    StackIsWalk(files, trace, root, i);
    WalkToIncluder(files, trace[i].stack, root, q, g);
    assert !VersionsAgree(files, (q, g));
  }

  lemma WalkToIncluder(files: Files, stack: seq<FileId>, root: FileId, q: FileId, g: FileId)
    requires WalkBetween(files, stack, root, g) && EndsIn(stack, q, g)
    ensures Reaches(files, root, q) && Reaches(files, root, g)
  {
    assert WalkBetween(files, stack[..|stack| - 1], root, q);
  }

  lemma ScopeClashMeans(files: Files, trace: seq<Event>, root: FileId, j: nat)
    requires (forall f :: f in Parsed(trace) ==> Reaches(files, root, f)) && j < |trace| && trace[j].Fault?
    requires ScopeClash(files, [], trace, j, {})
    ensures !ScopesAllAgree(files, root)
  {
    hide HasErrors, Told, Compatible, OwnScope, Reaches, Parsed, ToSet;
    var known := {} + ToSet(Parsed(trace[..j]));
    assert ScopesDiffer(files, known);
    var x, y :| x in known && y in known && !Compatible(OwnScope(files, x), OwnScope(files, y));
    ParsedBefore(trace, j, x);
    ParsedBefore(trace, j, y);
  }

  lemma ParsedBefore(trace: seq<Event>, j: nat, f: FileId)
    requires j <= |trace| && f in ToSet(Parsed(trace[..j]))
    ensures f in Parsed(trace)
  {
    assert trace == trace[..j] + trace[j..];
    ParsedConcat(trace[..j], trace[j..]);
  }

  lemma ClashMeans(files: Files, trace: seq<Event>, root: FileId, j: nat)
    requires Reports(files, [], trace, root, [], [], {}, [root]) && j < |trace| && trace[j].Fault?
    ensures trace[j].code == "SSPEC5003" ==> !VersionsCompatible(files, root)
    ensures trace[j].code == "SSPEC5004" ==> !ScopesAllAgree(files, root)
  {
    ParsedCleanly(files, trace, root);
    assert FaultAt(files, [], trace, j, {});
    hide VersionsCompatible, ScopesAllAgree, VersionClash, ScopeClash;
    if trace[j].code == "SSPEC5003" { VersionClashMeans(files, trace, root, j); }
    if trace[j].code == "SSPEC5004" { ScopeClashMeans(files, trace, root, j); }
  }

  lemma TreeIsCompatible(files: Files, root: FileId)
    requires root in files && VersionsCompatible(files, root)
    ensures forall e :: e in TreeEdges(files, root) ==> VersionsAgree(files, e)
  {
    var v := Enter(files, root, {}, {});
    EnterIsTree(files, root, {}, {});
    EnterSound(files, root, {}, {});
    forall f | f in v.pre ensures Reaches(files, root, f) {
      assert f in ToSet(v.pre) && f in v.post;
    }
    forall e | e in v.tree ensures VersionsAgree(files, e) {
      var i :| 0 <= i < |v.tree| && v.tree[i] == e;
      assert v.tree[i].1 in v.pre && v.tree[i].0 in v.pre[..i + 1] && e.0 in v.pre;
      assert VersionsAgree(files, (e.0, e.1));
    }
  }

  ghost predicate ScopesAllAgree(files: Files, root: FileId) {
    forall f, g :: Reaches(files, root, f) && Reaches(files, root, g) ==>
      Compatible(OwnScope(files, f), OwnScope(files, g))
  }

  ghost predicate VersionsCompatible(files: Files, root: FileId) {
    forall f, g :: Reaches(files, root, f) && Reaches(files, root, g) ==> VersionsAgree(files, (f, g))
  }
}
