/** Parsed specification files, by canonical path, and the include graph between them. */
module SpecFiles {
  import opened Options

  type FileId = string
  type Decl = string

  /** The sixteen lists of declarations of a system block. */
  datatype Members = Members(
    values: seq<Decl>, enums: seq<Decl>, events: seq<Decl>, shapes: seq<Decl>,
    externalSystems: seq<Decl>, featureFlags: seq<Decl>, logs: seq<Decl>, metrics: seq<Decl>,
    entities: seq<Decl>, queues: seq<Decl>, leases: seq<Decl>, workers: seq<Decl>,
    apiServers: seq<Decl>, apis: seq<Decl>, workflows: seq<Decl>, policies: seq<Decl>)

  datatype Kind =
    | Value | Enum | Event | Shape | ExternalSystem | FeatureFlag | Log | Metric
    | Entity | Queue | Lease | Worker | ApiServer | Api | Workflow | Policy

  function Get(m: Members, k: Kind): seq<Decl> {
    match k
    case Value => m.values
    case Enum => m.enums
    case Event => m.events
    case Shape => m.shapes
    case ExternalSystem => m.externalSystems
    case FeatureFlag => m.featureFlags
    case Log => m.logs
    case Metric => m.metrics
    case Entity => m.entities
    case Queue => m.queues
    case Lease => m.leases
    case Worker => m.workers
    case ApiServer => m.apiServers
    case Api => m.apis
    case Workflow => m.workflows
    case Policy => m.policies
  }

  const NO_MEMBERS := Members([], [], [], [], [], [], [], [], [], [], [], [], [], [], [], [])

  datatype System = System(
    name: string, tenantScope: Option<string>, systemTenant: Option<string>, members: Members)

  datatype Spec = Spec(version: Option<string>, includes: seq<FileId>, system: Option<System>)

  const EMPTY_SPEC := Spec(None, [], None)

  datatype Severity = Info | Warning | Error
  datatype Diagnostic = Diagnostic(severity: Severity, code: string, at: FileId)

  predicate HasErrors(diagnostics: seq<Diagnostic>) {
    exists i :: 0 <= i < |diagnostics| && diagnostics[i].severity.Error?
  }

  /** What parsing one file gives: a specification and the diagnostics it reports. */
  datatype Parsed = Parsed(spec: Spec, diagnostics: seq<Diagnostic>)
  type Files = map<FileId, Parsed>

  lemma ErrorsOfConcat(a: seq<Diagnostic>, b: seq<Diagnostic>)
    ensures HasErrors(a + b) <==> HasErrors(a) || HasErrors(b)
  {
    if HasErrors(a) {
      var i :| 0 <= i < |a| && a[i].severity.Error?;
      assert (a + b)[i].severity.Error?;
    }
    if HasErrors(b) {
      var i :| 0 <= i < |b| && b[i].severity.Error?;
      assert (a + b)[|a| + i].severity.Error?;
    }
  }

  /** The includes that composition follows: those of a file that declares a system. */
  function Follow(files: Files, f: FileId): seq<FileId> {
    if f in files && files[f].spec.system.Some? then files[f].spec.includes else []
  }

  // ---------------------------------------------------------------- walks in the include graph

  ghost predicate Walk(files: Files, p: seq<FileId>) {
    |p| > 0 && forall i :: 0 <= i < |p| - 1 ==> p[i + 1] in Follow(files, p[i])
  }

  ghost predicate WalkBetween(files: Files, p: seq<FileId>, a: FileId, b: FileId) {
    Walk(files, p) && p[0] == a && p[|p| - 1] == b
  }

  ghost predicate Reaches(files: Files, a: FileId, b: FileId) {
    exists p :: WalkBetween(files, p, a, b)
  }

  /** Some file reachable from the root includes its way back to itself. */
  ghost predicate HasCycle(files: Files, root: FileId) {
    exists f, g :: Reaches(files, root, f) && g in Follow(files, f) && Reaches(files, g, f)
  }

  lemma ReachesSelf(files: Files, a: FileId)
    ensures Reaches(files, a, a)
  {
    assert WalkBetween(files, [a], a, a);
  }

  lemma ReachesStep(files: Files, a: FileId, b: FileId, c: FileId)
    requires Reaches(files, a, b) && c in Follow(files, b)
    ensures Reaches(files, a, c)
  {
    var p :| WalkBetween(files, p, a, b);
    assert WalkBetween(files, p + [c], a, c);
  }

  lemma ReachesTrans(files: Files, a: FileId, b: FileId, c: FileId)
    requires Reaches(files, a, b) && Reaches(files, b, c)
    ensures Reaches(files, a, c)
  {
    var p :| WalkBetween(files, p, a, b);
    var q :| WalkBetween(files, q, b, c);
    assert WalkBetween(files, p + q[1..], a, c) by {
      var w := p + q[1..];
      forall i | 0 <= i < |w| - 1 ensures w[i + 1] in Follow(files, w[i]) {
        if i >= |p| - 1 {
          assert w[i] == q[i - |p| + 1] && w[i + 1] == q[i - |p| + 2];
        }
      }
    }
  }

  // ------------------------------------------------------------------------ depth-first search

  /**
   A depth-first search of the include graph: files in order of entry and of exit, the edges by
   which files were first entered, and the edges that lead back to a file still being visited.
   */
  datatype Visit = Visit(
    pre: seq<FileId>, post: seq<FileId>, tree: seq<(FileId, FileId)>, back: seq<(FileId, FileId)>)

  function ToSet<T>(s: seq<T>): set<T> { set x | x in s }

  function Enter(files: Files, f: FileId, grey: set<FileId>, seen: set<FileId>): (v: Visit)
    requires f in files && f !in seen
    decreases |files.Keys - seen|, 0
  {
    assert files.Keys - seen == files.Keys - (seen + {f}) + {f};
    var v := Descend(files, f, Follow(files, f), grey + {f}, seen + {f});
    Visit([f] + v.pre, v.post + [f], v.tree, v.back)
  }

  function Descend(files: Files, from: FileId, todo: seq<FileId>, grey: set<FileId>, seen: set<FileId>): (v: Visit)
    decreases |files.Keys - seen|, |todo| + 1
  {
    if todo == [] then Visit([], [], [], [])
    else if todo[0] in grey then
      var rest := Descend(files, from, todo[1..], grey, seen);
      rest.(back := [(from, todo[0])] + rest.back)
    else if todo[0] in seen || todo[0] !in files then
      Descend(files, from, todo[1..], grey, seen)
    else
      var sub := Enter(files, todo[0], grey, seen);
      CardinalityMonotone(files.Keys - (seen + ToSet(sub.post)), files.Keys - seen);
      var rest := Descend(files, from, todo[1..], grey, seen + ToSet(sub.post));
      Visit(sub.pre + rest.pre, sub.post + rest.post,
            [(from, todo[0])] + sub.tree + rest.tree, sub.back + rest.back)
  }

  lemma CardinalityMonotone<T>(a: set<T>, b: set<T>)
    requires a <= b
    ensures |a| <= |b|
  {
    assert b == a + (b - a);
  }

  ghost predicate NoDuplicates<T>(s: seq<T>) {
    forall i, j :: 0 <= i < j < |s| ==> s[i] != s[j]
  }
}
