/** Include composition: the recursive walk that gathers the declarations of every included file. */
module Composition {
  import opened Options
  import opened SpecFiles
  import opened IncludeGraph

  const MISSING_FILE := "SSPEC5001"
  const INCLUDE_CYCLE := "SSPEC5002"
  const VERSION_MISMATCH := "SSPEC5003"
  const TENANT_CONFLICT := "SSPEC5004"

  /** What a walk carries along; `parses` logs the files handed to the parser. */
  datatype Walker = Walker(
    diagnostics: seq<Diagnostic>, stack: seq<FileId>, loaded: set<FileId>, parses: seq<FileId>)
  {
    function Report(code: string, at: FileId): Walker {
      this.(diagnostics := diagnostics + [Diagnostic(Error, code, at)])
    }
  }

  function Append(target: Members, source: Members): Members {
    target.(
      featureFlags := target.featureFlags + source.featureFlags,
      values := target.values + source.values,
      enums := target.enums + source.enums,
      events := target.events + source.events,
      shapes := target.shapes + source.shapes,
      externalSystems := target.externalSystems + source.externalSystems,
      logs := target.logs + source.logs,
      metrics := target.metrics + source.metrics,
      entities := target.entities + source.entities,
      queues := target.queues + source.queues,
      leases := target.leases + source.leases,
      workers := target.workers + source.workers,
      apiServers := target.apiServers + source.apiServers,
      apis := target.apis + source.apis,
      workflows := target.workflows + source.workflows,
      policies := target.policies + source.policies)
  }

  predicate ScopesConflict(target: System, source: System) {
    source.tenantScope.Some? && target.tenantScope.Some? && source.tenantScope != target.tenantScope
  }

  function MergeLevel(target: System, source: System): System {
    target.(
      tenantScope := if target.tenantScope.None? then source.tenantScope else target.tenantScope,
      systemTenant := if target.systemTenant.None? then source.systemTenant else target.systemTenant)
  }

  predicate Compatible(a: Option<string>, b: Option<string>) {
    a.None? || b.None? || a == b
  }

  /** The walk from one file, as a function of the walker it starts with. */
  function Load(files: Files, w: Walker, path: FileId): (r: (Walker, Spec))
    ensures r.0.stack == w.stack && w.loaded <= r.0.loaded
    ensures HasErrors(w.diagnostics) ==> HasErrors(r.0.diagnostics)
    decreases |files.Keys - w.loaded|, 0
  {
    if path in w.stack then (Reported(w, INCLUDE_CYCLE, path), EMPTY_SPEC)
    else if path !in files then (Reported(w, MISSING_FILE, path), EMPTY_SPEC)
    else if path in w.loaded then (w, EMPTY_SPEC)
    else
      var spec := files[path].spec;
      ErrorsOfConcat(w.diagnostics, files[path].diagnostics);
      var inside := Walker(w.diagnostics + files[path].diagnostics, w.stack + [path],
                           w.loaded + {path}, w.parses + [path]);
      if HasErrors(inside.diagnostics) then
        (inside.(stack := w.stack), spec)
      else
        assert files.Keys - w.loaded == files.Keys - inside.loaded + {path};
        var (after, composed) := Opened(files, inside, spec);
        (after.(stack := w.stack), composed)
  }

  /** What is made of a file parsed without errors: its includes' declarations and then its own. */
  function Opened(files: Files, inside: Walker, spec: Spec): (r: (Walker, Spec))
    ensures r.0.stack == inside.stack && inside.loaded <= r.0.loaded
    ensures HasErrors(inside.diagnostics) ==> HasErrors(r.0.diagnostics)
    decreases |files.Keys - inside.loaded|, |spec.includes| + 2
  {
    if spec.system.None? then (inside, spec.(includes := []))
    else
      var (after, composed) :=
        LoadIncludes(files, inside, spec.version, spec.includes, spec.system.value.(members := NO_MEMBERS));
      var system := composed.(members := Append(composed.members, spec.system.value.members));
      (after, Spec(spec.version, [], Some(system)))
  }

  function Reported(w: Walker, code: string, at: FileId): (r: Walker)
    ensures HasErrors(r.diagnostics)
    ensures r == w.(diagnostics := r.diagnostics)
  {
    assert w.Report(code, at).diagnostics[|w.diagnostics|].severity.Error?;
    w.Report(code, at)
  }

  /** The walk over the includes of a file, gathering into `target`. */
  function LoadIncludes(
    files: Files, w: Walker, version: Option<string>, todo: seq<FileId>, target: System): (r: (Walker, System))
    ensures r.0.stack == w.stack && w.loaded <= r.0.loaded
    ensures HasErrors(w.diagnostics) ==> HasErrors(r.0.diagnostics)
    decreases |files.Keys - w.loaded|, |todo| + 1
  {
    if todo == [] then (w, target)
    else if todo[0] !in files then
      LoadIncludes(files, Reported(w, MISSING_FILE, todo[0]), version, todo[1..], target)
    else if todo[0] in w.stack then
      LoadIncludes(files, Reported(w, INCLUDE_CYCLE, todo[0]), version, todo[1..], target)
    else
      var (after, included) := Load(files, w, todo[0]);
      CardinalityMonotone(files.Keys - after.loaded, files.Keys - w.loaded);
      if HasErrors(after.diagnostics) then
        LoadIncludes(files, after, version, todo[1..], target)
      else
        var checked := if Compatible(version, included.version) then after
                       else Reported(after, VERSION_MISMATCH, todo[0]);
        if included.system.None? then
          LoadIncludes(files, checked, version, todo[1..], target)
        else
          var merged := MergeLevel(target, included.system.value);
          LoadIncludes(
            files,
            if ScopesConflict(target, included.system.value)
              then Reported(checked, TENANT_CONFLICT, todo[0]) else checked,
            version, todo[1..],
            merged.(members := Append(merged.members, included.system.value.members)))
  }

  const FRESH := Walker([], [], {}, [])

  // -------------------------------------------------------- what an error-free walk amounts to

  function OwnList(files: Files, f: FileId, k: Kind): seq<Decl> {
    if f in files && files[f].spec.system.Some? then Get(files[f].spec.system.value.members, k) else []
  }

  /** The declarations of one kind of the files of `order`, one file after the other. */
  function Lists(files: Files, order: seq<FileId>, k: Kind): seq<Decl> {
    if order == [] then [] else OwnList(files, order[0], k) + Lists(files, order[1..], k)
  }

  function OwnScope(files: Files, f: FileId): Option<string> {
    if f in files && files[f].spec.system.Some? then files[f].spec.system.value.tenantScope else None
  }

  function OwnTenant(files: Files, f: FileId): Option<string> {
    if f in files && files[f].spec.system.Some? then files[f].spec.system.value.systemTenant else None
  }

  /** The first of the files of `order` to declare a scope (a tenant) gives it. */
  function FirstScope(files: Files, order: seq<FileId>): Option<string> {
    if order == [] then None
    else if OwnScope(files, order[0]).Some? then OwnScope(files, order[0])
    else FirstScope(files, order[1..])
  }

  function FirstTenant(files: Files, order: seq<FileId>): Option<string> {
    if order == [] then None
    else if OwnTenant(files, order[0]).Some? then OwnTenant(files, order[0])
    else FirstTenant(files, order[1..])
  }

  function Or(a: Option<string>, b: Option<string>): Option<string> {
    if a.Some? then a else b
  }

  /** The scopes declared by the files of `order` and the scope already there, if any, are one. */
  ghost predicate ScopesAgree(files: Files, order: seq<FileId>, already: Option<string>) {
    && (forall f :: f in order ==> Compatible(OwnScope(files, f), already))
    && (forall f, g :: f in order && g in order ==> Compatible(OwnScope(files, f), OwnScope(files, g)))
  }

  ghost predicate ParsesCleanly(files: Files, f: FileId) {
    f in files && !HasErrors(files[f].diagnostics)
  }

  ghost predicate VersionsAgree(files: Files, e: (FileId, FileId)) {
    e.0 in files && e.1 in files && Compatible(files[e.0].spec.version, files[e.1].spec.version)
  }

  /** Nothing met on a visit is an error: conditions on files, on edges and on what was seen. */
  ghost predicate Faultless(files: Files, v: Visit) {
    && (forall f :: f in v.post ==> ParsesCleanly(files, f))
    && (forall f, g :: f in v.post && g in Follow(files, f) ==> g in files)
    && v.back == []
    && (forall e :: e in v.tree ==> VersionsAgree(files, e))
  }

  lemma GetAppend(a: Members, b: Members, k: Kind)
    ensures Get(Append(a, b), k) == Get(a, k) + Get(b, k)
  {
  }

  lemma {:induction false} ListsConcat(files: Files, a: seq<FileId>, b: seq<FileId>, k: Kind)
    ensures Lists(files, a + b, k) == Lists(files, a, k) + Lists(files, b, k)
  {
    if a == [] {
      assert a + b == b;
    } else {
      assert (a + b)[1..] == a[1..] + b;
      ListsConcat(files, a[1..], b, k);
    }
  }

  lemma {:induction false} FirstConcat(files: Files, a: seq<FileId>, b: seq<FileId>)
    ensures FirstScope(files, a + b) == Or(FirstScope(files, a), FirstScope(files, b))
    ensures FirstTenant(files, a + b) == Or(FirstTenant(files, a), FirstTenant(files, b))
  {
    if a == [] {
      assert a + b == b;
    } else {
      assert (a + b)[1..] == a[1..] + b;
      FirstConcat(files, a[1..], b);
    }
  }

  lemma {:induction false} FirstScopeIsDeclared(files: Files, order: seq<FileId>)
    ensures FirstScope(files, order).Some? <==> exists f :: f in order && OwnScope(files, f).Some?
    ensures FirstScope(files, order).Some? ==>
      exists f :: f in order && OwnScope(files, f) == FirstScope(files, order)
  {
    if order != [] {
      FirstScopeIsDeclared(files, order[1..]);
      assert order[0] in order;
    }
  }

  /** `after` is `before` with the declarations of `post` added, and its gaps filled from `pre`. */
  ghost predicate Gathers(files: Files, before: System, after: System, pre: seq<FileId>, post: seq<FileId>) {
    && after.name == before.name
    && after.tenantScope == Or(before.tenantScope, FirstScope(files, pre))
    && after.systemTenant == Or(before.systemTenant, FirstTenant(files, pre))
    && forall k :: Get(after.members, k) == Get(before.members, k) + Lists(files, post, k)
  }

  /** What the walk over the file `path` yields when it reports nothing. */
  ghost predicate Yields(files: Files, path: FileId, spec: Spec, v: Visit) {
    && path in files
    && spec.version == files[path].spec.version
    && (spec.system.None? <==> files[path].spec.system.None?)
    && Gathers(files, System("", None, None, NO_MEMBERS),
               if spec.system.Some? then spec.system.value.(name := "") else System("", None, None, NO_MEMBERS),
               v.pre, v.post)
    && (spec.system.Some? ==> spec.system.value.name == files[path].spec.system.value.name)
  }

  /** A walker without errors whose stack and loaded files are the grey and the seen ones. */
  ghost predicate InStep(w: Walker, grey: set<FileId>, seen: set<FileId>) {
    !HasErrors(w.diagnostics) && ToSet(w.stack) == grey && w.loaded == seen && grey <= seen
  }

  lemma FaultlessConcat(files: Files, from: FileId, g: FileId, sub: Visit, rest: Visit)
    ensures Faultless(files, Visit(sub.pre + rest.pre, sub.post + rest.post,
                                   [(from, g)] + sub.tree + rest.tree, sub.back + rest.back))
      <==> Faultless(files, sub) && VersionsAgree(files, (from, g)) && Faultless(files, rest)
  {
    var tree := [(from, g)] + sub.tree + rest.tree;
    assert (from, g) in tree;
    assert forall e :: e in sub.tree ==> e in tree;
    assert forall e :: e in rest.tree ==> e in tree;
    assert forall f :: f in sub.post || f in rest.post <==> f in sub.post + rest.post;
  }

  lemma ScopesConcat(files: Files, sub: Visit, post: seq<FileId>, already: Option<string>)
    requires ToSet(sub.post) == ToSet(sub.pre)
    ensures ScopesAgree(files, sub.post + post, already)
      <==> && ScopesAgree(files, sub.post, None)
           && Compatible(FirstScope(files, sub.pre), already)
           && ScopesAgree(files, post, Or(already, FirstScope(files, sub.pre)))
  {
    FirstScopeIsDeclared(files, sub.pre);
    assert forall f :: f in sub.pre <==> f in ToSet(sub.pre);
    assert forall f :: f in sub.post <==> f in ToSet(sub.post);
    assert forall f :: f in sub.post || f in post <==> f in sub.post + post;
  }

  lemma GathersConcat(files: Files, a: System, b: System, c: System, p: Visit, q: Visit)
    requires Gathers(files, a, b, p.pre, p.post) && Gathers(files, b, c, q.pre, q.post)
    ensures Gathers(files, a, c, p.pre + q.pre, p.post + q.post)
  {
    FirstConcat(files, p.pre, q.pre);
    forall k ensures Get(c.members, k) == Get(a.members, k) + Lists(files, p.post + q.post, k) {
      ListsConcat(files, p.post, q.post, k);
    }
  }

  /** The step of the walk that takes the declarations of one included file. */
  lemma MergeGathers(files: Files, target: System, g: FileId, included: Spec, sub: Visit)
    requires Yields(files, g, included, sub)
    ensures included.system.Some? ==>
      var merged := MergeLevel(target, included.system.value);
      var members := Append(merged.members, included.system.value.members);
      Gathers(files, target, merged.(members := members), sub.pre, sub.post)
    ensures included.system.None? ==> Gathers(files, target, target, sub.pre, sub.post)
  {
    assert forall k :: Get(NO_MEMBERS, k) == [];
    hide Get, Append, Lists, FirstScope, FirstTenant;
    if included.system.Some? {
      forall k { GetAppend(target.members, included.system.value.members, k); }
    } else {
      forall k ensures Lists(files, sub.post, k) == [] {
        assert Get(NO_MEMBERS, k) == Get(NO_MEMBERS, k) + Lists(files, sub.post, k);
      }
    }
  }

  /** The outcome of a walk over `path`: no errors exactly when the visit gives no reason for one. */
  ghost predicate LoadMatches(
    files: Files, r: (Walker, Spec), path: FileId, v: Visit, grey: set<FileId>, seen: set<FileId>)
  {
    && (!HasErrors(r.0.diagnostics) <==> Faultless(files, v) && ScopesAgree(files, v.post, None))
    && (!HasErrors(r.0.diagnostics) ==> InStep(r.0, grey, seen + ToSet(v.post)) && Yields(files, path, r.1, v))
  }

  lemma {:induction false} LoadIffFaultless(files: Files, w: Walker, path: FileId, grey: set<FileId>, seen: set<FileId>)
    requires InStep(w, grey, seen) && path in files && path !in seen
    ensures LoadMatches(files, Load(files, w, path), path, Enter(files, path, grey, seen), grey, seen)
    decreases |files.Keys - seen|, 0, 1
  {
    var spec := files[path].spec;
    var v := Enter(files, path, grey, seen);
    ErrorsOfConcat(w.diagnostics, files[path].diagnostics);
    EnterFaultless(files, path, grey, seen);
    assert path !in w.stack by { assert path !in ToSet(w.stack); }
    if HasErrors(files[path].diagnostics) {
      assert !ParsesCleanly(files, path);
    } else if spec.system.None? {
      assert v == Visit([path], [path], [], []);
      assert forall k :: Lists(files, [path], k) == [];
      assert FirstScope(files, [path]) == None && FirstTenant(files, [path]) == None;
    } else {
      LoadSystemIffFaultless(files, w, path, grey, seen);
    }
  }

  lemma {:induction false} LoadSystemIffFaultless(
    files: Files, w: Walker, path: FileId, grey: set<FileId>, seen: set<FileId>)
    requires InStep(w, grey, seen) && path in files && path !in seen && path !in w.stack
    requires !HasErrors(w.diagnostics + files[path].diagnostics) && files[path].spec.system.Some?
    ensures LoadMatches(files, Load(files, w, path), path, Enter(files, path, grey, seen), grey, seen)
    decreases |files.Keys - seen|, 0, 0
  {
    var spec := files[path].spec;
    var own := spec.system.value;
    var inside := Walker(w.diagnostics + files[path].diagnostics, w.stack + [path],
                         w.loaded + {path}, w.parses + [path]);
    ErrorsOfConcat(w.diagnostics, files[path].diagnostics);
    assert ToSet(inside.stack) == grey + {path};
    assert files.Keys - seen == files.Keys - (seen + {path}) + {path};
    EnterFaultless(files, path, grey, seen);
    var inner := Descend(files, path, spec.includes, grey + {path}, seen + {path});
    var cleared := own.(members := NO_MEMBERS);
    LoadIncludesIffFaultless(files, inside, path, spec.includes, cleared, grey + {path}, seen + {path});
    var (after, composed) := LoadIncludes(files, inside, spec.version, spec.includes, own.(members := NO_MEMBERS));
    if !HasErrors(after.diagnostics) {
      EnterGathers(files, path, inner, composed);
    }
  }

  /** Closing the walk over `path`: its own declarations come last, its own scope and tenant first. */
  lemma EnterGathers(files: Files, path: FileId, inner: Visit, composed: System)
    requires path in files && files[path].spec.system.Some?
    requires Gathers(files, files[path].spec.system.value.(members := NO_MEMBERS), composed, inner.pre, inner.post)
    ensures
      var system := composed.(members := Append(composed.members, files[path].spec.system.value.members));
      Gathers(files, System("", None, None, NO_MEMBERS), system.(name := ""), [path] + inner.pre, inner.post + [path])
  {
    var own := files[path].spec.system.value;
    FirstConcat(files, [path], inner.pre);
    forall k
      ensures Get(Append(composed.members, own.members), k)
        == Get(NO_MEMBERS, k) + Lists(files, inner.post + [path], k)
    {
      GetAppend(composed.members, own.members, k);
      ListsConcat(files, inner.post, [path], k);
      assert Lists(files, [path], k) == Get(own.members, k);
    }
  }

  lemma EnterFaultless(files: Files, path: FileId, grey: set<FileId>, seen: set<FileId>)
    requires path in files && path !in seen
    ensures
      var inner := Descend(files, path, Follow(files, path), grey + {path}, seen + {path});
      var v := Enter(files, path, grey, seen);
      && (Faultless(files, v) <==>
            && Faultless(files, inner) && ParsesCleanly(files, path)
            && forall g :: g in Follow(files, path) ==> g in files)
      && (ScopesAgree(files, v.post, None) <==> ScopesAgree(files, inner.post, OwnScope(files, path)))
      && ToSet(v.post) == ToSet(inner.post) + {path}
  {
    var inner := Descend(files, path, Follow(files, path), grey + {path}, seen + {path});
    var v := Enter(files, path, grey, seen);
    assert forall f :: f in v.post <==> f in inner.post || f == path;
  }

  /** The outcome of the walk over the includes `todo`, likewise. */
  ghost predicate IncludesMatch(
    files: Files, r: (Walker, System), todo: seq<FileId>, target: System,
    v: Visit, grey: set<FileId>, seen: set<FileId>)
  {
    && (!HasErrors(r.0.diagnostics) <==>
          && (forall g :: g in todo ==> g in files)
          && Faultless(files, v) && ScopesAgree(files, v.post, target.tenantScope))
    && (!HasErrors(r.0.diagnostics) ==>
          InStep(r.0, grey, seen + ToSet(v.post)) && Gathers(files, target, r.1, v.pre, v.post))
  }

  lemma {:induction false} LoadIncludesIffFaultless(
    files: Files, w: Walker, from: FileId, todo: seq<FileId>, target: System, grey: set<FileId>, seen: set<FileId>)
    requires InStep(w, grey, seen) && from in files
    ensures IncludesMatch(files, LoadIncludes(files, w, files[from].spec.version, todo, target),
                          todo, target, Descend(files, from, todo, grey, seen), grey, seen)
    decreases |files.Keys - seen|, |todo| + 1, 1
  {
    var v := Descend(files, from, todo, grey, seen);
    if todo == [] {
      assert forall k :: Lists(files, [], k) == [];
    } else if todo[0] !in files {
      assert todo[0] in todo;
    } else if todo[0] in grey {
      assert todo[0] in ToSet(w.stack);
    } else {
      assert todo[0] !in w.stack by { assert todo[0] !in ToSet(w.stack); }
      if todo[0] in seen {
        LoadIncludesIffFaultless(files, w, from, todo[1..], target, grey, seen);
      } else {
        LoadIncludeStep(files, w, from, todo, target, grey, seen);
      }
    }
  }

  lemma {:induction false} LoadIncludeStep(
    files: Files, w: Walker, from: FileId, todo: seq<FileId>, target: System, grey: set<FileId>, seen: set<FileId>)
    requires InStep(w, grey, seen) && from in files
    requires todo != [] && todo[0] in files && todo[0] !in w.stack && todo[0] !in seen
    ensures IncludesMatch(files, LoadIncludes(files, w, files[from].spec.version, todo, target),
                          todo, target, Descend(files, from, todo, grey, seen), grey, seen)
    decreases |files.Keys - seen|, |todo| + 1, 0
  {
    var g, version := todo[0], files[from].spec.version;
    var (after, included) := Load(files, w, g);
    var sub := Enter(files, g, grey, seen);
    LoadIffFaultless(files, w, g, grey, seen);
    EnterSound(files, g, grey, seen);
    CardinalityMonotone(files.Keys - (seen + ToSet(sub.post)), files.Keys - seen);
    var rest := Descend(files, from, todo[1..], grey, seen + ToSet(sub.post));
    FaultlessConcat(files, from, g, sub, rest);
    ScopesConcat(files, sub, rest.post, target.tenantScope);
    if !HasErrors(after.diagnostics) {
      MergeGathers(files, target, g, included, sub);
      var clash := included.system.Some? && ScopesConflict(target, included.system.value);
      if Compatible(version, included.version) && !clash {
        var next := if included.system.None? then target else
          var merged := MergeLevel(target, included.system.value);
          merged.(members := Append(merged.members, included.system.value.members));
        LoadIncludesIffFaultless(files, after, from, todo[1..], next, grey, seen + ToSet(sub.post));
        IncludesMatchStep(files, LoadIncludes(files, after, version, todo[1..], next),
                          from, todo, target, next, sub, rest, grey, seen);
      }
    }
  }

  lemma IncludesMatchStep(
    files: Files, r: (Walker, System), from: FileId, todo: seq<FileId>, target: System, next: System,
    sub: Visit, rest: Visit, grey: set<FileId>, seen: set<FileId>)
    requires todo != [] && todo[0] in files && ToSet(sub.post) == ToSet(sub.pre)
    requires Faultless(files, sub) && ScopesAgree(files, sub.post, None) && VersionsAgree(files, (from, todo[0]))
    requires Gathers(files, target, next, sub.pre, sub.post)
    requires Compatible(FirstScope(files, sub.pre), target.tenantScope)
    requires IncludesMatch(files, r, todo[1..], next, rest, grey, seen + ToSet(sub.post))
    ensures IncludesMatch(files, r, todo, target,
                          Visit(sub.pre + rest.pre, sub.post + rest.post,
                                [(from, todo[0])] + sub.tree + rest.tree, sub.back + rest.back), grey, seen)
  {
    FaultlessConcat(files, from, todo[0], sub, rest);
    ScopesConcat(files, sub, rest.post, target.tenantScope);
    assert forall g :: g in todo <==> g == todo[0] || g in todo[1..];
    if !HasErrors(r.0.diagnostics) {
      GathersConcat(files, target, next, r.1, sub, rest);
      assert seen + ToSet(sub.post) + ToSet(rest.post) == seen + ToSet(sub.post + rest.post);
    }
  }
}
