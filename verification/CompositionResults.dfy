/** What composition guarantees, stated on the include graph alone. */
module CompositionResults {
  import opened Options
  import opened SpecFiles
  import opened IncludeGraph
  import opened Composition

  /** The files reachable from the root in the order a depth-first search leaves them. */
  function PostOrder(files: Files, root: FileId): seq<FileId> {
    if root in files then Enter(files, root, {}, {}).post else []
  }

  function PreOrder(files: Files, root: FileId): seq<FileId> {
    if root in files then Enter(files, root, {}, {}).pre else []
  }

  /** The includes by which each file is first entered. */
  function TreeEdges(files: Files, root: FileId): seq<(FileId, FileId)> {
    if root in files then Enter(files, root, {}, {}).tree else []
  }

  ghost predicate Succeeds(files: Files, root: FileId) {
    !HasErrors(Load(files, FRESH, root).0.diagnostics)
  }

  /**
   Composition reports no error exactly when every reachable file exists and parses cleanly, no
   file includes its way back to itself, versions agree along the edges that first enter a file,
   and the declared tenant scopes name one field.
   */
  lemma SucceedsIff(files: Files, root: FileId)
    ensures Succeeds(files, root) <==>
      && (forall f :: Reaches(files, root, f) ==> ParsesCleanly(files, f))
      && !HasCycle(files, root)
      && (forall e :: e in TreeEdges(files, root) ==> VersionsAgree(files, e))
      && (forall f, g :: Reaches(files, root, f) && Reaches(files, root, g) ==>
            Compatible(OwnScope(files, f), OwnScope(files, g)))
  {
    ReachesSelf(files, root);
    if root in files {
      LoadIffFaultless(files, FRESH, root, {}, {});
      var v := Enter(files, root, {}, {});
      if forall f, g :: f in v.post && g in Follow(files, f) ==> g in files {
        SearchIsReachability(files, root);
        BackEdgeIffCycle(files, root);
      } else {
        var f, g :| f in v.post && g in Follow(files, f) && g !in files;
        EnterSound(files, root, {}, {});
        ReachesStep(files, root, f, g);
        assert !ParsesCleanly(files, g);
      }
    }
  }

  /** An error-free run is a faultless visit, and loads just the files of that visit. */
  lemma SucceedsVisit(files: Files, root: FileId)
    requires Succeeds(files, root)
    ensures root in files
    ensures var (after, spec) := Load(files, FRESH, root);
      var v := Enter(files, root, {}, {});
      && Faultless(files, v) && after.loaded == ToSet(v.post) && Yields(files, root, spec, v)
  {
    assert root in files;
    LoadIffFaultless(files, FRESH, root, {}, {});
  }

  /**
   After an error-free run the order in which the walk leaves the files lists each reachable file
   once, included files before their includers.
   */
  lemma ComposedOrder(files: Files, root: FileId)
    requires Succeeds(files, root)
    ensures var order := PostOrder(files, root);
      && NoDuplicates(order)
      && (forall f :: f in order <==> Reaches(files, root, f))
      && (forall j, g :: 0 <= j < |order| && g in Follow(files, order[j]) ==> g in order[..j])
  {
    SucceedsVisit(files, root);
    var post := Enter(files, root, {}, {}).post;
    assert NoDuplicates(post) by { EnterSound(files, root, {}, {}); }
    assert forall f :: f in post <==> Reaches(files, root, f) by { SearchIsReachability(files, root); }
    assert IncludesFirst(files, post, {}) by {
      var none: set<FileId> := {};
      assert none - none == none;
      EnterClosed(files, root, {}, {});
    }
    IncludesComeFirst(files, post);
  }

  lemma IncludesComeFirst(files: Files, order: seq<FileId>)
    requires IncludesFirst(files, order, {})
    requires forall f, g :: f in order && g in Follow(files, f) ==> g in files
    ensures forall j, g :: 0 <= j < |order| && g in Follow(files, order[j]) ==> g in order[..j]
  {
    forall j, g | 0 <= j < |order| && g in Follow(files, order[j]) ensures g in order[..j] {
      assert order[j] in order && g in files;
    }
  }

  /** The files loaded by an error-free run are exactly the reachable ones. */
  lemma LoadedIsReachable(files: Files, root: FileId)
    requires Succeeds(files, root)
    ensures forall f :: f in Load(files, FRESH, root).0.loaded <==> Reaches(files, root, f)
  {
    SucceedsVisit(files, root);
    SearchIsReachability(files, root);
    assert forall f :: f in Enter(files, root, {}, {}).post <==> f in ToSet(Enter(files, root, {}, {}).post);
  }

  /**
   The composed system of an error-free run: each of its sixteen lists is the concatenation of the
   own lists of the reachable files in that order.
   */
  lemma ComposedDeclarations(files: Files, root: FileId)
    requires Succeeds(files, root)
    ensures root in files
    ensures var spec := Load(files, FRESH, root).1;
      && spec.version == files[root].spec.version
      && (spec.system.Some? <==> files[root].spec.system.Some?)
      && (spec.system.Some? ==>
            && spec.system.value.name == files[root].spec.system.value.name
            && forall k :: Get(spec.system.value.members, k) == Lists(files, PostOrder(files, root), k))
  {
    SucceedsVisit(files, root);
    var spec := Load(files, FRESH, root).1;
    forall k | spec.system.Some?
      ensures Get(spec.system.value.members, k) == Lists(files, PostOrder(files, root), k)
    {
      assert Get(NO_MEMBERS, k) == [];
    }
  }

  /**
   The tenant scope of an error-free run is there exactly when some reachable file declares one,
   and is the one all of them declare; the system tenant is the first in order of entry.
   */
  lemma {:induction false} ComposedTenancy(files: Files, root: FileId)
    requires Succeeds(files, root) && root in files && files[root].spec.system.Some?
    ensures Load(files, FRESH, root).1.system.Some?
    ensures var system := Load(files, FRESH, root).1.system.value;
      && (system.tenantScope.Some? <==> exists f :: Reaches(files, root, f) && OwnScope(files, f).Some?)
      && (forall f :: Reaches(files, root, f) && OwnScope(files, f).Some? ==>
            OwnScope(files, f) == system.tenantScope)
      && system.systemTenant == FirstTenant(files, PreOrder(files, root))
  {
    SucceedsIff(files, root);
    SucceedsVisit(files, root);
    ComposedOrder(files, root);
    EnterSound(files, root, {}, {});
    var v := Enter(files, root, {}, {});
    FirstScopeIsDeclared(files, v.pre);
    forall f ensures f in v.pre <==> Reaches(files, root, f) {
      assert f in v.pre <==> f in ToSet(v.pre);
      assert f in v.post <==> f in ToSet(v.post);
    }
  }

  /** A reachable include cycle is always reported, whatever else is wrong with the files. */
  lemma CycleIsReported(files: Files, root: FileId)
    requires HasCycle(files, root)
    ensures !Succeeds(files, root)
  {
    SucceedsIff(files, root);
  }

  // ----------------------------------------------------------------------------------- versions

  const WITH_SYSTEM := Some(System("S", None, None, NO_MEMBERS))

  /** A root at version 1 that includes an unversioned file, which includes a file at version 2. */
  const MIXED_VERSIONS: Files := map[
    "r" := Parsed(Spec(Some("1"), ["m"], WITH_SYSTEM), []),
    "m" := Parsed(Spec(None, ["l"], WITH_SYSTEM), []),
    "l" := Parsed(Spec(Some("2"), [], WITH_SYSTEM), [])]

  /** Entering a file with one include that was not seen yet, or with none. */
  lemma OneInclude(files: Files, f: FileId, grey: set<FileId>, seen: set<FileId>)
    requires f in files && f !in seen
    ensures Follow(files, f) == [] ==> Enter(files, f, grey, seen) == Visit([f], [f], [], [])
    ensures |Follow(files, f)| == 1 && Follow(files, f)[0] in files.Keys - seen - grey - {f} ==>
      var g := Follow(files, f)[0];
      var sub := Enter(files, g, grey + {f}, seen + {f});
      Enter(files, f, grey, seen) == Visit([f] + sub.pre, sub.post + [f], [(f, g)] + sub.tree, sub.back)
  {
    var todo := Follow(files, f);
    if |todo| == 1 && todo[0] in files.Keys - seen - grey - {f} {
      var sub := Enter(files, todo[0], grey + {f}, seen + {f});
      assert todo[1..] == [];
      assert Descend(files, f, [], grey + {f}, seen + {f} + ToSet(sub.post)) == Visit([], [], [], []);
      assert Descend(files, f, todo, grey + {f}, seen + {f})
        == Visit(sub.pre + [], sub.post + [], [(f, todo[0])] + sub.tree + [], sub.back + []);
    }
  }

  /** The visit of a chain of three files. */
  lemma ChainVisit(files: Files, r: FileId, m: FileId, l: FileId)
    requires r in files && m in files && l in files && r != m && m != l && l != r
    requires Follow(files, r) == [m] && Follow(files, m) == [l] && Follow(files, l) == []
    ensures Enter(files, r, {}, {}) == Visit([r, m, l], [l, m, r], [(r, m), (m, l)], [])
  {
    hide Enter, Follow;
    OneInclude(files, r, {}, {});
    OneInclude(files, m, {} + {r}, {} + {r});
    OneInclude(files, l, {} + {r} + {m}, {} + {r} + {m});
  }

  lemma ChainFaultless(files: Files, r: FileId, m: FileId, l: FileId)
    requires r in files && m in files && l in files
    requires Follow(files, r) == [m] && Follow(files, m) == [l] && Follow(files, l) == []
    requires ParsesCleanly(files, r) && ParsesCleanly(files, m) && ParsesCleanly(files, l)
    requires VersionsAgree(files, (r, m)) && VersionsAgree(files, (m, l))
    requires OwnScope(files, r) == OwnScope(files, m) == OwnScope(files, l) == None
    ensures Faultless(files, Visit([r, m, l], [l, m, r], [(r, m), (m, l)], []))
    ensures ScopesAgree(files, [l, m, r], None)
  {
    hide Follow, ParsesCleanly, VersionsAgree, OwnScope;
  }

  lemma ChainSucceeds(files: Files, r: FileId, m: FileId, l: FileId)
    requires r in files && m in files && l in files && r != m && m != l && l != r
    requires Follow(files, r) == [m] && Follow(files, m) == [l] && Follow(files, l) == []
    requires ParsesCleanly(files, r) && ParsesCleanly(files, m) && ParsesCleanly(files, l)
    requires VersionsAgree(files, (r, m)) && VersionsAgree(files, (m, l))
    requires OwnScope(files, r) == OwnScope(files, m) == OwnScope(files, l) == None
    ensures Succeeds(files, r)
  {
    hide Follow, Faultless, ScopesAgree, Enter, Load, ParsesCleanly, VersionsAgree, OwnScope;
    ChainVisit(files, r, m, l);
    ChainFaultless(files, r, m, l);
    LoadIffFaultless(files, FRESH, r, {}, {});
  }

  /**
   Declared versions need not agree: a file that declares none hides the difference between its
   includer and what it includes.
   */
  lemma UndeclaredVersionHidesMismatch()
    ensures Succeeds(MIXED_VERSIONS, "r") && Reaches(MIXED_VERSIONS, "r", "l")
    ensures MIXED_VERSIONS["r"].spec.version == Some("1") && MIXED_VERSIONS["l"].spec.version == Some("2")
  {
    var files := MIXED_VERSIONS;
    assert Follow(files, "r") == ["m"] && Follow(files, "m") == ["l"] && Follow(files, "l") == [];
    ReachesSelf(files, "r");
    ReachesStep(files, "r", "r", "m");
    ReachesStep(files, "r", "m", "l");
    ChainSucceeds(files, "r", "m", "l");
  }
}
