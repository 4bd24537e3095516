/** The include walk as the command line tool runs it, updating one shared set of tables in place. */
module Composing {
  import opened Options
  import opened SpecFiles
  import opened Composition

  class Composer {
    const files: Files
    var diagnostics: seq<Diagnostic>
    var includeStack: seq<FileId>
    var loadedPaths: set<FileId>
    ghost var parses: seq<FileId>  // the files handed to the parser so far, in order
    ghost var root: FileId         // the file that the walk under way was asked for

    ghost function State(): Walker
      reads this
    {
      Walker(diagnostics, includeStack, loadedPaths, parses)
    }

    /**
     The include stack is a simple path of followed includes from the root, made of loaded files,
     and every loaded file was parsed exactly once.
     */
    ghost predicate Valid()
      reads this
    {
      && NoDuplicates(includeStack) && ToSet(includeStack) <= loadedPaths
      && (includeStack != [] ==> Walk(files, includeStack) && includeStack[0] == root)
      && NoDuplicates(parses) && ToSet(parses) == loadedPaths <= files.Keys
    }

    /** `path` may be loaded next: it is the root, or it is included by the file on top of the stack. */
    ghost predicate MayLoad(path: FileId)
      reads this
    {
      includeStack != [] ==> path in Follow(files, includeStack[|includeStack| - 1])
    }

    constructor (files: Files)
      ensures this.files == files && State() == FRESH && Valid()
    {
      this.files := files;
      diagnostics, includeStack, loadedPaths, parses, root := [], [], {}, [], "";
    }

    method StackContains(path: FileId) returns (found: bool)
      ensures found <==> path in includeStack
    {
      for i := 0 to |includeStack|
        invariant path !in includeStack[..i]
      {
        if includeStack[i] == path { return true; }
      }
      return false;
    }

    method ReportsErrors() returns (found: bool)
      ensures found <==> HasErrors(diagnostics)
    {
      for i := 0 to |diagnostics|
        invariant forall j :: 0 <= j < i ==> !diagnostics[j].severity.Error?
      {
        if diagnostics[i].severity.Error? { return true; }
      }
      return false;
    }

    method Report(code: string, at: FileId)
      modifies this`diagnostics
      ensures State() == Reported(old(State()), code, at)
    {
      diagnostics := diagnostics + [Diagnostic(Error, code, at)];
    }

    /** Marks `path` as loaded, stacks it and parses it. */
    method Open(path: FileId) returns (parsed: Spec)
      requires Valid() && MayLoad(path) && path in files && path !in loadedPaths && path !in includeStack
      modifies this
      ensures Valid() && includeStack == old(includeStack) + [path]
      ensures root == if old(includeStack) == [] then path else old(root)
      ensures parsed == files[path].spec
      ensures State() == Walker(old(diagnostics) + files[path].diagnostics, old(includeStack) + [path],
                                old(loadedPaths) + {path}, old(parses) + [path])
    {
      if includeStack == [] { root := path; }
      loadedPaths := loadedPaths + {path};
      includeStack := includeStack + [path];
      parsed := files[path].spec;
      diagnostics, parses := diagnostics + files[path].diagnostics, parses + [path];
      assert ToSet(includeStack) == ToSet(old(includeStack)) + {path};
      assert forall f :: f in old(parses) <==> f in ToSet(old(parses));
      assert ToSet(parses) == ToSet(old(parses)) + {path};
      assert path !in ToSet(old(parses));
    }

    /** Takes the top file off the stack. */
    method Close()
      requires Valid() && includeStack != []
      modifies this`includeStack
      ensures Valid() && includeStack == old(includeStack)[..|old(includeStack)| - 1]
    {
      includeStack := includeStack[..|includeStack| - 1];
    }

    /** Loads `path` and what it includes; state and result are those of the function `Load`. */
    method LoadComposed(path: FileId) returns (spec: Spec)
      requires Valid() && MayLoad(path)
      modifies this
      ensures Valid() && (old(includeStack) != [] ==> root == old(root))
      ensures old(includeStack) == [] && path in files && path !in old(loadedPaths) ==> root == path
      ensures (State(), spec) == Load(files, old(State()), path)
      decreases |files.Keys - loadedPaths|, 1
    {
      hide Opened, LoadIncludes, HasErrors, Walk, NoDuplicates, ToSet;
      var stacked := StackContains(path);
      if stacked {
        Report(INCLUDE_CYCLE, path);
        return EMPTY_SPEC;
      }
      if path !in files {
        Report(MISSING_FILE, path);
        return EMPTY_SPEC;
      }
      if path in loadedPaths {
        return EMPTY_SPEC;
      }
      spec := LoadNew(path);
    }

    /** Loads a file that has not been loaded before. */
    method LoadNew(path: FileId) returns (spec: Spec)
      requires Valid() && MayLoad(path) && path in files && path !in loadedPaths && path !in includeStack
      modifies this
      ensures Valid() && root == if old(includeStack) != [] then old(root) else path
      ensures (State(), spec) == Load(files, old(State()), path)
      decreases |files.Keys - loadedPaths|, 0
    {
      hide Opened, LoadIncludes, HasErrors, Walk, NoDuplicates, ToSet;
      assert files.Keys - loadedPaths == files.Keys - (loadedPaths + {path}) + {path};
      var parsed := Open(path);
      assert |files.Keys - loadedPaths| < old(|files.Keys - loadedPaths|);
      var failed := ReportsErrors();
      if failed {
        Close();
        return parsed;
      }
      spec := TakeSystem(parsed, path);
      Close();
    }

    /** What is made of the file on top of the stack, once it is parsed without errors. */
    method TakeSystem(parsed: Spec, ghost path: FileId) returns (spec: Spec)
      requires Valid() && path in files && parsed == files[path].spec
      requires includeStack != [] && includeStack[|includeStack| - 1] == path
      modifies this
      ensures Valid() && includeStack == old(includeStack) && root == old(root) && old(loadedPaths) <= loadedPaths
      ensures (State(), spec) == Opened(files, old(State()), parsed)
      decreases |files.Keys - loadedPaths|, 4
    {
      hide LoadIncludes;
      spec := parsed.(includes := []);
      if parsed.system.Some? {
        var system := TakeIncludes(parsed, parsed.system.value.(members := NO_MEMBERS));
        spec := spec.(system := Some(system.(members := Append(system.members, parsed.system.value.members))));
      }
    }

    /** The loop over the includes of the file on top of the stack. */
    method TakeIncludes(parsed: Spec, cleared: System) returns (system: System)
      requires Valid() && includeStack != [] && forall file :: file in parsed.includes ==> MayLoad(file)
      modifies this
      ensures Valid() && includeStack == old(includeStack) && root == old(root) && old(loadedPaths) <= loadedPaths
      ensures (State(), system) == LoadIncludes(files, old(State()), parsed.version, parsed.includes, cleared)
      decreases |files.Keys - loadedPaths|, 3
    {
      hide Follow, Walk, NoDuplicates, ToSet, Load, Compatible, HasErrors, MergeLevel, Append, ScopesConflict;
      system := cleared;
      ghost var outcome := LoadIncludes(files, State(), parsed.version, parsed.includes, cleared);
      assert parsed.includes[0..] == parsed.includes;
      for i := 0 to |parsed.includes|
        invariant Valid() && includeStack == old(includeStack) && root == old(root) && old(loadedPaths) <= loadedPaths
        invariant outcome == LoadIncludes(files, State(), parsed.version, parsed.includes[i..], system)
      {
        CardinalityMonotone(files.Keys - loadedPaths, files.Keys - old(loadedPaths));
        assert parsed.includes[i..] == [parsed.includes[i]] + parsed.includes[i + 1..];
        assert parsed.includes[i] in parsed.includes && old(MayLoad(parsed.includes[i]));
        system := TakeInclude(parsed.includes[i], parsed.version, system, parsed.includes[i + 1..]);
      }
    }

    /** One turn of the loop over the includes of the file on top of the stack; `rest` are those still to come. */
    method TakeInclude(file: FileId, version: Option<string>, target: System, ghost rest: seq<FileId>)
      returns (system: System)
      requires Valid() && includeStack != [] && MayLoad(file)
      modifies this
      ensures Valid() && includeStack == old(includeStack) && root == old(root) && old(loadedPaths) <= loadedPaths
      ensures LoadIncludes(files, old(State()), version, [file] + rest, target)
        == LoadIncludes(files, State(), version, rest, system)
      decreases |files.Keys - loadedPaths|, 2
    {
      system := target;
      assert ([file] + rest)[1..] == rest;
      if file !in files {
        Report(MISSING_FILE, file);
        return;
      }
      var cyclic := StackContains(file);
      if cyclic {
        Report(INCLUDE_CYCLE, file);
        return;
      }
      var included := LoadComposed(file);
      var failed := ReportsErrors();
      if failed {
        return;
      }
      if !Compatible(version, included.version) {
        Report(VERSION_MISMATCH, file);
      }
      if included.system.None? {
        return;
      }
      if ScopesConflict(system, included.system.value) {
        Report(TENANT_CONFLICT, file);
      }
      system := MergeLevel(system, included.system.value);
      system := system.(members := Append(system.members, included.system.value.members));
    }
  }
}
