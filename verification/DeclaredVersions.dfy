/** When the versions that included files declare must agree. */
module DeclaredVersions {
  import opened Options
  import opened SpecFiles
  import opened IncludeGraph
  import opened Composition
  import opened CompositionResults

  predicate Versioned(files: Files, f: FileId) { f in files && files[f].spec.version.Some? }

  /** The file is entered, first of all, from one that declares no version. */
  predicate UnderUnversioned(files: Files, tree: seq<(FileId, FileId)>, h: FileId) {
    exists i :: 0 <= i < |tree| && tree[i].1 == h && !Versioned(files, tree[i].0)
  }

  /** A versioned file whose version nothing above it constrains. */
  ghost predicate Head(files: Files, root: FileId, h: FileId) {
    && Reaches(files, root, h) && Versioned(files, h)
    && (h == root || UnderUnversioned(files, TreeEdges(files, root), h))
  }

  /** All the reachable files that declare a version declare the same one. */
  ghost predicate VersionsAllAgree(files: Files, root: FileId) {
    forall f, g :: Reaches(files, root, f) && Reaches(files, root, g) && Versioned(files, f) && Versioned(files, g) ==>
      files[f].spec.version == files[g].spec.version
  }

  ghost predicate HeadsAgree(files: Files, root: FileId) {
    forall f, g :: Head(files, root, f) && Head(files, root, g) ==> files[f].spec.version == files[g].spec.version
  }

  ghost predicate AtMostOneHead(files: Files, root: FileId) {
    forall f, g :: Head(files, root, f) && Head(files, root, g) ==> f == g
  }

  // ------------------------------------------------------------------- every version has its head

  /** `h` stands over `x`: it declares the same version, and is `top` or was entered from an unversioned file. */
  predicate StandsOver(files: Files, v: Visit, top: FileId, h: FileId, x: FileId) {
    && Versioned(files, h) && Versioned(files, x) && files[h].spec.version == files[x].spec.version
    && (h == top || (h in v.post && UnderUnversioned(files, v.tree, h)))
  }

  lemma UnderMore(files: Files, a: seq<(FileId, FileId)>, b: seq<(FileId, FileId)>, c: seq<(FileId, FileId)>, h: FileId)
    requires UnderUnversioned(files, b, h)
    ensures UnderUnversioned(files, a + b + c, h)
  {
    var i :| 0 <= i < |b| && b[i].1 == h && !Versioned(files, b[i].0);
    assert (a + b + c)[|a| + i] == b[i];
  }

  lemma {:induction false} EnterHeads(files: Files, f: FileId, grey: set<FileId>, seen: set<FileId>, x: FileId)
    returns (h: FileId)
    requires f in files && f !in seen && x in Enter(files, f, grey, seen).post && Versioned(files, x)
    requires forall e :: e in Enter(files, f, grey, seen).tree ==> VersionsAgree(files, e)
    ensures StandsOver(files, Enter(files, f, grey, seen), f, h, x)
    decreases |files.Keys - seen|, 0
  {
    assert files.Keys - seen == files.Keys - (seen + {f}) + {f};
    if x == f {
      h := f;
    } else {
      h := DescendHeads(files, f, Follow(files, f), grey + {f}, seen + {f}, x);
    }
  }

  lemma {:induction false} DescendHeads(
    files: Files, from: FileId, todo: seq<FileId>, grey: set<FileId>, seen: set<FileId>, x: FileId)
    returns (h: FileId)
    requires from in files && x in Descend(files, from, todo, grey, seen).post && Versioned(files, x)
    requires forall e :: e in Descend(files, from, todo, grey, seen).tree ==> VersionsAgree(files, e)
    ensures StandsOver(files, Descend(files, from, todo, grey, seen), from, h, x)
    decreases |files.Keys - seen|, |todo| + 1
  {
    if todo[0] in grey || todo[0] in seen || todo[0] !in files {
      h := DescendHeads(files, from, todo[1..], grey, seen, x);
    } else {
      var g := todo[0];
      var v := Descend(files, from, todo, grey, seen);
      var sub := Enter(files, g, grey, seen);
      CardinalityMonotone(files.Keys - (seen + ToSet(sub.post)), files.Keys - seen);
      var rest := Descend(files, from, todo[1..], grey, seen + ToSet(sub.post));
      assert v.tree == [(from, g)] + sub.tree + rest.tree && v.post == sub.post + rest.post;
      assert v.tree[0] == (from, g) && forall e :: e in sub.tree || e in rest.tree ==> e in v.tree;
      if x in sub.post {
        h := EnterHeads(files, g, grey, seen, x);
        if h == g {
          assert sub.post[|sub.post| - 1] == g && VersionsAgree(files, (from, g));
          if Versioned(files, from) { h := from; }
        } else {
          UnderMore(files, [(from, g)], sub.tree, rest.tree, h);
        }
      } else {
        h := DescendHeads(files, from, todo[1..], grey, seen + ToSet(sub.post), x);
        if h != from {
          UnderMore(files, [(from, g)] + sub.tree, rest.tree, [], h);
          assert [(from, g)] + sub.tree + rest.tree + [] == v.tree;
        }
      }
    }
  }

  /** After an error-free run all declared versions agree exactly if those of the heads do. */
  lemma VersionsAgreeIffHeadsDo(files: Files, root: FileId)
    requires Succeeds(files, root)
    ensures VersionsAllAgree(files, root) <==> HeadsAgree(files, root)
  {
    if HeadsAgree(files, root) {
      forall f, g | Reaches(files, root, f) && Reaches(files, root, g) && Versioned(files, f) && Versioned(files, g)
        ensures files[f].spec.version == files[g].spec.version
      {
        var a := HeadOver(files, root, f);
        var b := HeadOver(files, root, g);
      }
    }
  }

  lemma HeadOver(files: Files, root: FileId, f: FileId) returns (h: FileId)
    requires Succeeds(files, root) && Reaches(files, root, f) && Versioned(files, f)
    ensures Head(files, root, h) && files[h].spec.version == files[f].spec.version
  {
    SucceedsIff(files, root);
    ComposedOrder(files, root);
    SucceedsVisit(files, root);
    assert f in PostOrder(files, root);
    h := EnterHeads(files, root, {}, {}, f);
    if h == root { ReachesSelf(files, root); } else { assert h in PostOrder(files, root); }
  }

  // ---------------------------------------------------------------------- the tree of first entries

  /** A visit's edges enter its files one by one, each once, from a file entered before. */
  ghost predicate IsTree(pre: seq<FileId>, tree: seq<(FileId, FileId)>) {
    && |pre| == |tree| + 1
    && NoDuplicates(pre)
    && (forall i :: 0 <= i < |tree| ==> tree[i].1 == pre[i + 1] && tree[i].0 in pre[..i + 1])
  }

  lemma {:induction false} EnterIsTree(files: Files, f: FileId, grey: set<FileId>, seen: set<FileId>)
    requires f in files && f !in seen
    ensures var v := Enter(files, f, grey, seen); IsTree(v.pre, v.tree) && v.pre[0] == f
    decreases |files.Keys - seen|, 0
  {
    assert files.Keys - seen == files.Keys - (seen + {f}) + {f};
    DescendIsTree(files, f, Follow(files, f), grey + {f}, seen + {f});
  }

  /** With the file it starts from in front, so are the edges of the visit of its includes. */
  lemma {:induction false} DescendIsTree(
    files: Files, from: FileId, todo: seq<FileId>, grey: set<FileId>, seen: set<FileId>)
    requires from in seen && forall g :: g in todo ==> g in Follow(files, from)
    ensures var v := Descend(files, from, todo, grey, seen); IsTree([from] + v.pre, v.tree)
    decreases |files.Keys - seen|, |todo| + 1
  {
    if todo == [] {
    } else if todo[0] in grey || todo[0] in seen || todo[0] !in files {
      DescendIsTree(files, from, todo[1..], grey, seen);
    } else {
      var g := todo[0];
      var sub := Enter(files, g, grey, seen);
      CardinalityMonotone(files.Keys - (seen + ToSet(sub.post)), files.Keys - seen);
      var rest := Descend(files, from, todo[1..], grey, seen + ToSet(sub.post));
      EnterIsTree(files, g, grey, seen);
      DescendIsTree(files, from, todo[1..], grey, seen + ToSet(sub.post));
      EnterSound(files, g, grey, seen);
      DescendSound(files, from, todo[1..], grey, seen + ToSet(sub.post));
      forall x | x in sub.pre ensures x !in seen && x in ToSet(sub.post) {
        assert x in ToSet(sub.pre) && x in sub.post;
      }
      forall x | x in rest.pre ensures x !in seen + ToSet(sub.post) {
        assert x in ToSet(rest.pre) && x in rest.post;
      }
      TreeConcat(from, g, sub, rest);
    }
  }

  lemma TreeConcat(from: FileId, g: FileId, sub: Visit, rest: Visit)
    requires IsTree(sub.pre, sub.tree) && sub.pre[0] == g && IsTree([from] + rest.pre, rest.tree)
    requires from !in sub.pre && forall x :: x in rest.pre ==> x !in sub.pre
    ensures IsTree([from] + (sub.pre + rest.pre), [(from, g)] + sub.tree + rest.tree)
  {
    var pre, tree := [from] + (sub.pre + rest.pre), [(from, g)] + sub.tree + rest.tree;
    forall i, j | 0 <= i < j < |pre| ensures pre[i] != pre[j] {
      DistinctInConcat(from, sub.pre, rest.pre, i, j);
    }
    forall i | 0 <= i < |tree| ensures tree[i].1 == pre[i + 1] && tree[i].0 in pre[..i + 1] {
      EdgeInConcat(from, g, sub, rest, i);
    }
  }

  lemma DistinctInConcat(from: FileId, a: seq<FileId>, b: seq<FileId>, i: nat, j: nat)
    requires NoDuplicates(a) && NoDuplicates([from] + b) && from !in a && forall x :: x in b ==> x !in a
    requires i < j <= |a| + |b|
    ensures ([from] + (a + b))[i] != ([from] + (a + b))[j]
  {
    var pre, own, n := [from] + (a + b), [from] + b, |a|;
    if j <= n {
      assert pre[j] == a[j - 1] && pre[j] in a;
      assert i == 0 || pre[i] == a[i - 1];
    } else if 0 < i <= n {
      assert pre[i] == a[i - 1] && pre[j] == b[j - n - 1] && pre[j] in b;
    } else {
      assert pre[j] == own[j - n] && pre[i] == own[if i == 0 then 0 else i - n];
    }
  }

  lemma EdgeInConcat(from: FileId, g: FileId, sub: Visit, rest: Visit, i: nat)
    requires IsTree(sub.pre, sub.tree) && sub.pre[0] == g && IsTree([from] + rest.pre, rest.tree)
    requires i <= |sub.tree| + |rest.tree|
    ensures var (pre, tree) := ([from] + (sub.pre + rest.pre), [(from, g)] + sub.tree + rest.tree);
      tree[i].1 == pre[i + 1] && tree[i].0 in pre[..i + 1]
  {
    var pre, tree := [from] + (sub.pre + rest.pre), [(from, g)] + sub.tree + rest.tree;
    var n, own := |sub.pre|, [from] + rest.pre;
    hide NoDuplicates;
    if i == 0 {
      assert pre[..1] == [from];
    } else if i < n {
      assert sub.tree[i - 1].0 in sub.pre[..i];
      var k :| 0 <= k < i && sub.pre[k] == sub.tree[i - 1].0;
      assert pre[..i + 1][k + 1] == tree[i].0;
    } else {
      assert rest.tree[i - n].0 in own[..i - n + 1];
      var k :| 0 <= k <= i - n && own[k] == rest.tree[i - n].0;
      assert pre[..i + 1][if k == 0 then 0 else k + n] == tree[i].0;
    }
  }

  // ---------------------------------------------------------- other versions for the same includes

  /** The same files but for the versions that those with a version declare. */
  predicate SameDeclarers(files: Files, other: Files) {
    && files.Keys == other.Keys
    && forall f :: f in files ==>
         && other[f].diagnostics == files[f].diagnostics
         && other[f].spec.includes == files[f].spec.includes && other[f].spec.system == files[f].spec.system
         && (other[f].spec.version.Some? <==> files[f].spec.version.Some?)
  }

  lemma {:induction false} EnterSame(files: Files, other: Files, f: FileId, grey: set<FileId>, seen: set<FileId>)
    requires SameDeclarers(files, other) && f in files && f !in seen
    ensures Enter(files, f, grey, seen) == Enter(other, f, grey, seen)
    decreases |files.Keys - seen|, 0
  {
    assert files.Keys - seen == files.Keys - (seen + {f}) + {f};
    DescendSame(files, other, f, Follow(files, f), grey + {f}, seen + {f});
  }

  lemma {:induction false} DescendSame(
    files: Files, other: Files, from: FileId, todo: seq<FileId>, grey: set<FileId>, seen: set<FileId>)
    requires SameDeclarers(files, other)
    ensures Descend(files, from, todo, grey, seen) == Descend(other, from, todo, grey, seen)
    decreases |files.Keys - seen|, |todo| + 1
  {
    if todo == [] {
    } else if todo[0] in grey || todo[0] in seen || todo[0] !in files {
      DescendSame(files, other, from, todo[1..], grey, seen);
    } else {
      var sub := Enter(files, todo[0], grey, seen);
      CardinalityMonotone(files.Keys - (seen + ToSet(sub.post)), files.Keys - seen);
      EnterSame(files, other, todo[0], grey, seen);
      DescendSame(files, other, from, todo[1..], grey, seen + ToSet(sub.post));
    }
  }

  lemma SameGraph(files: Files, other: Files, root: FileId)
    requires SameDeclarers(files, other)
    ensures forall f, g :: Reaches(files, f, g) <==> Reaches(other, f, g)
    ensures TreeEdges(files, root) == TreeEdges(other, root)
    ensures forall h :: Head(files, root, h) <==> Head(other, root, h)
  {
    assert forall f :: Follow(files, f) == Follow(other, f);
    assert forall p :: Walk(files, p) <==> Walk(other, p);
    assert forall p, f, g :: WalkBetween(files, p, f, g) <==> WalkBetween(other, p, f, g);
    if root in files { EnterSame(files, other, root, {}, {}); }
    assert forall f :: Versioned(files, f) <==> Versioned(other, f);
  }

  /** The files whose version is that of the head `h`, found along the first edges of the tree. */
  function Kin(files: Files, tree: seq<(FileId, FileId)>, h: FileId): (r: set<FileId>)
    ensures h in r
  {
    if tree == [] then {h}
    else
      var before, (g, f) := Kin(files, tree[..|tree| - 1], h), tree[|tree| - 1];
      if g in before && Versioned(files, g) && Versioned(files, f) then before + {f} else before
  }

  /** The kin of a head are it and the targets of edges between kin. */
  lemma {:induction false} KinAre(files: Files, tree: seq<(FileId, FileId)>, h: FileId, x: FileId)
    ensures x in Kin(files, tree, h) && x != h ==>
      exists i :: 0 <= i < |tree| && tree[i].1 == x && tree[i].0 in Kin(files, tree, h)
        && Versioned(files, tree[i].0) && Versioned(files, x)
    ensures forall i :: 0 <= i < |tree| ==> Kin(files, tree[..i], h) <= Kin(files, tree, h)
  {
    if tree != [] {
      var n := |tree| - 1;
      var before := tree[..n];
      KinAre(files, before, h, x);
      forall i | 0 <= i < |tree| ensures Kin(files, tree[..i], h) <= Kin(files, tree, h) {
        if i < n { assert before[..i] == tree[..i]; }
      }
      if x in Kin(files, tree, h) && x != h {
        if x in Kin(files, before, h) {
          var i :| 0 <= i < n && before[i].1 == x && before[i].0 in Kin(files, before, h)
            && Versioned(files, before[i].0) && Versioned(files, x);
          assert tree[i] == before[i];
        } else {
          assert tree[n].1 == x;
        }
      }
    }
  }

  lemma KinPasses(files: Files, pre: seq<FileId>, tree: seq<(FileId, FileId)>, h: FileId, i: nat)
    requires IsTree(pre, tree) && i < |tree| && Versioned(files, tree[i].0) && Versioned(files, tree[i].1)
    requires tree[i].0 in Kin(files, tree, h)
    ensures tree[i].1 in Kin(files, tree, h)
  {
    KinBefore(files, pre, tree, h, i);
    KinUpTo(files, tree, h, i + 1);
    hide IsTree;
    assert tree[..i + 1][..i] == tree[..i];
  }

  lemma OneEdge(pre: seq<FileId>, tree: seq<(FileId, FileId)>, i: nat)
    requires IsTree(pre, tree) && i < |tree|
    ensures pre[0] != tree[i].1 && forall j :: 0 <= j < |tree| && tree[j].1 == tree[i].1 ==> j == i
  {
    forall j | 0 <= j < |tree| && tree[j].1 == tree[i].1 ensures j == i {
      assert pre[j + 1] == pre[i + 1];
    }
    assert pre[i + 1] == tree[i].1;
  }

  /** Kinship runs along every edge between versioned files, both ways. */
  lemma KinAlongEdge(files: Files, pre: seq<FileId>, tree: seq<(FileId, FileId)>, h: FileId, i: nat)
    requires IsTree(pre, tree) && i < |tree| && Versioned(files, tree[i].0) && Versioned(files, tree[i].1)
    requires h == pre[0] || UnderUnversioned(files, tree, h)
    ensures tree[i].0 in Kin(files, tree, h) <==> tree[i].1 in Kin(files, tree, h)
  {
    if tree[i].0 in Kin(files, tree, h) { KinPasses(files, pre, tree, h, i); }
    OneEdge(pre, tree, i);
    KinAre(files, tree, h, tree[i].1);
    hide IsTree, Kin;
  }

  lemma KinUpTo(files: Files, tree: seq<(FileId, FileId)>, h: FileId, i: nat)
    requires i <= |tree|
    ensures Kin(files, tree[..i], h) <= Kin(files, tree, h)
  {
    KinAre(files, tree, h, h);
    if i == |tree| { assert tree[..i] == tree; }
  }

  /** A file found to be kin is found so before any edge leaves it. */
  lemma KinBefore(files: Files, pre: seq<FileId>, tree: seq<(FileId, FileId)>, h: FileId, i: nat)
    requires IsTree(pre, tree) && i < |tree| && tree[i].0 in Kin(files, tree, h)
    ensures tree[i].0 in Kin(files, tree[..i], h)
  {
    hide Kin;
    var g := tree[i].0;
    if g != h {
      assert g in pre[..i + 1];
      var n :| 0 <= n <= i && pre[n] == g;
      KinFoundAt(files, tree, h, g);
      var j :| 0 <= j < |tree| && tree[j].1 == g && g in Kin(files, tree[..j + 1], h);
      assert pre[j + 1] == g;
      assert j + 1 == n;
      hide IsTree;
      assert tree[..i][..j + 1] == tree[..j + 1];
      KinUpTo(files, tree[..i], h, j + 1);
    }
  }

  lemma {:induction false} KinFoundAt(files: Files, tree: seq<(FileId, FileId)>, h: FileId, x: FileId)
    requires x in Kin(files, tree, h) && x != h
    ensures exists j :: 0 <= j < |tree| && tree[j].1 == x && x in Kin(files, tree[..j + 1], h)
  {
    var n := |tree| - 1;
    var before := tree[..n];
    if x in Kin(files, before, h) {
      KinFoundAt(files, before, h, x);
      var j :| 0 <= j < n && before[j].1 == x && x in Kin(files, before[..j + 1], h);
      assert before[..j + 1] == tree[..j + 1] && tree[j] == before[j];
    } else {
      assert tree[..n + 1] == tree && tree[n].1 == x;
    }
  }

  /** The kin of a head declare version 1, all other versioned files version 2. */
  function Recoloured(files: Files, kin: set<FileId>): (other: Files)
    ensures SameDeclarers(files, other)
    ensures forall f :: Versioned(files, f) ==> other[f].spec.version == Some(if f in kin then "1" else "2")
  {
    map f | f in files :: if files[f].spec.version.None? then files[f]
      else files[f].(spec := files[f].spec.(version := Some(if f in kin then "1" else "2")))
  }

  lemma HeadsAreNotKin(files: Files, pre: seq<FileId>, tree: seq<(FileId, FileId)>, h: FileId, other: FileId)
    requires IsTree(pre, tree) && h != other && (other == pre[0] || UnderUnversioned(files, tree, other))
    ensures other !in Kin(files, tree, h)
  {
    KinAre(files, tree, h, other);
    forall i | 0 <= i < |tree| && tree[i].1 == other
      ensures other != pre[0] && forall j :: 0 <= j < |tree| && tree[j].1 == other ==> j == i
    {
      OneEdge(pre, tree, i);
    }
  }

  lemma RecolouredAgrees(files: Files, pre: seq<FileId>, tree: seq<(FileId, FileId)>, h: FileId)
    requires IsTree(pre, tree) && (h == pre[0] || UnderUnversioned(files, tree, h))
    requires forall e :: e in tree ==> VersionsAgree(files, e)
    ensures forall e :: e in tree ==> VersionsAgree(Recoloured(files, Kin(files, tree, h)), e)
  {
    hide Recoloured, Kin, IsTree;
    var mixed := Recoloured(files, Kin(files, tree, h));
    forall e | e in tree ensures VersionsAgree(mixed, e) {
      var i :| 0 <= i < |tree| && tree[i] == e;
      assert VersionsAgree(files, e);
      if Versioned(files, e.0) && Versioned(files, e.1) { KinAlongEdge(files, pre, tree, h, i); }
    }
  }

  lemma TwoHeadsCanDiffer(files: Files, root: FileId, h: FileId, other: FileId) returns (mixed: Files)
    requires Succeeds(files, root) && Head(files, root, h) && Head(files, root, other) && h != other
    ensures SameDeclarers(files, mixed) && Succeeds(mixed, root) && !VersionsAllAgree(mixed, root)
  {
    hide Enter, Kin, Recoloured, IsTree, Succeeds;
    SucceedsIff(files, root);
    SucceedsVisit(files, root);
    EnterIsTree(files, root, {}, {});
    var v := Enter(files, root, {}, {});
    assert v.tree == TreeEdges(files, root);
    var kin := Kin(files, v.tree, h);
    mixed := Recoloured(files, kin);
    SameGraph(files, mixed, root);
    RecolouredAgrees(files, v.pre, v.tree, h);
    HeadsAreNotKin(files, v.pre, v.tree, h, other);
    SameOutcome(files, mixed, root);
    assert mixed[h].spec.version == Some("1") && mixed[other].spec.version == Some("2");
    assert Head(mixed, root, h) && Head(mixed, root, other);
  }

  /** Apart from versions, what makes a run succeed is the same for the same declarers. */
  lemma SameOutcome(files: Files, other: Files, root: FileId)
    requires SameDeclarers(files, other) && Succeeds(files, root)
    requires forall e :: e in TreeEdges(other, root) ==> VersionsAgree(other, e)
    ensures Succeeds(other, root)
  {
    SucceedsIff(files, root);
    SucceedsIff(other, root);
    SameGraph(files, other, root);
    assert forall f :: Follow(files, f) == Follow(other, f);
    assert forall f :: ParsesCleanly(files, f) <==> ParsesCleanly(other, f);
    assert forall f :: OwnScope(files, f) == OwnScope(other, f);
  }

  /**
   Whatever versions the same files declare, an error-free run means that they agree: exactly if
   there is at most one head.
   */
  lemma VersionsMustAgreeIff(files: Files, root: FileId)
    requires Succeeds(files, root)
    ensures AtMostOneHead(files, root) <==>
      forall other :: SameDeclarers(files, other) && Succeeds(other, root) ==> VersionsAllAgree(other, root)
  {
    if AtMostOneHead(files, root) {
      forall other | SameDeclarers(files, other) && Succeeds(other, root) ensures VersionsAllAgree(other, root) {
        SameGraph(files, other, root);
        VersionsAgreeIffHeadsDo(other, root);
      }
    } else {
      var f, g :| Head(files, root, f) && Head(files, root, g) && f != g;
      var mixed := TwoHeadsCanDiffer(files, root, f, g);
    }
  }

  /** If every reachable file declares a version the root is the only head, and all declare the root's. */
  lemma VersionsAreTheRoots(files: Files, root: FileId)
    requires Succeeds(files, root)
    requires forall f :: Reaches(files, root, f) && f in files ==> files[f].spec.version.Some?
    ensures forall f :: Reaches(files, root, f) ==> f in files && files[f].spec.version == files[root].spec.version
  {
    hide Enter, Succeeds;
    SucceedsIff(files, root);
    SucceedsVisit(files, root);
    EnterIsTree(files, root, {}, {});
    EnterSound(files, root, {}, {});
    var v := Enter(files, root, {}, {});
    forall i | 0 <= i < |v.tree| ensures Versioned(files, v.tree[i].0) {
      assert v.tree[i].0 in ToSet(v.pre) && v.tree[i].0 in v.post;
    }
    forall f | Reaches(files, root, f) ensures f in files && files[f].spec.version == files[root].spec.version {
      assert ParsesCleanly(files, f);
      var h := HeadOver(files, root, f);
      assert TreeEdges(files, root) == v.tree;
    }
  }
}
