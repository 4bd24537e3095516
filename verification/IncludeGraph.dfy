/** What depth-first search finds in the include graph, whatever composition does with it. */
module IncludeGraph {
  import opened SpecFiles

  /** What is entered is new, is entered once, exists, and is reached from where the search began. */
  ghost predicate Sound(files: Files, from: FileId, v: Visit, seen: set<FileId>) {
    && NoDuplicates(v.post)
    && ToSet(v.post) == ToSet(v.pre)
    && forall x :: x in v.post ==> x in files && x !in seen && Reaches(files, from, x)
  }

  lemma {:induction false} EnterSound(files: Files, f: FileId, grey: set<FileId>, seen: set<FileId>)
    requires f in files && f !in seen
    ensures Sound(files, f, Enter(files, f, grey, seen), seen)
    decreases |files.Keys - seen|, 0
  {
    assert files.Keys - seen == files.Keys - (seen + {f}) + {f};
    var v := Descend(files, f, Follow(files, f), grey + {f}, seen + {f});
    DescendSound(files, f, Follow(files, f), grey + {f}, seen + {f});
    ReachesSelf(files, f);
    SoundEnter(files, f, v, seen);
  }

  lemma SoundEnter(files: Files, f: FileId, v: Visit, seen: set<FileId>)
    requires f in files && f !in seen && Reaches(files, f, f) && Sound(files, f, v, seen + {f})
    ensures Sound(files, f, Visit([f] + v.pre, v.post + [f], v.tree, v.back), seen)
  {
    assert ToSet(v.post + [f]) == ToSet(v.post) + {f};
    assert ToSet([f] + v.pre) == {f} + ToSet(v.pre);
    assert forall x :: x in v.post + [f] <==> x in v.post || x == f;
  }

  lemma {:induction false} DescendSound(
    files: Files, from: FileId, todo: seq<FileId>, grey: set<FileId>, seen: set<FileId>)
    requires forall g :: g in todo ==> g in Follow(files, from)
    ensures Sound(files, from, Descend(files, from, todo, grey, seen), seen)
    decreases |files.Keys - seen|, |todo| + 1
  {
    if todo == [] {
    } else if todo[0] in grey || todo[0] in seen || todo[0] !in files {
      DescendSound(files, from, todo[1..], grey, seen);
    } else {
      var sub := Enter(files, todo[0], grey, seen);
      EnterSound(files, todo[0], grey, seen);
      CardinalityMonotone(files.Keys - (seen + ToSet(sub.post)), files.Keys - seen);
      DescendSound(files, from, todo[1..], grey, seen + ToSet(sub.post));
      SoundConcat(files, from, todo[0], sub,
                  Descend(files, from, todo[1..], grey, seen + ToSet(sub.post)), seen);
    }
  }

  lemma SoundConcat(files: Files, from: FileId, g: FileId, sub: Visit, rest: Visit, seen: set<FileId>)
    requires g in Follow(files, from)
    requires Sound(files, g, sub, seen) && Sound(files, from, rest, seen + ToSet(sub.post))
    ensures NoDuplicates(sub.post + rest.post)
    ensures ToSet(sub.post + rest.post) == ToSet(sub.pre + rest.pre)
    ensures forall x :: x in sub.post + rest.post ==> x in files && x !in seen && Reaches(files, from, x)
  {
    ReachesSelf(files, from);
    ReachesStep(files, from, from, g);
    forall x | x in sub.post ensures Reaches(files, from, x) {
      ReachesTrans(files, from, g, x);
    }
    forall i, j | 0 <= i < |sub.post| && 0 <= j < |rest.post| ensures sub.post[i] != rest.post[j] {
      assert rest.post[j] in rest.post && sub.post[i] in ToSet(sub.post);
    }
    assert forall x :: x in sub.post <==> x in ToSet(sub.pre);
    assert forall x :: x in rest.post <==> x in ToSet(rest.pre);
  }

  /** `f` is preceded in `post` by everything it includes, save what was finished beforehand. */
  ghost predicate IncludesFirst(files: Files, post: seq<FileId>, finished: set<FileId>) {
    forall j, g :: 0 <= j < |post| && g in Follow(files, post[j]) && g in files ==>
      g in finished || g in post[..j]
  }

  /** Everything included by a file of the visit was entered by then, now or earlier. */
  ghost predicate Closed(files: Files, post: seq<FileId>, seen: set<FileId>) {
    forall f, g :: f in post && g in Follow(files, f) && g in files ==> g in seen || g in post
  }

  lemma {:induction false} EnterClosed(files: Files, f: FileId, grey: set<FileId>, seen: set<FileId>)
    requires f in files && f !in seen && grey <= seen
    ensures var v := Enter(files, f, grey, seen);
      && f in v.post
      && Closed(files, v.post, seen)
      && (v.back == [] ==> IncludesFirst(files, v.post, seen - grey))
    decreases |files.Keys - seen|, 0
  {
    assert files.Keys - seen == files.Keys - (seen + {f}) + {f};
    var inner := Descend(files, f, Follow(files, f), grey + {f}, seen + {f});
    DescendClosed(files, f, Follow(files, f), grey + {f}, seen + {f});
    var v := Enter(files, f, grey, seen);
    assert v.post == inner.post + [f];
    assert v.post[|inner.post|] == f;
    if v.back == [] {
      assert seen + {f} - (grey + {f}) == seen - grey;
      forall j, g | 0 <= j < |v.post| && g in Follow(files, v.post[j]) && g in files
        ensures g in seen - grey || g in v.post[..j]
      {
        if j < |inner.post| {
          assert v.post[..j] == inner.post[..j];
        } else {
          assert v.post[..j] == inner.post;
        }
      }
    }
  }

  lemma {:induction false} DescendClosed(
    files: Files, from: FileId, todo: seq<FileId>, grey: set<FileId>, seen: set<FileId>)
    requires grey <= seen
    ensures var v := Descend(files, from, todo, grey, seen);
      && (forall g :: g in todo && g in files ==> g in seen || g in v.post)
      && Closed(files, v.post, seen)
      && (v.back == [] ==>
          && IncludesFirst(files, v.post, seen - grey)
          && forall g :: g in todo && g in files ==> g in seen - grey || g in v.post)
    decreases |files.Keys - seen|, |todo| + 1
  {
    if todo == [] {
    } else if todo[0] in grey || todo[0] in seen || todo[0] !in files {
      DescendClosed(files, from, todo[1..], grey, seen);
    } else {
      var g := todo[0];
      var sub := Enter(files, g, grey, seen);
      EnterClosed(files, g, grey, seen);
      EnterSound(files, g, grey, seen);
      CardinalityMonotone(files.Keys - (seen + ToSet(sub.post)), files.Keys - seen);
      var rest := Descend(files, from, todo[1..], grey, seen + ToSet(sub.post));
      DescendClosed(files, from, todo[1..], grey, seen + ToSet(sub.post));
      var v := Descend(files, from, todo, grey, seen);
      if v.back == [] {
        IncludesFirstConcat(files, sub.post, rest.post, seen - grey, seen + ToSet(sub.post) - grey);
      }
    }
  }

  lemma IncludesFirstConcat(
    files: Files, a: seq<FileId>, b: seq<FileId>, finished: set<FileId>, later: set<FileId>)
    requires IncludesFirst(files, a, finished) && IncludesFirst(files, b, later)
    requires later <= finished + ToSet(a)
    ensures IncludesFirst(files, a + b, finished)
  {
    var ab := a + b;
    forall j, g | 0 <= j < |ab| && g in Follow(files, ab[j]) && g in files
      ensures g in finished || g in ab[..j]
    {
      if j < |a| {
        assert ab[..j] == a[..j];
      } else {
        assert ab[..j] == a + b[..j - |a|];
      }
    }
  }

  // ------------------------------------------------------------------ back edges are the cycles

  /** The files still being visited all lead to `from`. */
  ghost predicate GreyLeadsTo(files: Files, grey: set<FileId>, from: FileId) {
    forall h :: h in grey ==> Reaches(files, h, from)
  }

  lemma {:induction false} EnterBackEdges(
    files: Files, root: FileId, f: FileId, grey: set<FileId>, seen: set<FileId>)
    requires f in files && f !in seen && Reaches(files, root, f)
    requires GreyLeadsTo(files, grey, f)
    requires Enter(files, f, grey, seen).back != []
    ensures HasCycle(files, root)
    decreases |files.Keys - seen|, 0
  {
    assert files.Keys - seen == files.Keys - (seen + {f}) + {f};
    ReachesSelf(files, f);
    DescendBackEdges(files, root, f, Follow(files, f), grey + {f}, seen + {f});
  }

  lemma {:induction false} DescendBackEdges(
    files: Files, root: FileId, from: FileId, todo: seq<FileId>, grey: set<FileId>, seen: set<FileId>)
    requires Reaches(files, root, from) && GreyLeadsTo(files, grey, from)
    requires forall g :: g in todo ==> g in Follow(files, from)
    requires Descend(files, from, todo, grey, seen).back != []
    ensures HasCycle(files, root)
    decreases |files.Keys - seen|, |todo| + 1
  {
    if todo == [] {
    } else if todo[0] in grey {
      assert todo[0] in Follow(files, from) && Reaches(files, todo[0], from);
    } else if todo[0] in seen || todo[0] !in files {
      DescendBackEdges(files, root, from, todo[1..], grey, seen);
    } else {
      var g := todo[0];
      var sub := Enter(files, g, grey, seen);
      CardinalityMonotone(files.Keys - (seen + ToSet(sub.post)), files.Keys - seen);
      if sub.back != [] {
        ReachesStep(files, root, from, g);
        forall h | h in grey ensures Reaches(files, h, g) { ReachesStep(files, h, from, g); }
        EnterBackEdges(files, root, g, grey, seen);
      } else {
        DescendBackEdges(files, root, from, todo[1..], grey, seen + ToSet(sub.post));
      }
    }
  }

  /** In an order where includes come first, a walk only goes down. */
  lemma {:induction false} WalkGoesDown(files: Files, post: seq<FileId>, p: seq<FileId>, i: nat)
    requires IncludesFirst(files, post, {}) && NoDuplicates(post)
    requires forall x, g :: x in post && g in Follow(files, x) ==> g in files
    requires Walk(files, p) && i < |post| && post[i] == p[0]
    ensures exists j :: 0 <= j <= i && post[j] == p[|p| - 1]
    decreases |p|
  {
    if |p| == 1 {
      assert post[i] == p[|p| - 1];
    } else {
      assert post[i] in post && p[0 + 1] in Follow(files, post[i]) && p[1] in files;
      assert p[1] in post[..i];
      var k :| 0 <= k < |post[..i]| && post[..i][k] == p[1];
      assert Walk(files, p[1..]) by {
        forall m | 0 <= m < |p[1..]| - 1 ensures p[1..][m + 1] in Follow(files, p[1..][m]) {
          assert p[m + 1 + 1] in Follow(files, p[m + 1]);
        }
      }
      WalkGoesDown(files, post, p[1..], k);
      var j :| 0 <= j <= k && post[j] == p[1..][|p| - 2];
      assert post[j] == p[|p| - 1];
    }
  }

  /** Depth-first search from the root enters exactly the reachable files. */
  lemma {:induction false} SearchIsReachability(files: Files, root: FileId)
    requires root in files
    requires forall f, g :: f in Enter(files, root, {}, {}).post && g in Follow(files, f) ==> g in files
    ensures forall f :: f in Enter(files, root, {}, {}).post <==> Reaches(files, root, f)
  {
    EnterSound(files, root, {}, {});
    EnterClosed(files, root, {}, {});
    forall f | Reaches(files, root, f) ensures f in Enter(files, root, {}, {}).post {
      var p :| WalkBetween(files, p, root, f);
      WalkStaysInside(files, Enter(files, root, {}, {}).post, p);
    }
  }

  lemma {:induction false} WalkStaysInside(files: Files, post: seq<FileId>, p: seq<FileId>)
    requires Closed(files, post, {})
    requires forall f, g :: f in post && g in Follow(files, f) ==> g in files
    requires Walk(files, p) && p[0] in post
    ensures p[|p| - 1] in post
    decreases |p|
  {
    if |p| > 1 {
      assert p[1] in Follow(files, p[0]);
      assert Walk(files, p[1..]) by {
        forall m | 0 <= m < |p[1..]| - 1 ensures p[1..][m + 1] in Follow(files, p[1..][m]) {
          assert p[m + 1 + 1] in Follow(files, p[m + 1]);
        }
      }
      WalkStaysInside(files, post, p[1..]);
    }
  }

  /** A search meets a back edge exactly when a cycle is reachable. */
  lemma {:induction false} BackEdgeIffCycle(files: Files, root: FileId)
    requires root in files
    requires forall f, g :: f in Enter(files, root, {}, {}).post && g in Follow(files, f) ==> g in files
    ensures Enter(files, root, {}, {}).back != [] <==> HasCycle(files, root)
  {
    var v := Enter(files, root, {}, {});
    if v.back != [] {
      ReachesSelf(files, root);
      EnterBackEdges(files, root, root, {}, {});
    } else {
      assert IncludesFirst(files, v.post, {}) by {
        var none: set<FileId> := {};
        assert none - none == none;
        EnterClosed(files, root, {}, {});
      }
      assert NoDuplicates(v.post) by { EnterSound(files, root, {}, {}); }
      forall f, g | Reaches(files, root, f) && g in Follow(files, f) ensures !Reaches(files, g, f) {
        assert f in v.post by { SearchIsReachability(files, root); }
        NoWayBack(files, v.post, f, g);
      }
    }
  }

  lemma {:induction false} NoWayBack(files: Files, post: seq<FileId>, f: FileId, g: FileId)
    requires IncludesFirst(files, post, {}) && NoDuplicates(post)
    requires forall x, y :: x in post && y in Follow(files, x) ==> y in files
    requires f in post && g in Follow(files, f)
    ensures !Reaches(files, g, f)
  {
    var i :| 0 <= i < |post| && post[i] == f;
    assert post[i] in post && g in Follow(files, post[i]) && g in files;
    assert g in post[..i];
    var k :| 0 <= k < i && post[k] == g;
    if Reaches(files, g, f) {
      var p :| WalkBetween(files, p, g, f);
      WalkGoesDown(files, post, p, k);
      assert false;
    }
  }
}
