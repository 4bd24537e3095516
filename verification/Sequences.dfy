/** Filtering and flattening, and what they do to the number of occurrences of an element. */
module Sequences {
  function Filter<T>(p: T -> bool, s: seq<T>): seq<T> {
    if s == [] then []
    else (if p(s[0]) then [s[0]] else []) + Filter(p, s[1..])
  }

  lemma {:induction false} FilterConcat<T>(p: T -> bool, a: seq<T>, b: seq<T>)
    ensures Filter(p, a + b) == Filter(p, a) + Filter(p, b)
  {
    if a == [] {
      assert a + b == b;
    } else {
      var first := if p(a[0]) then [a[0]] else [];
      assert (a + b)[1..] == a[1..] + b;
      FilterConcat(p, a[1..], b);
      assert Filter(p, a + b) == first + Filter(p, a[1..] + b);
      Assoc(first, Filter(p, a[1..]), Filter(p, b));
    }
  }

  lemma Assoc<T>(a: seq<T>, b: seq<T>, c: seq<T>)
    ensures a + (b + c) == (a + b) + c
  {
  }

  lemma FilterSnoc<T>(p: T -> bool, s: seq<T>, x: T)
    ensures Filter(p, s + [x]) == if p(x) then Filter(p, s) + [x] else Filter(p, s)
  {
    FilterConcat(p, s, [x]);
    assert [x][1..] == [];
  }

  lemma FilterTake<T>(p: T -> bool, s: seq<T>, i: nat)
    requires i < |s|
    ensures Filter(p, s[..i + 1]) == if p(s[i]) then Filter(p, s[..i]) + [s[i]] else Filter(p, s[..i])
  {
    FilterSnoc(p, s[..i], s[i]);
    assert s[..i + 1] == s[..i] + [s[i]];
  }

  lemma {:induction false} FilterCount<T>(p: T -> bool, s: seq<T>, x: T)
    ensures multiset(Filter(p, s))[x] == if p(x) then multiset(s)[x] else 0
  {
    if s != [] {
      assert s == [s[0]] + s[1..];
      FilterCount(p, s[1..], x);
    }
  }

  lemma {:induction false} FilterCounts<T>(p: T -> bool, s: seq<T>)
    ensures forall x :: multiset(Filter(p, s))[x] == if p(x) then multiset(s)[x] else 0
  {
    forall x ensures multiset(Filter(p, s))[x] == if p(x) then multiset(s)[x] else 0 {
      FilterCount(p, s, x);
    }
  }

  lemma {:induction false} InFilter<T>(p: T -> bool, s: seq<T>)
    ensures forall x :: x in Filter(p, s) <==> x in s && p(x)
  {
    if s != [] {
      assert s == [s[0]] + s[1..];
      InFilter(p, s[1..]);
    }
  }

  function Flat<T>(parts: seq<seq<T>>): seq<T> {
    if parts == [] then [] else parts[0] + Flat(parts[1..])
  }

  lemma {:induction false} FlatSnoc<T>(parts: seq<seq<T>>, part: seq<T>)
    ensures Flat(parts + [part]) == Flat(parts) + part
  {
    if parts == [] {
      assert [part][1..] == [];
    } else {
      assert (parts + [part])[1..] == parts[1..] + [part];
      FlatSnoc(parts[1..], part);
    }
  }

  lemma {:induction false} FlatUpdate<T>(parts: seq<seq<T>>, i: nat, x: T)
    requires i < |parts|
    ensures multiset(Flat(parts[i := parts[i] + [x]])) == multiset(Flat(parts)) + multiset{x}
  {
    var next := parts[i := parts[i] + [x]];
    if i == 0 {
      assert next[1..] == parts[1..];
    } else {
      assert next[1..] == parts[1..][i - 1 := parts[1..][i - 1] + [x]];
      FlatUpdate(parts[1..], i - 1, x);
    }
  }
}
