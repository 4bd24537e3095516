/** Digits, indentation, and finding a character in a string. */
module Strings {
  import opened Options

  predicate IsDigit(c: char) { '0' <= c <= '9' }

  /** Two spaces for each level. */
  function Indent(n: nat): string {
    if n == 0 then "" else "  " + Indent(n - 1)
  }

  /** The first position of a character at `pos` or later. */
  function NextFrom(s: string, c: char, pos: nat): (r: Option<nat>)
    requires pos <= |s|
    ensures r.Some? ==> pos <= r.value < |s| && s[r.value] == c && forall k :: pos <= k < r.value ==> s[k] != c
    ensures r.None? ==> forall k :: pos <= k < |s| ==> s[k] != c
    decreases |s| - pos
  {
    if pos == |s| then None
    else if s[pos] == c then Some(pos)
    else NextFrom(s, c, pos + 1)
  }

  function IndexOf(s: string, c: char): (r: Option<nat>)
    ensures r.Some? ==> r.value < |s| && s[r.value] == c && c !in s[..r.value]
    ensures r.None? <==> c !in s
  {
    NextFrom(s, c, 0)
  }

  lemma IndexOfFirst(a: string, b: string, c: char)
    requires c !in a
    ensures IndexOf(a + [c] + b, c) == Some(|a|)
  {
    var s := a + [c] + b;
    assert s[|a|] == c;
    assert forall k :: 0 <= k < |a| ==> s[k] == a[k];
  }

  method FindChar(s: string, c: char, pos: nat) returns (r: Option<nat>)
    requires pos <= |s|
    ensures r == NextFrom(s, c, pos)
  {
    for i := pos to |s|
      invariant NextFrom(s, c, pos) == NextFrom(s, c, i)
    {
      if s[i] == c { return Some(i); }
    }
    return None;
  }
}
