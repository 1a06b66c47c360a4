/** Rearranging sequences and arrays. */
module Permutations {

  /** An element of a permuted sequence can be found there and taken out. */
  lemma FindElement<T>(s: seq<T>, x: T, t: seq<T>) returns (a: seq<T>, b: seq<T>)
    requires multiset(s) + multiset{x} == multiset(t)
    ensures t == a + [x] + b && multiset(s) == multiset(a + b)
  {
    assert x in multiset(t);
    var i :| 0 <= i < |t| && t[i] == x;
    a, b := t[..i], t[i + 1..];
    assert t == a + [x] + b;
    assert multiset(t) == multiset(a) + multiset{x} + multiset(b);
    assert multiset(a + b) == multiset(t) - multiset{x};
    assert multiset(s) == multiset(t) - multiset{x};
  }

  function Swapped<T>(s: seq<T>, i: nat, j: nat): (r: seq<T>)
    requires i < |s| && j < |s|
  {
    s[i := s[j]][j := s[i]]
  }

  lemma SwapPermutes<T>(s: seq<T>, i: nat, j: nat)
    requires i < |s| && j < |s|
    ensures multiset(Swapped(s, i, j)) == multiset(s)
  {
    var t := s[i := s[j]];
    assert multiset(t) == multiset(s) - multiset{s[i]} + multiset{s[j]};
    assert multiset(t[j := s[i]]) == multiset(t) - multiset{t[j]} + multiset{s[i]};
    assert t[j] == s[j];
  }

  method Swap<T>(a: array<T>, i: nat, j: nat)
    requires i < a.Length && j < a.Length
    modifies a
    ensures a[..] == Swapped(old(a[..]), i, j) && multiset(a[..]) == multiset(old(a[..]))
  {
    ghost var s := a[..];
    SwapPermutes(s, i, j);
    a[i], a[j] := a[j], a[i];
    assert a[..] == Swapped(s, i, j);
  }
}
