/** Small facts about arrays and sets. */
module Collections {

  /** memset, for arrays of any kind. */
  method Clear<T>(a: array<T>, zero: T)
    modifies a
    ensures forall i :: 0 <= i < a.Length ==> a[i] == zero
  {
    var i := 0;
    while i < a.Length
      invariant 0 <= i <= a.Length && forall k :: 0 <= k < i ==> a[k] == zero
    {
      a[i] := zero;
      i := i + 1;
    }
  }

  lemma SubsetSize<T>(a: set<T>, b: set<T>)
    requires a <= b
    ensures |a| <= |b|
  {
    assert b == a + (b - a);
  }
}
