/** The index over a central directory: a heap sort of the record numbers by lower-cased name. */
module NameIndex {
  import opened Words
  import opened NameOrder
  import opened Permutations

  /** x does not come after y. */
  ghost predicate Le(keys: seq<seq<Byte>>, x: nat, y: nat) {
    x < |keys| && y < |keys| && !LexLess(keys[y], keys[x])
  }

  lemma LeOrder(keys: seq<seq<Byte>>)
    ensures forall x: nat, y: nat :: x < |keys| && y < |keys| ==> Le(keys, x, y) || Le(keys, y, x)
    ensures forall x: nat, y: nat, z: nat :: Le(keys, x, y) && Le(keys, y, z) ==> Le(keys, x, z)
  {
    forall x: nat, y: nat | x < |keys| && y < |keys| ensures Le(keys, x, y) || Le(keys, y, x) {
      LexTrichotomy(keys[x], keys[y]);
    }
    forall x: nat, y: nat, z: nat | Le(keys, x, y) && Le(keys, y, z) ensures Le(keys, x, z) {
      LeTransitive(keys, x, y, z);
    }
  }

  lemma LeTransitive(keys: seq<seq<Byte>>, x: nat, y: nat, z: nat)
    requires Le(keys, x, y) && Le(keys, y, z)
    ensures Le(keys, x, z)
  {
    if LexLess(keys[z], keys[x]) {
      LexTrichotomy(keys[y], keys[x]);
      LexTrichotomy(keys[z], keys[y]);
      if keys[x] != keys[y] {
        LexTransitive(keys[z], keys[x], keys[y]);
      }
    }
  }

  ghost predicate Indices(keys: seq<seq<Byte>>, s: seq<nat>) {
    forall i :: 0 <= i < |s| ==> s[i] < |keys|
  }

  function Parent(c: nat): nat
    requires c > 0
  {
    (c - 1) / 2
  }

  /** From position lo on, no entry of the first n comes after its parent. */
  ghost predicate Heap(keys: seq<seq<Byte>>, s: seq<nat>, lo: nat, n: nat) {
    n <= |s| && forall c: nat :: 0 < c < n && Parent(c) >= lo ==> Le(keys, s[c], s[Parent(c)])
  }

  /** A heap except that the entry at root may be too small. */
  ghost predicate Sinking(keys: seq<seq<Byte>>, s: seq<nat>, lo: nat, n: nat, root: nat) {
    && lo <= root < n <= |s|
    && (forall c: nat :: 0 < c < n && Parent(c) >= lo && Parent(c) != root ==> Le(keys, s[c], s[Parent(c)]))
    && (root > 0 && Parent(root) >= lo ==>
          forall c: nat :: 0 < c < n && Parent(c) == root ==> Le(keys, s[c], s[Parent(root)]))
  }

  lemma SinkStep(keys: seq<seq<Byte>>, s: seq<nat>, lo: nat, n: nat, root: nat, child: nat)
    requires Sinking(keys, s, lo, n, root) && Indices(keys, s) && Largest(keys, s, n, root, child)
    requires Le(keys, s[root], s[child])
    ensures Sinking(keys, Swapped(s, root, child), lo, n, child)
  {
    hide Le;
    LeOrder(keys);
    var t := Swapped(s, root, child);
    forall c: nat | 0 < c < n && Parent(c) >= lo && Parent(c) != child ensures Le(keys, t[c], t[Parent(c)]) {
      if Parent(c) == root {
      } else if c == root {
        assert Le(keys, s[child], s[Parent(root)]);
      }
    }
  }

  lemma SinkDone(keys: seq<seq<Byte>>, s: seq<nat>, lo: nat, n: nat, root: nat)
    requires Sinking(keys, s, lo, n, root) && Indices(keys, s)
    requires forall c: nat :: 0 < c < n && Parent(c) == root ==> Le(keys, s[c], s[root])
    ensures Heap(keys, s, lo, n)
  {
    hide Le;
  }

  ghost predicate KeysOf(keys: seq<seq<Byte>>, dir: Directory) {
    WellFormed(dir) && keys == Keys(dir)
  }

  ghost predicate Largest(keys: seq<seq<Byte>>, s: seq<nat>, n: nat, root: nat, child: nat) {
    && 0 < child < n <= |s| && Parent(child) == root
    && forall c: nat :: 0 < c < n && Parent(c) == root ==> Le(keys, s[c], s[child])
  }

  /** The larger child of the entry at root. */
  method LargerChild(dir: Directory, a: array<nat>, root: nat, n: nat, ghost keys: seq<seq<Byte>>) returns (child: nat)
    requires KeysOf(keys, dir) && Indices(keys, a[..]) && 2 * root + 1 < n <= a.Length
    ensures Largest(keys, a[..], n, root, child)
  {
    hide Le, LexLess, WellFormed, Largest;
    child := 2 * root + 1;
    if child + 1 < n {
      var less := FilenameLess(dir, a[child], a[child + 1]);
      Compared(keys, dir, a[child], a[child + 1]);
      if less {
        child := child + 1;
      }
    }
    ChildIsLargest(keys, a[..], n, root, child);
  }

  /** The inner loop of the sort: the entry at root sinks to its place among the first n. */
  method SiftDown(dir: Directory, a: array<nat>, start: nat, n: nat, ghost keys: seq<seq<Byte>>)
    requires KeysOf(keys, dir) && Indices(keys, a[..]) && start < n <= a.Length && Heap(keys, a[..], start + 1, n)
    modifies a
    ensures Indices(keys, a[..]) && Heap(keys, a[..], start, n)
    ensures a[n..] == old(a[n..]) && multiset(a[..n]) == multiset(old(a[..n]))
  {
    hide Le, LexLess, WellFormed, Sinking, Heap, Largest, Parent;
    var root := start;
    ghost var outside := a[n..];
    SinkStart(keys, a[..], start, n);
    while true
      invariant root < n && Indices(keys, a[..]) && Sinking(keys, a[..], start, n, root)
      invariant a[n..] == outside && multiset(a[..n]) == multiset(old(a[..n]))
      decreases n - root
    {
      ghost var s := a[..];
      if 2 * root + 1 >= n {
        SinkAtLeaf(keys, s, start, n, root);
        return;
      }
      var child := LargerChild(dir, a, root, n, keys);
      ChildBelow(keys, s, n, root, child);
      var less := FilenameLess(dir, a[root], a[child]);
      Compared(keys, dir, a[root], a[child]);
      if !less {
        SinkFinal(keys, s, start, n, root, child);
        return;
      }
      SinkStep(keys, s, start, n, root, child);
      SwapWithin(s, n, root, child);
      Swap(a, root, child);
      root := child;
    }
  }

  lemma SinkStart(keys: seq<seq<Byte>>, s: seq<nat>, start: nat, n: nat)
    requires Heap(keys, s, start + 1, n) && start < n
    ensures Sinking(keys, s, start, n, start)
  {
  }

  lemma SinkAtLeaf(keys: seq<seq<Byte>>, s: seq<nat>, lo: nat, n: nat, root: nat)
    requires Sinking(keys, s, lo, n, root) && Indices(keys, s) && 2 * root + 1 >= n
    ensures Heap(keys, s, lo, n)
  {
    SinkDone(keys, s, lo, n, root);
  }

  lemma ChildBelow(keys: seq<seq<Byte>>, s: seq<nat>, n: nat, root: nat, child: nat)
    requires Largest(keys, s, n, root, child)
    ensures root < child < n
  {
  }

  lemma Compared(keys: seq<seq<Byte>>, dir: Directory, x: nat, y: nat)
    requires KeysOf(keys, dir) && x < |keys| && y < |keys|
    ensures LexLess(Lower(Name(dir, x)), Lower(Name(dir, y))) ==> Le(keys, x, y)
    ensures !LexLess(Lower(Name(dir, x)), Lower(Name(dir, y))) ==> Le(keys, y, x)
    ensures Le(keys, x, x)
  {
    LexTrichotomy(keys[x], keys[y]);
    LexTrichotomy(keys[x], keys[x]);
  }

  lemma ChildIsLargest(keys: seq<seq<Byte>>, s: seq<nat>, n: nat, root: nat, child: nat)
    requires Indices(keys, s) && child < n <= |s|
    requires child == 2 * root + 1 || child == 2 * root + 2
    requires child == 2 * root + 1 && child + 1 < n ==> Le(keys, s[child + 1], s[child])
    requires child == 2 * root + 2 ==> Le(keys, s[child - 1], s[child])
    ensures Largest(keys, s, n, root, child)
  {
    LeOrder(keys);
  }

  lemma SinkFinal(keys: seq<seq<Byte>>, s: seq<nat>, lo: nat, n: nat, root: nat, child: nat)
    requires Sinking(keys, s, lo, n, root) && Indices(keys, s) && Largest(keys, s, n, root, child)
    requires Le(keys, s[child], s[root])
    ensures Heap(keys, s, lo, n)
  {
    hide Le;
    LeOrder(keys);
    SinkDone(keys, s, lo, n, root);
  }

  lemma SwapWithin(s: seq<nat>, n: nat, i: nat, j: nat)
    requires i < n && j < n <= |s|
    ensures Swapped(s, i, j)[..n] == Swapped(s[..n], i, j) && Swapped(s, i, j)[n..] == s[n..]
    ensures multiset(Swapped(s, i, j)[..n]) == multiset(s[..n])
  {
    SwapPermutes(s[..n], i, j);
    assert Swapped(s, i, j)[..n] == Swapped(s[..n], i, j);
  }

  /** The root of a heap is its largest entry. */
  lemma {:induction false} RootIsLargest(keys: seq<seq<Byte>>, s: seq<nat>, n: nat, k: nat)
    requires Heap(keys, s, 0, n) && Indices(keys, s) && k < n
    ensures Le(keys, s[k], s[0])
  {
    if k == 0 {
      LeOrder(keys);
    } else {
      RootIsLargest(keys, s, n, Parent(k));
      LeTransitive(keys, s[k], s[Parent(k)], s[0]);
    }
  }

  /** Entries from position m on are sorted, and nothing before them comes after any of them. */
  ghost predicate SortedFrom(keys: seq<seq<Byte>>, s: seq<nat>, m: nat) {
    m <= |s| && forall i, j :: 0 <= i < j < |s| && m <= j ==> Le(keys, s[i], s[j])
  }

  lemma SwapSorted(keys: seq<seq<Byte>>, s: seq<nat>, end: nat)
    requires Heap(keys, s, 0, end + 1) && Indices(keys, s) && SortedFrom(keys, s, end + 1)
    ensures SortedFrom(keys, Swapped(s, end, 0), end) && Heap(keys, Swapped(s, end, 0), 1, end)
    ensures Indices(keys, Swapped(s, end, 0))
  {
    hide Le;
    var t := Swapped(s, end, 0);
    forall i, j | 0 <= i < j < |t| && end <= j ensures Le(keys, t[i], t[j]) {
      if j == end {
        RootIsLargest(keys, s, end + 1, if i == 0 then end else i);
      }
    }
  }

  /** Sifting down below m rearranges only entries that are all bounded by what follows. */
  lemma SiftSorted(keys: seq<seq<Byte>>, s: seq<nat>, t: seq<nat>, m: nat)
    requires SortedFrom(keys, s, m) && |t| == |s| && t[m..] == s[m..] && multiset(t[..m]) == multiset(s[..m])
    ensures SortedFrom(keys, t, m) && multiset(t) == multiset(s)
  {
    hide Le;
    assert t == t[..m] + t[m..] && s == s[..m] + s[m..];
    forall i, j | 0 <= i < j < |t| && m <= j ensures Le(keys, t[i], t[j]) {
      assert t[j] == t[m..][j - m] == s[m..][j - m] == s[j];
      if i >= m {
        assert t[i] == t[m..][i - m] == s[m..][i - m] == s[i];
      } else {
        assert t[i] == t[..m][i];
        assert t[i] in multiset(s[..m]);
        var k :| 0 <= k < m && s[..m][k] == t[i];
        assert s[k] == t[i];
      }
    }
  }

  /** mz_zip_reader_sort_central_dir_offsets_by_filename: the record numbers end up in the order of their
      lower-cased names. */
  method SortByFilename(dir: Directory, a: array<nat>)
    requires WellFormed(dir) && a.Length == |dir.offsets| && forall i :: 0 <= i < a.Length ==> a[i] < a.Length
    modifies a
    ensures multiset(a[..]) == multiset(old(a[..]))
    ensures Indices(Keys(dir), a[..]) && SortedFrom(Keys(dir), a[..], 0)
  {
    hide Le, WellFormed, Heap;
    ghost var keys := Keys(dir);
    var size := a.Length;
    if size <= 1 {
      return;
    }
    var start: nat := (size - 2) / 2;
    LeavesAreHeaps(keys, a[..], start + 1);
    while true
      invariant start < size && Indices(keys, a[..]) && Heap(keys, a[..], start + 1, size)
      invariant multiset(a[..]) == multiset(old(a[..]))
      decreases start
    {
      ghost var s := a[..];
      SiftDown(dir, a, start, size, keys);
      assert a[..] == a[..size] && s == s[..size];
      if start == 0 {
        break;
      }
      start := start - 1;
    }
    var end: nat := size - 1;
    while end > 0
      invariant end < size && Indices(keys, a[..]) && Heap(keys, a[..], 0, end + 1) && SortedFrom(keys, a[..], end + 1)
      invariant multiset(a[..]) == multiset(old(a[..]))
    {
      SwapSorted(keys, a[..], end);
      Swap(a, end, 0);
      ghost var s := a[..];
      SiftDown(dir, a, 0, end, keys);
      SiftSorted(keys, s, a[..], end);
      end := end - 1;
    }
    AllSorted(keys, a[..]);
  }

  lemma LeavesAreHeaps(keys: seq<seq<Byte>>, s: seq<nat>, lo: nat)
    requires 2 * lo + 1 >= |s|
    ensures Heap(keys, s, lo, |s|)
  {
  }

  lemma AllSorted(keys: seq<seq<Byte>>, s: seq<nat>)
    requires SortedFrom(keys, s, 1)
    ensures SortedFrom(keys, s, 0)
  {
  }
}
