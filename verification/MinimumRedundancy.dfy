/** The in-place Moffat-Katajainen computation of Huffman code lengths. */
module MinimumRedundancy {
  import opened Words
  import opened Sums
  import opened MergeTree
  import opened HuffmanTree
  import opened HuffmanOptimal

  lemma U16Id(x: nat)
    requires x <= 0xFFFF
    ensures U16(x) == x
  {
  }

  lemma U16Sum(a: nat, b: nat)
    requires a + b <= 0xFFFF
    ensures U16(U16(0 + a) + b) == a + b
  {
  }

  /** How the first pass packs its two queues and the parent links into one array: parents of the
      consumed nodes, then weights of the waiting nodes, then (after a gap) the waiting leaves. */
  ghost predicate Packed(s: seq<nat>, f: seq<nat>, root: nat, w: seq<nat>, leaf: nat, par: seq<nat>) {
    && |par| == root <= |w| <= leaf && |w| <= |s| && |f| <= |s|
    && (forall i :: 0 <= i < root ==> s[i] == par[i])
    && (forall i :: root <= i < |w| ==> s[i] == w[i])
    && (forall k :: leaf <= k < |f| ==> s[k] == f[k])
  }

  lemma PackedPush(s: seq<nat>, f: seq<nat>, root: nat, w: seq<nat>, leaf: nat, par: seq<nat>, x: nat)
    requires Packed(s, f, root, w, leaf, par) && |w| < leaf && |w| < |s| && s[|w|] == x
    ensures Packed(s, f, root, w + [x], leaf, par)
  {
  }

  lemma {:induction false} PositiveSum(f: seq<nat>)
    requires forall i :: 0 <= i < |f| ==> f[i] >= 1
    ensures |f| <= Sum(f)
  {
    if f != [] {
      PositiveSum(f[..|f| - 1]);
    }
  }

  lemma FirstMerge(f: seq<nat>)
    requires |f| >= 2 && Sorted(f) && forall i :: 0 <= i < |f| ==> f[i] >= 1
    ensures Queues(f, [0, 0], [f[0] + f[1]], [f[1]])
  {
    var w: seq<nat>, ic: seq<nat>, h: seq<nat> := [f[0] + f[1]], [0, 0], [f[1]];
    assert f[0..2] == [f[0], f[1]];
    SumTwo(f[0], f[1]);
    assert w[0..0] == [];
    assert ChildSums(|f|, ic, f, w, w, 0);
    assert Greedy(|f|, ic, f, w, h, 0);
  }

  lemma FirstSum(f: seq<nat>)
    requires |f| >= 2
    ensures f[0] + f[1] <= Sum(f)
  {
    SumSplit(f, 2);
    assert f[..2] == [f[0], f[1]];
    SumTwo(f[0], f[1]);
  }

  lemma FirstParents(n: nat)
    requires n >= 2
    ensures Parents(n, [0, 0], [])
  {
  }

  /** `par'` records `next` as the parent of the nodes consumed since `par`. */
  ghost predicate Adopts(par: seq<nat>, par': seq<nat>, next: nat) {
    par <= par' && forall i :: |par| <= i < |par'| ==> par'[i] == next
  }

  /** What one iteration of the first pass does to the two queues. */
  lemma IterationStep(f: seq<nat>, ic: seq<nat>, w: seq<nat>, h: seq<nat>, par: seq<nat>, par1: seq<nat>,
      par2: seq<nat>,
      a: nat, b: nat, leaf1: nat, root1: nat, leaf2: nat, root2: nat)
    returns (ic': seq<nat>, w': seq<nat>, h': seq<nat>)
    requires Queues(f, ic, w, h) && |w| < |f| - 1 && Parents(|f|, ic, par) && Sum(f) <= 0xFFFF
    requires 0 <= Lc(ic, |w|) && Pick(f, Lc(ic, |w|), w, ic[|w|], a, leaf1, root1)
    requires Pick(f, leaf1, w, root1, b, leaf2, root2)
    requires Adopts(par, par1, |w|) && Adopts(par1, par2, |w|) && |par2| == root2
    ensures a + b <= 0xFFFF && w' == w + [a + b]
    ensures |ic'| == |w'| + 1 && ic'[|w'|] == root2 <= |w| && Lc(ic', |w'|) == leaf2 <= |f|
    ensures Queues(f, ic', w', h') && Parents(|f|, ic', par2)
  {
    ic', w', h' := ic + [root2], w + [a + b], h + [b];
    var leaf, root := Lc(ic, |w|), ic[|w|];
    QueuedTotal(f, ic, w, h);
    MergeWithinTotal(f, w, leaf, root, a, b, leaf1, root1, leaf2, root2);
    MergeStep(f, ic, w, h, leaf, root, a, b, leaf1, root1, leaf2, root2);
    PickBounds(f, leaf, w, root, a, b, leaf1, root1, leaf2, root2);
    assert History(|f|, ic');
    hide Queues, Pick;
    assert Parents(|f|, ic', par2);
  }

  /** Half an iteration of the first pass: add the smaller queue head to `acc` in slot `next`; a consumed
      node's slot then holds its parent. */
  method TakeHead(A: array<nat>, n: int, next: int, root: nat, leaf: nat, acc: nat, ghost f: seq<nat>,
      ghost w: seq<nat>, ghost par: seq<nat>)
    returns (root': nat, leaf': nat, ghost x: nat, ghost par': seq<nat>)
    requires n == |f| <= A.Length && n <= 0xFFFF && |w| == next < n - 1
    requires root <= next < leaf <= n && (leaf < n || root < next)
    requires Packed(A[..], f, root, w, leaf, par)
    modifies A
    ensures Pick(f, leaf, w, root, x, leaf', root')
    ensures A[next] == U16(acc + x)
    ensures Adopts(par, par', next)
    ensures Packed(A[..], f, root', w, leaf', par')
  {
    if leaf >= n || (root < next && A[root] < A[leaf]) {
      x, par' := w[root], par + [next];
      A[next] := U16(acc + A[root]);
      A[root] := U16(next);
      root', leaf' := root + 1, leaf;
    } else {
      x, par' := f[leaf], par;
      A[next] := U16(acc + A[leaf]);
      root', leaf' := root, leaf + 1;
    }
  }

  /** One iteration of the first pass, which forms node `next`. */
  method FormNode(A: array<nat>, n: int, next: int, root: nat, leaf: nat,
      ghost f: seq<nat>, ghost ic: seq<nat>, ghost w: seq<nat>, ghost h: seq<nat>, ghost par: seq<nat>)
    returns (root': nat, leaf': nat, ghost ic': seq<nat>, ghost w': seq<nat>, ghost h': seq<nat>, ghost par': seq<nat>)
    requires n == |f| <= A.Length && n <= 0xFFFF && |w| == next < n - 1 && Sum(f) <= 0xFFFF
    requires Queues(f, ic, w, h) && Parents(n, ic, par) && |ic| == next + 1
    requires root == ic[next] && leaf == Lc(ic, next) && root < next < leaf <= n
    requires Packed(A[..], f, root, w, leaf, par)
    modifies A
    ensures |w'| == next + 1 && |ic'| == next + 2
    ensures Queues(f, ic', w', h') && Parents(n, ic', par')
    ensures root' == ic'[next + 1] && leaf' == Lc(ic', next + 1) && root' < next + 1 < leaf' <= n
    ensures Packed(A[..], f, root', w', leaf', par')
  {
    hide Queues, Parents, U16, Packed;
    ghost var a, b, par1;
    var root1, leaf1;
    root1, leaf1, a, par1 := TakeHead(A, n, next, root, leaf, 0, f, w, par);
    root', leaf', b, par' := TakeHead(A, n, next, root1, leaf1, A[next], f, w, par1);
    ic', w', h' := IterationStep(f, ic, w, h, par, par1, par', a, b, leaf1, root1, leaf', root');
    U16Sum(a, b);
    PackedPush(A[..], f, root', w, leaf', par', a + b);
  }

  /** First pass: replaces the weights of consumed nodes by parent links. No 16-bit store wraps. */
  method BuildTree(A: array<nat>, n: int, ghost f: seq<nat>)
    returns (ghost ic: seq<nat>, ghost w: seq<nat>, ghost h: seq<nat>, ghost par: seq<nat>)
    requires 2 <= n == |f| <= A.Length
    requires forall i :: 0 <= i < n ==> A[i] == f[i] >= 1
    requires Sorted(f) && Sum(f) <= 0xFFFF
    modifies A
    ensures |ic| == n && |w| == n - 1 && Queues(f, ic, w, h) && Parents(n, ic, par)
    ensures Packed(A[..], f, n - 2, w, n, par)
  {
    hide Queues, Parents;
    FirstMerge(f);
    FirstSum(f);
    FirstParents(n);
    PositiveSum(f);
    A[0] := U16(A[0] + A[1]);
    var root, leaf, next := 0, 2, 1;
    ic, w, h, par := [0, 0], [f[0] + f[1]], [f[1]], [];
    assert Packed(A[..], f, root, w, leaf, par);
    hide Packed;
    while next < n - 1
      invariant 1 <= next <= n - 1 && |w| == next && |ic| == next + 1
      invariant Queues(f, ic, w, h) && Parents(n, ic, par)
      invariant root == ic[next] && leaf == Lc(ic, next) && root < next < leaf <= n
      invariant Packed(A[..], f, root, w, leaf, par)
    {
      root, leaf, ic, w, h, par := FormNode(A, n, next, root, leaf, f, ic, w, h, par);
      next := next + 1;
    }
  }

  /** Second pass: turns parent links into depths, from the root down. */
  method ComputeDepths(A: array<nat>, n: int, ghost par: seq<nat>) returns (ghost dep: seq<nat>)
    requires 2 <= n <= A.Length && n <= 0xFFFF && |par| == n - 2 && Upward(par)
    requires forall i :: 0 <= i < n - 2 ==> A[i] == par[i]
    modifies A
    ensures Depths(par, dep)
    ensures forall i :: 0 <= i < n - 1 ==> A[i] == dep[i]
  {
    hide U16;
    dep := MakeDepths(par);
    A[n - 2] := 0;
    var next := n - 3;
    while next >= 0
      invariant -1 <= next <= n - 3
      invariant forall i :: 0 <= i <= next ==> A[i] == par[i]
      invariant forall i :: next < i < n - 1 ==> A[i] == dep[i]
    {
      U16Id(dep[next]);
      A[next] := U16(A[A[next]] + 1);
      next := next - 1;
    }
  }

  /** The leaves of one level: `count` lengths of `dpth` from `next` down. */
  method WriteLeaves(A: array<nat>, next: int, count: nat, dpth: nat) returns (next': int)
    requires -1 <= next < A.Length && count <= next + 1 && dpth <= 0xFFFF
    modifies A
    ensures next' == next - count
    ensures forall k :: next' < k <= next ==> A[k] == dpth
    ensures forall k :: 0 <= k < A.Length && !(next' < k <= next) ==> A[k] == old(A[k])
  {
    next' := next;
    var left := count;
    while left > 0
      invariant 0 <= left <= count && next' == next - (count - left)
      invariant forall k :: next' < k <= next ==> A[k] == dpth
      invariant forall k :: 0 <= k < A.Length && !(next' < k <= next) ==> A[k] == old(A[k])
    {
      A[next'] := U16(dpth);
      next' := next' - 1;
      left := left - 1;
    }
  }

  /** The internal nodes of one level, which end at `root`. */
  method CountNodes(A: array<nat>, root0: int, dpth: int, ghost lo: int, ghost hi: int, ghost dep: seq<nat>)
    returns (used: int, root: int)
    requires 0 <= lo <= hi <= |dep| && hi <= A.Length && root0 == hi - 1
    requires (forall i :: 0 <= i < hi ==> A[i] == dep[i]) && forall i :: 0 <= i < hi ==> (dep[i] == dpth <==> lo <= i)
    ensures used == hi - lo && root == lo - 1
  {
    used, root := 0, root0;
    while root >= 0 && A[root] == dpth
      invariant lo - 1 <= root <= hi - 1 && used == hi - 1 - root
    {
      used := used + 1;
      root := root - 1;
    }
  }

  /** Third pass: overwrites the depths of the nodes by the code lengths of the leaves, level by level. */
  method AssignLengths(A: array<nat>, n: int, ghost ic: seq<nat>, ghost par: seq<nat>, ghost lp: seq<nat>,
      ghost dep: seq<nat>, ghost len: seq<nat>)
    requires 2 <= n <= A.Length && n <= 0xFFFF
    requires Complete(n, ic) && Parents(n, ic, par) && LeafParents(n, ic, lp) && |lp| == n
    requires Depths(par, dep) && |dep| == n - 1
    requires |len| == n && forall k :: 0 <= k < n ==> lp[k] < n - 1 && len[k] == 1 + dep[lp[k]]
    requires forall i :: 0 <= i < n - 1 ==> A[i] == dep[i]
    modifies A
    ensures forall k :: 0 <= k < n ==> A[k] == len[k]
  {
    CompleteCounts(n, ic);
    TopLevel(n, ic, par, dep);
    hide Parents, History, LeafParents, Depths;
    var avbl, used, dpth, root, next := 1, 0, 0, n - 2, n - 1;
    ghost var lo, hi, top := n - 2, n - 1, n - 1;
    while avbl > 0
      invariant 0 <= lo <= hi <= top < n && Level(n, ic, dep, dpth, lo, hi)
      invariant root == hi - 1 && used == 0 && 0 <= dpth && dpth + hi <= (if avbl > 0 then n - 1 else n)
      invariant next + 1 == Lc(ic, top) && Lc(ic, hi) <= next + 1 <= n
      invariant avbl == (next + 1 - Lc(ic, hi)) + (hi - lo)
      invariant forall j :: hi <= j < top ==> dep[j] + 1 == dpth
      invariant forall i :: 0 <= i < hi ==> A[i] == dep[i]
      invariant forall k :: next < k < n ==> A[k] == len[k]
      decreases hi, avbl
    {
      used, root := CountNodes(A, root, dpth, lo, hi, dep);
      NextLevel(n, ic, par, dep, dpth, lo, hi);
      HistoryMonotone(n, ic, lo, hi);
      forall k | Lc(ic, hi) <= k < Lc(ic, top) ensures len[k] == dpth {
        LeafParentRange(n, ic, lp, hi, top, k);
      }
      next := WriteLeaves(A, next, avbl - used, dpth);
      avbl := 2 * used;
      dpth := dpth + 1;
      used := 0;
      top, hi, lo := hi, lo, ic[lo];
    }
  }

  /** The lengths of an optimal prefix code for the frequencies `f`: as long as the code space allows, shorter for
      the more frequent, of least total cost, and among the lengths of that cost with the shortest longest one. */
  ghost predicate OptimalLengths(f: seq<nat>, len: seq<nat>) {
    && |len| == |f|
    && (forall k :: 0 <= k < |len| ==> 1 <= len[k] <= 22)
    && (forall j, k :: 0 <= j < k < |len| ==> len[j] >= len[k])
    && AllAtMost(len, 32) && Kraft(len, 32) == Pow2(32) && FibonacciBound(f, len)
    && forall l: seq<nat>, m: nat :: |l| == |f| && AllAtMost(l, m) && Kraft(l, m) <= Pow2(m)
         ==> Cost(f, len) <= Cost(f, l) && (Cost(f, len) == Cost(f, l) ==> AllAtMost(len, m))
  }

  lemma LengthsOrdered(t: Tree)
    requires t.Valid()
    ensures forall j, k :: 0 <= j < k < |t.len| ==> t.len[j] >= t.len[k]
  {
    forall j, k | 0 <= j < k < |t.len| ensures t.len[j] >= t.len[k] {
      LeafParentMonotone(|t.f|, t.ic, t.lp, j, k);
      DepthMonotone(|t.f|, t.ic, t.par, t.dep, t.lp[j], t.lp[k]);
    }
  }

  lemma TreeLengths(t: Tree)
    requires t.Valid() && Sum(t.f) <= 0xFFFF
    ensures OptimalLengths(t.f, t.len)
  {
    LengthBound(t);
    LengthsOrdered(t);
    LengthsNeedText(t);
    Sizes(t);
    hide Tree.Valid, Cost, Kraft, Pow2, History, FibonacciBound;
    KraftEquality(t, 32);
    forall l: seq<nat>, m: nat | |l| == |t.f| && AllAtMost(l, m) && Kraft(l, m) <= Pow2(m)
      ensures Cost(t.f, t.len) <= Cost(t.f, l) && (Cost(t.f, t.len) == Cost(t.f, l) ==> AllAtMost(t.len, m))
    {
      Optimal(t, l, m);
    }
  }

  /** The three passes. */
  method ReplaceByLengths(A: array<nat>, n: int, ghost f: seq<nat>) returns (ghost len: seq<nat>)
    requires 2 <= n == |f| <= A.Length && n <= 0xFFFF
    requires forall i :: 0 <= i < n ==> A[i] == f[i] >= 1
    requires Sorted(f) && Sum(f) <= 0xFFFF
    modifies A
    ensures OptimalLengths(f, len) && |len| == n && forall k :: 0 <= k < n ==> A[k] == len[k]
  {
    hide Queues, Parents, LeafParents, Depths, Tree.Valid, OptimalLengths, Sum, U16, History, Packed, Sorted;
    ghost var ic, w, h, par := BuildTree(A, n, f);
    ParentsUpward(n, ic, par);
    PackedParents(A[..], f, w, par);
    ghost var dep := ComputeDepths(A, n, par);
    ghost var lp := MakeLeafParents(n, ic);
    LeafParentsAll(n, ic, lp);
    DepthsAll(par, dep);
    ghost var t := FinishTree(f, ic, w, h, par, lp, dep);
    len := t.len;
    FullLength(t);
    AssignLengths(A, n, ic, par, lp, dep, len);
    TreeLengths(t);
  }

  lemma LeafParentsAll(n: nat, ic: seq<nat>, lp: seq<nat>)
    requires LeafParents(n, ic, lp) && Complete(n, ic)
    ensures |lp| == n
  {
    CompleteCounts(n, ic);
  }

  lemma DepthsAll(par: seq<nat>, dep: seq<nat>)
    requires Depths(par, dep)
    ensures |dep| == |par| + 1
  {
  }

  lemma FullLength(t: Tree)
    requires t.Valid()
    ensures |t.len| == |t.f|
  {
  }

  /** tdefl_calculate_minimum_redundancy: replaces sorted frequencies by optimal code lengths in place.
      A single symbol gets length 1; the 16-bit keys never wrap as long as the total fits them. */
  method CalculateMinimumRedundancy(A: array<nat>, n: int)
    requires 0 <= n <= A.Length
    requires forall i :: 0 <= i < n ==> A[i] >= 1
    requires Sorted(A[..n]) && Sum(A[..n]) <= 0xFFFF
    modifies A
    ensures n == 1 ==> A[0] == 1
    ensures n >= 2 ==> OptimalLengths(old(A[..n]), A[..n])
  {
    if n == 0 {
      return;
    } else if n == 1 {
      A[0] := 1;
      return;
    }
    hide OptimalLengths, Sum, Sorted;
    ghost var f := A[..n];
    PositiveSum(f);
    ghost var len := ReplaceByLengths(A, n, f);
    assert A[..n] == len;
  }

  lemma ParentsUpward(n: nat, ic: seq<nat>, par: seq<nat>)
    requires Parents(n, ic, par) && |ic| == n >= 2
    ensures |par| == n - 2 && Upward(par) && Complete(n, ic)
  {
    CompleteCounts(n, ic);
  }

  lemma PackedParents(s: seq<nat>, f: seq<nat>, w: seq<nat>, par: seq<nat>)
    requires |f| >= 2 && Packed(s, f, |f| - 2, w, |f|, par)
    ensures |par| == |f| - 2 <= |s| && forall i :: 0 <= i < |f| - 2 ==> s[i] == par[i]
  {
  }

  lemma FinishTree(f: seq<nat>, ic: seq<nat>, w: seq<nat>, h: seq<nat>, par: seq<nat>, lp: seq<nat>, dep: seq<nat>)
    returns (t: Tree)
    requires |f| >= 2 && |w| == |f| - 1 && |ic| == |f| && Queues(f, ic, w, h)
    requires Parents(|f|, ic, par) && LeafParents(|f|, ic, lp) && Depths(par, dep)
    ensures t.Valid() && t.f == f && t.ic == ic && t.w == w && t.h == h && t.par == par && t.lp == lp && t.dep == dep
    ensures |lp| == |f| && forall k :: 0 <= k < |f| ==> lp[k] < |f| - 1 && t.len[k] == 1 + dep[lp[k]]
  {
    CompleteCounts(|f|, ic);
    var len := seq(|f|, k requires 0 <= k < |f| => 1 + dep[lp[k]]);
    t := Tree(f, ic, w, h, par, lp, dep, len);
  }
}
