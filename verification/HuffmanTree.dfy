/** What a completed merge history says about the code lengths read off it: they fill the code space
    exactly, they are short, and no prefix code is shorter. */
module HuffmanTree {
  import opened Sums
  import opened MergeTree

  /** A finished construction: node weights `w`, parents of nodes and leaves, depths, and leaf depths `len`. */
  datatype Tree = Tree(f: seq<nat>, ic: seq<nat>, w: seq<nat>, h: seq<nat>, par: seq<nat>, lp: seq<nat>,
    dep: seq<nat>, len: seq<nat>) {
    ghost predicate Valid() {
      var n := |f|;
      && n >= 2 && |w| == n - 1 && Queues(f, ic, w, h) && |ic| == n && Complete(n, ic)
      && Parents(n, ic, par) && |par| == n - 2 && LeafParents(n, ic, lp) && |lp| == n
      && Depths(par, dep) && |dep| == n - 1
      && |len| == n && (forall k :: 0 <= k < n ==> lp[k] < n - 1 && len[k] == 1 + dep[lp[k]])
    }
  }

  ghost predicate AllAtMost(l: seq<nat>, m: nat) {
    forall i :: 0 <= i < |l| ==> l[i] <= m
  }

  /** The share of the code space taken by codes of these lengths, in units of the longest code `m`. */
  ghost function Kraft(l: seq<nat>, m: nat): nat
    requires AllAtMost(l, m)
  {
    if l == [] then 0 else Kraft(l[..|l| - 1], m) + Pow2(m - l[|l| - 1])
  }

  /** Total length of the coded text. */
  ghost function Cost(f: seq<nat>, l: seq<nat>): nat
    requires |f| == |l|
  {
    if l == [] then 0 else Cost(f[..|l| - 1], l[..|l| - 1]) + f[|l| - 1] * l[|l| - 1]
  }

  lemma {:induction false} KraftAsSum(l: seq<nat>, m: nat, x: seq<nat>)
    requires AllAtMost(l, m) && |x| == |l| && forall i :: 0 <= i < |l| ==> x[i] == Pow2(m - l[i])
    ensures Kraft(l, m) == Sum(x)
  {
    if l != [] {
      KraftAsSum(l[..|l| - 1], m, x[..|l| - 1]);
    }
  }

  lemma {:induction false} CostAsSum(f: seq<nat>, l: seq<nat>, x: seq<nat>)
    requires |x| == |l| == |f| && forall i :: 0 <= i < |l| ==> x[i] == f[i] * l[i]
    ensures Cost(f, l) == Sum(x)
  {
    if l != [] {
      CostAsSum(f[..|l| - 1], l[..|l| - 1], x[..|l| - 1]);
    }
  }

  lemma {:induction false} SumScaled(s: seq<nat>, t: seq<nat>, c: nat)
    requires |s| == |t| && forall i :: 0 <= i < |s| ==> t[i] == s[i] * c
    ensures Sum(t) == Sum(s) * c
  {
    if s != [] {
      SumScaled(s[..|s| - 1], t[..|s| - 1], c);
    }
  }

  lemma {:induction false} SumConst(s: seq<nat>, c: nat)
    requires forall i :: 0 <= i < |s| ==> s[i] == c
    ensures Sum(s) == |s| * c
  {
    if s != [] {
      SumConst(s[..|s| - 1], c);
    }
  }

  lemma {:induction false} SumPointwise(s: seq<nat>, t: seq<nat>, u: seq<nat>)
    requires |s| == |t| == |u| && forall i :: 0 <= i < |s| ==> u[i] == s[i] + t[i]
    ensures Sum(u) == Sum(s) + Sum(t)
  {
    if s != [] {
      SumPointwise(s[..|s| - 1], t[..|s| - 1], u[..|s| - 1]);
    }
  }

  lemma Sizes(t: Tree)
    requires t.Valid()
    ensures |t.f| >= 2 && |t.w| == |t.h| == |t.dep| == |t.f| - 1 && |t.ic| == |t.lp| == |t.len| == |t.f|
    ensures |t.par| == |t.f| - 2
    ensures History(|t.f|, t.ic) && t.ic[|t.f| - 1] == |t.f| - 2 && Lc(t.ic, |t.f| - 1) == |t.f|
    ensures t.dep[|t.f| - 2] == 0
  {
    CompleteCounts(|t.f|, t.ic);
  }

  lemma TreeParts(t: Tree)
    requires t.Valid()
    ensures |t.f| >= 2 && |t.w| == |t.f| - 1 && |t.ic| == |t.f| && Complete(|t.f|, t.ic) && |t.par| == |t.f| - 2
    ensures |t.lp| == |t.f| && |t.dep| == |t.f| - 1
    ensures Parents(|t.f|, t.ic, t.par) && LeafParents(|t.f|, t.ic, t.lp) && Depths(t.par, t.dep) && |t.len| == |t.f|
    ensures forall k :: 0 <= k < |t.f| ==> t.lp[k] < |t.f| - 1 && t.len[k] == 1 + t.dep[t.lp[k]]
  {
    hide Queues;
  }

  lemma NodeSums(t: Tree, j: nat)
    requires t.Valid() && j < |t.w|
    ensures j + 1 < |t.ic| && History(|t.f|, t.ic) && ChildSums(|t.f|, t.ic, t.f, t.w, t.w, j)
  {
    hide Depths, Parents, LeafParents;
    assert Greedy(|t.f|, t.ic, t.f, t.w, t.h, j);
  }

  /** Leaves and nodes consumed by node j are its children, one level below it. */
  lemma Children(t: Tree, j: nat)
    requires t.Valid() && j < |t.w|
    ensures 0 <= Lc(t.ic, j) <= Lc(t.ic, j + 1) <= |t.f| && t.ic[j] <= t.ic[j + 1] <= j
    ensures Lc(t.ic, j + 1) - Lc(t.ic, j) + t.ic[j + 1] - t.ic[j] == 2
    ensures forall k :: Lc(t.ic, j) <= k < Lc(t.ic, j + 1) ==> t.len[k] == 1 + t.dep[j]
    ensures forall i :: t.ic[j] <= i < t.ic[j + 1] ==> t.dep[i] == 1 + t.dep[j]
    ensures ChildSums(|t.f|, t.ic, t.f, t.w, t.w, j)
  {
    var n := |t.f|;
    hide Tree.Valid, Queues, Greedy, LeafParents, Parents, ChildSums;
    TreeParts(t);
    NodeSums(t, j);
    HistoryMonotone(n, t.ic, j, j + 1);
    forall k | Lc(t.ic, j) <= k < Lc(t.ic, j + 1) ensures t.len[k] == 1 + t.dep[j] {
      LeafParentRange(n, t.ic, t.lp, j, j + 1, k);
    }
    HistoryMonotone(n, t.ic, j + 1, n - 1);
    CompleteCounts(n, t.ic);
    forall i | t.ic[j] <= i < t.ic[j + 1] ensures t.dep[i] == 1 + t.dep[j] {
      ParentRange(n, t.ic, t.par, j, j + 1, i);
    }
  }

  /** Each node's share of the code space is that of its two children. */
  lemma ShareOfNode(t: Tree, m: nat, x: seq<nat>, y: seq<nat>, j: nat)
    requires t.Valid() && j < |t.w| && |x| == |t.len| && |y| == |t.dep|
    requires t.dep[j] + 1 <= m
    requires forall k :: 0 <= k < |x| && t.len[k] <= m ==> x[k] == Pow2(m - t.len[k])
    requires forall i :: 0 <= i < |y| && t.dep[i] <= m ==> y[i] == Pow2(m - t.dep[i])
    ensures ChildSums(|t.f|, t.ic, x, y, y, j)
  {
    hide Tree.Valid, History;
    Children(t, j);
    Sizes(t);
    var a, b, c, d, s := Lc(t.ic, j), Lc(t.ic, j + 1), t.ic[j], t.ic[j + 1], Pow2(m - t.dep[j] - 1);
    SumConst(x[a..b], s);
    SumConst(y[c..d], s);
    calc {
      y[j];
      2 * s;
      (b - a + d - c) * s;
      (b - a) * s + (d - c) * s;
      Sum(x[a..b]) + Sum(y[c..d]);
    }
  }

  lemma SharesAddUp(t: Tree, m: nat, x: seq<nat>, y: seq<nat>)
    requires t.Valid() && |x| == |t.len| && |y| == |t.dep| && AllAtMost(t.len, m)
    requires forall k :: 0 <= k < |x| && t.len[k] <= m ==> x[k] == Pow2(m - t.len[k])
    requires forall i :: 0 <= i < |y| && t.dep[i] <= m ==> y[i] == Pow2(m - t.dep[i])
    ensures Sum(x) == Pow2(m)
  {
    hide Tree.Valid, History, ChildSums;
    var n := |t.f|;
    Sizes(t);
    forall j | 0 <= j < n - 1 ensures ChildSums(n, t.ic, x, y, y, j) {
      NodeAboveSomeLeaf(t, j);
      ShareOfNode(t, m, x, y, j);
    }
    Telescope(n, t.ic, x, y, y, n - 1);
    SumPush(y, n - 2);
    assert x[..n] == x;
  }

  ghost function Shares(l: seq<nat>, m: nat): (x: seq<nat>)
    ensures |x| == |l| && forall i :: 0 <= i < |l| && l[i] <= m ==> x[i] == Pow2(m - l[i])
  {
    seq(|l|, i requires 0 <= i < |l| => if l[i] <= m then Pow2(m - l[i]) else 0)
  }

  /** Huffman lengths use up the whole code space. */
  lemma KraftEquality(t: Tree, m: nat)
    requires t.Valid() && AllAtMost(t.len, m)
    ensures Kraft(t.len, m) == Pow2(m)
  {
    hide Tree.Valid, Shares;
    SharesAddUp(t, m, Shares(t.len, m), Shares(t.dep, m));
    KraftAsSum(t.len, m, Shares(t.len, m));
  }

  /** Every node has a leaf below it. */
  lemma {:induction false} NodeAboveSomeLeaf(t: Tree, j: nat)
    requires t.Valid() && j < |t.w|
    ensures exists k :: 0 <= k < |t.len| && t.len[k] >= 1 + t.dep[j]
  {
    hide Tree.Valid, History;
    Sizes(t);
    Children(t, j);
    if Lc(t.ic, j) < Lc(t.ic, j + 1) {
      assert t.len[Lc(t.ic, j)] == 1 + t.dep[j];
    } else {
      NodeAboveSomeLeaf(t, t.ic[j]);
    }
  }

  ghost function Products(s: seq<nat>, u: seq<nat>): (t: seq<nat>)
    requires |s| == |u|
    ensures |t| == |s|
  {
    seq(|s|, k requires 0 <= k < |s| => s[k] * u[k])
  }

  lemma ScaledSlice(s: seq<nat>, u: seq<nat>, a: nat, b: nat, c: nat)
    requires a <= b <= |s| == |u| && forall k :: a <= k < b ==> u[k] == c
    ensures Sum(Products(s, u)[a..b]) == Sum(s[a..b]) * c
  {
    forall k | a <= k < b ensures Products(s, u)[k] == s[k] * c {
      assert u[k] == c;
    }
    SumScaled(s[a..b], Products(s, u)[a..b], c);
  }

  lemma Distribute(a: nat, b: nat, c: nat)
    ensures (a + b) * c == a * c + b * c
  {
  }

  /** What the code pays for the children of a node. */
  lemma CostOfNode(t: Tree, x: seq<nat>, y: seq<nat>, z: seq<nat>, j: nat)
    requires t.Valid() && j < |t.w| && |t.len| == |t.f| && |t.dep| == |t.w| == |z|
    requires x == Products(t.f, t.len) && y == Products(t.w, t.dep) && z[j] == t.w[j] * (1 + t.dep[j])
    ensures ChildSums(|t.f|, t.ic, x, y, z, j)
  {
    hide Tree.Valid, History, Products;
    Children(t, j);
    Sizes(t);
    var a, b, c, d, s := Lc(t.ic, j), Lc(t.ic, j + 1), t.ic[j], t.ic[j + 1], 1 + t.dep[j];
    ScaledSlice(t.f, t.len, a, b, s);
    ScaledSlice(t.w, t.dep, c, d, s);
    Distribute(Sum(t.f[a..b]), Sum(t.w[c..d]), s);
  }

  lemma WeightsAddUp(w: seq<nat>, dep: seq<nat>, up: seq<nat>)
    requires |w| == |dep| == |up| && forall i :: 0 <= i < |w| ==> up[i] == 1 + dep[i]
    ensures Sum(Products(w, up)) == Sum(w) + Sum(Products(w, dep))
  {
    forall i | 0 <= i < |w| ensures Products(w, up)[i] == w[i] + Products(w, dep)[i] {
      OneMore(w[i], dep[i], up[i]);
    }
    hide Products;
    SumPointwise(w, Products(w, dep), Products(w, up));
  }

  lemma OneMore(x: nat, d: nat, u: nat)
    requires u == 1 + d
    ensures x * u == x + x * d
  {
  }

  lemma CostsAddUp(t: Tree, up: seq<nat>)
    requires t.Valid() && |t.len| == |t.f| && |up| == |t.dep| == |t.w|
    requires forall i :: 0 <= i < |up| ==> up[i] == 1 + t.dep[i]
    ensures Sum(Products(t.f, t.len)) == Sum(t.w)
  {
    hide Tree.Valid, History, ChildSums;
    var n, x, y, z := |t.f|, Products(t.f, t.len), Products(t.w, t.dep), Products(t.w, up);
    assert forall j :: 0 <= j < |z| ==> z[j] == t.w[j] * (1 + t.dep[j]);
    Sizes(t);
    assert y[n - 2] == 0;
    forall j | 0 <= j < n - 1 ensures ChildSums(n, t.ic, x, y, z, j) {
      CostOfNode(t, x, y, z, j);
    }
    Telescope(n, t.ic, x, y, z, n - 1);
    SumPush(y, n - 2);
    WeightsAddUp(t.w, t.dep, up);
    assert x[..n] == x && y[..n - 1] == y && z[..n - 1] == z;
  }

  /** The text length under the computed code is the total weight of the nodes. */
  lemma CostIsTotalWeight(t: Tree)
    requires t.Valid()
    ensures Cost(t.f, t.len) == Sum(t.w)
  {
    hide Tree.Valid, History;
    Sizes(t);
    CostsAddUp(t, seq(|t.dep|, i requires 0 <= i < |t.dep| => 1 + t.dep[i]));
    CostAsSum(t.f, t.len, Products(t.f, t.len));
  }

  // ---------------------------------------------------------------- depth bound

  ghost function Fib(n: nat): nat {
    if n < 2 then n else Fib(n - 1) + Fib(n - 2)
  }

  lemma GrowsAt(n: nat, ic: seq<nat>, f: seq<nat>, w: seq<nat>, h: seq<nat>, i: nat, p: nat)
    requires History(n, ic) && |f| == n && |ic| == n && |w| == |h| == n - 1 && Sorted(w)
    requires i < p < n - 1 && ic[p] <= i < ic[p + 1]
    requires Greedy(n, ic, f, w, h, p) && Greedy(n, ic, f, w, h, i)
    ensures h[p] >= w[i] && w[p] >= w[i] + h[i]
  {
    HistoryMonotone(n, ic, p, p + 1);
    HistoryMonotone(n, ic, i + 1, p);
    SiblingWeight(f[Lc(ic, p)..Lc(ic, p + 1)], w[ic[p]..ic[p + 1]], i - ic[p], w[i], h[i]);
  }

  /** A node outweighs its child by at least the heavier of that child's own children. */
  lemma WeightGrows(t: Tree, i: nat)
    requires t.Valid() && i < |t.par|
    ensures var p := t.par[i]; i < p < |t.w| && t.h[p] >= t.w[i] && t.w[p] >= t.w[i] + t.h[i]
  {
    GrowsAt(|t.f|, t.ic, t.f, t.w, t.h, i, t.par[i]);
  }

  lemma SiblingWeight(ls: seq<nat>, ns: seq<nat>, k: nat, x: nat, y: nat)
    requires |ls| + |ns| == 2 && k < |ns| && ns[k] == x
    requires forall a :: 0 <= a < |ls| ==> y <= ls[a]
    requires forall a :: 0 <= a < |ns| && a != k ==> y <= ns[a]
    ensures Sum(ls) + Sum(ns) >= x + y
  {
    if |ns| == 1 {
      SumAtLeast(ls, 0);
      SumAtLeast(ns, 0);
    } else {
      assert ns == [ns[0], ns[1]];
      SumTwo(ns[0], ns[1]);
    }
  }

  lemma {:induction false} SumAtLeast(s: seq<nat>, k: nat)
    requires k < |s|
    ensures Sum(s) >= s[k]
  {
    if k < |s| - 1 {
      SumAtLeast(s[..|s| - 1], k);
    }
  }

  lemma FibStep(k: nat, v: nat)
    ensures Fib(k + 2) * v == Fib(k + 1) * v + Fib(k) * v
  {
    Distribute(Fib(k + 1), Fib(k), v);
  }

  /** From a node up to the root the weights grow at least like the Fibonacci numbers, in units of v. */
  lemma {:induction false} FibonacciWeights(t: Tree, i: nat, k: nat, v: nat)
    requires t.Valid() && i < |t.w|
    requires t.w[i] >= Fib(k + 1) * v && t.h[i] >= Fib(k) * v
    ensures t.w[|t.w| - 1] >= Fib(k + t.dep[i] + 1) * v
    decreases |t.w| - i
  {
    if i < |t.par| {
      WeightGrows(t, i);
      FibStep(k, v);
      FibonacciWeights(t, t.par[i], k + 1, v);
    }
  }

  lemma {:induction false} FibMonotone(a: nat, b: nat)
    requires 1 <= a <= b
    ensures Fib(a) <= Fib(b)
    decreases b
  {
    if a < b {
      FibMonotone(a, b - 1);
    }
  }

  lemma FibValues()
    ensures Fib(2) == 1 && Fib(3) == 2 && Fib(25) == 75025
  {
    assert Fib(8) == 21 && Fib(9) == 34;
    assert Fib(14) == 377 && Fib(15) == 610;
    assert Fib(20) == 6765 && Fib(21) == 10946;
  }

  /** The root carries the whole text. */
  lemma RootWeight(t: Tree)
    requires t.Valid()
    ensures t.w[|t.w| - 1] == Sum(t.f)
  {
    hide Tree.Valid, History, ChildSums;
    var n := |t.f|;
    Sizes(t);
    forall j | 0 <= j < n - 1 ensures ChildSums(n, t.ic, t.f, t.w, t.w, j) {
      Children(t, j);
    }
    Telescope(n, t.ic, t.f, t.w, t.w, n - 1);
    assert t.f[..n] == t.f;
    SumPush(t.w, n - 2);
  }

  /** A leaf's parent weighs at least as much as the leaf, and so does the heavier child. */
  lemma LeafWeight(t: Tree, k: nat)
    requires t.Valid() && k < |t.f|
    ensures t.lp[k] < |t.w| == |t.h| && t.len[k] == 1 + t.dep[t.lp[k]]
    ensures t.w[t.lp[k]] >= 2 && t.w[t.lp[k]] >= t.f[k] && t.h[t.lp[k]] >= t.f[k] && t.h[t.lp[k]] >= 1
  {
    assert Greedy(|t.f|, t.ic, t.f, t.w, t.h, t.lp[k]);
  }

  /** A code of length l needs a text of at least Fib(l + 2) symbols, and one of Fib(l + 1) times its own count. */
  ghost predicate FibonacciBound(f: seq<nat>, len: seq<nat>) {
    |len| == |f| && forall k :: 0 <= k < |len| ==> Fib(len[k] + 2) <= Sum(f) && Fib(len[k] + 1) * f[k] <= Sum(f)
  }

  lemma LengthsNeedText(t: Tree)
    requires t.Valid()
    ensures FibonacciBound(t.f, t.len)
  {
    hide Tree.Valid;
    RootWeight(t);
    Sizes(t);
    assert Fib(0) == 0 && Fib(1) == Fib(2) == 1 && Fib(3) == 2;
    forall k | 0 <= k < |t.len| ensures Fib(t.len[k] + 2) <= Sum(t.f) && Fib(t.len[k] + 1) * t.f[k] <= Sum(t.f) {
      LeafWeight(t, k);
      FibonacciWeights(t, t.lp[k], 2, 1);
      FibonacciWeights(t, t.lp[k], 1, t.f[k]);
    }
  }

  /** So a text shorter than Fib(m + 3) has no code longer than m. */
  lemma ShortTextLimit(f: seq<nat>, len: seq<nat>, m: nat)
    requires FibonacciBound(f, len) && Sum(f) < Fib(m + 3)
    ensures AllAtMost(len, m)
  {
    forall k | 0 <= k < |len| ensures len[k] <= m {
      if len[k] > m {
        FibMonotone(m + 3, len[k] + 2);
      }
    }
  }

  /** With 16-bit totals no code is longer than 22 bits. */
  lemma LengthBound(t: Tree)
    requires t.Valid() && Sum(t.f) <= 0xFFFF
    ensures forall k :: 0 <= k < |t.len| ==> 1 <= t.len[k] <= 22
  {
    hide Tree.Valid;
    FibValues();
    LengthsNeedText(t);
    ShortTextLimit(t.f, t.len, 22);
    forall k | 0 <= k < |t.len| ensures 1 <= t.len[k] {
      Sizes(t);
      LeafWeight(t, k);
    }
  }
}
