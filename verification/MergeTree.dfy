/** The merge history of the two-queue Huffman construction, independent of the array it is packed into.

    Node j (0 <= j < n-1) is formed from the next two items of two queues: the leaves, in order of
    frequency, and the nodes formed before it. `ic[j]` says how many nodes were consumed before node j
    was formed; since every node consumes two items, `2*j - ic[j]` leaves were. */
module MergeTree {
  import opened Sums

  ghost predicate History(n: nat, ic: seq<nat>) {
    && 1 <= |ic| <= n
    && ic[0] == 0
    && (forall j :: 1 <= j < |ic| ==> ic[j] < j)
    && (forall i, j :: 0 <= i < j < |ic| && j == i + 1 ==> ic[i] <= ic[j] <= ic[i] + 2)
    && (forall j :: 0 <= j < |ic| ==> 2 * j - ic[j] <= n)
  }

  /** Leaves consumed before node j is formed. */
  ghost function Lc(ic: seq<nat>, j: nat): int
    requires j < |ic|
  {
    2 * j - ic[j]
  }

  ghost predicate Complete(n: nat, ic: seq<nat>) {
    n >= 2 && History(n, ic) && |ic| == n
  }

  lemma {:induction false} HistoryMonotone(n: nat, ic: seq<nat>, a: nat, b: nat)
    requires History(n, ic) && a <= b < |ic|
    ensures ic[a] <= ic[b] && 0 <= Lc(ic, a) <= Lc(ic, b) <= n
    decreases b
  {
    if a < b {
      HistoryMonotone(n, ic, a, b - 1);
    }
  }

  /** `t[j]` is the sum of `x` over the leaves of node j and of `y` over its internal children. */
  ghost predicate ChildSums(n: nat, ic: seq<nat>, x: seq<nat>, y: seq<nat>, t: seq<nat>, j: nat)
    requires History(n, ic) && |x| == n && j + 1 < |ic| && j < |t| && |y| >= j
  {
    HistoryMonotone(n, ic, j, j + 1);
    t[j] == Sum(x[Lc(ic, j)..Lc(ic, j + 1)]) + Sum(y[ic[j]..ic[j + 1]])
  }

  /** Adding up over the nodes formed so far counts every consumed item once. */
  lemma {:induction false} Telescope(n: nat, ic: seq<nat>, x: seq<nat>, y: seq<nat>, t: seq<nat>, m: nat)
    requires History(n, ic) && |x| == n && m < |ic| && m <= |y| && m <= |t|
    requires forall j :: 0 <= j < m ==> ChildSums(n, ic, x, y, t, j)
    ensures 0 <= Lc(ic, m) <= n && ic[m] <= m
    ensures Sum(t[..m]) == Sum(x[..Lc(ic, m)]) + Sum(y[..ic[m]])
    decreases m
  {
    HistoryMonotone(n, ic, 0, m);
    if m > 0 {
      var p := m - 1;
      Telescope(n, ic, x, y, t, p);
      HistoryMonotone(n, ic, p, m);
      SumPush(t, p);
      assert ChildSums(n, ic, x, y, t, p);
      SumSplit(x[..Lc(ic, m)], Lc(ic, p));
      SumSplit(y[..ic[m]], ic[p]);
      assert x[..Lc(ic, m)][..Lc(ic, p)] == x[..Lc(ic, p)];
      assert x[..Lc(ic, m)][Lc(ic, p)..] == x[Lc(ic, p)..Lc(ic, m)];
      assert y[..ic[m]][..ic[p]] == y[..ic[p]];
      assert y[..ic[m]][ic[p]..] == y[ic[p]..ic[m]];
    }
  }

  /** Node j took the two smallest items present when it was formed; `h[j]` is the larger of the two. */
  ghost predicate Greedy(n: nat, ic: seq<nat>, f: seq<nat>, w: seq<nat>, h: seq<nat>, j: nat)
    requires History(n, ic) && |f| == n && j + 1 < |ic| && j < |w| && j < |h|
  {
    HistoryMonotone(n, ic, j, j + 1);
    && ChildSums(n, ic, f, w, w, j)
    && (forall k :: Lc(ic, j) <= k < Lc(ic, j + 1) ==> f[k] <= h[j])
    && (forall i :: ic[j] <= i < ic[j + 1] ==> w[i] <= h[j])
    && (forall k :: Lc(ic, j + 1) <= k < n ==> h[j] <= f[k])
    && (forall i :: ic[j + 1] <= i < j ==> h[j] <= w[i])
    && 1 <= h[j] < w[j]
  }

  /** On a tie a leaf was preferred: the nodes that node j consumed were lighter than the leaves left. */
  ghost predicate LeafFirst(n: nat, ic: seq<nat>, f: seq<nat>, w: seq<nat>, j: nat)
    requires History(n, ic) && |f| == n && j + 1 < |ic| && j < |w|
  {
    HistoryMonotone(n, ic, j, j + 1);
    Lc(ic, j + 1) < n ==> forall i :: ic[j] <= i < ic[j + 1] ==> w[i] < f[Lc(ic, j + 1)]
  }

  ghost predicate Sorted(s: seq<nat>) {
    forall i, j :: 0 <= i < j < |s| ==> s[i] <= s[j]
  }

  // ---------------------------------------------------------------- one merge

  /** Everything true of the two queues after |w| merges; the larger item of the last merge bounds all
      that is left from below, which is what keeps the second queue in order. */
  ghost predicate Queues(f: seq<nat>, ic: seq<nat>, w: seq<nat>, h: seq<nat>) {
    var n, m := |f|, |w|;
    && m >= 1 && |ic| == m + 1 && |h| == m && History(n, ic)
    && Sorted(f) && Sorted(w)
    && (forall j :: 0 <= j < m ==> Greedy(n, ic, f, w, h, j))
    && (forall j :: 0 <= j < m ==> LeafFirst(n, ic, f, w, j))
    && (forall k :: Lc(ic, m) <= k < n ==> h[m - 1] <= f[k])
    && (forall i :: ic[m] <= i < m ==> h[m - 1] <= w[i])
    && w[m - 1] <= 2 * h[m - 1]
  }

  /** `x` is the smaller queue head, the leaf if they are equal; taking it moves the heads to `leaf'` and `root'`. */
  ghost predicate Pick(f: seq<nat>, leaf: nat, w: seq<nat>, root: nat, x: nat, leaf': nat, root': nat) {
    || (leaf < |f| && x == f[leaf] && (root < |w| ==> x <= w[root]) && leaf' == leaf + 1 && root' == root)
    || (root < |w| && x == w[root] && (leaf < |f| ==> x < f[leaf]) && leaf' == leaf && root' == root + 1)
  }

  lemma SumOne(x: nat)
    ensures Sum([x]) == x
  {
    assert [x][..0] == [];
  }

  lemma SumTwo(x: nat, y: nat)
    ensures Sum([x, y]) == x + y
  {
    assert [x, y][..1] == [x];
    SumOne(x);
  }

  lemma PickedSum(f: seq<nat>, leaf: nat, w: seq<nat>, root: nat, a: nat, b: nat, leaf1: nat, root1: nat, leaf2: nat,
      root2: nat)
    requires Pick(f, leaf, w, root, a, leaf1, root1) && Pick(f, leaf1, w, root1, b, leaf2, root2)
    requires leaf <= |f| && root <= |w|
    ensures leaf2 <= |f| && root2 <= |w|
    ensures a + b == Sum(f[leaf..leaf2]) + Sum(w[root..root2])
  {
    if leaf2 == leaf {
      assert w[root..root2] == [a, b];
      SumTwo(a, b);
    } else if root2 == root {
      assert f[leaf..leaf2] == [a, b];
      SumTwo(a, b);
    } else {
      SumOne(a);
      SumOne(b);
      assert leaf2 == leaf + 1 && root2 == root + 1;
      assert f[leaf..leaf2] == [f[leaf]];
      assert w[root..root2] == [w[root]];
    }
  }

  /** The weights still queued add up to the total frequency. */
  lemma QueuedTotal(f: seq<nat>, ic: seq<nat>, w: seq<nat>, h: seq<nat>)
    requires Queues(f, ic, w, h)
    ensures var m := |w|; ic[m] <= m && 0 <= Lc(ic, m) <= |f|
    ensures var m := |w|; Sum(f[Lc(ic, m)..]) + Sum(w[ic[m]..]) == Sum(f)
  {
    var m := |w|;
    forall j | 0 <= j < m ensures ChildSums(|f|, ic, f, w, w, j) {
      assert Greedy(|f|, ic, f, w, h, j);
    }
    Telescope(|f|, ic, f, w, w, m);
    SumSplit(f, Lc(ic, m));
    SumSplit(w, ic[m]);
    assert w[..m] == w;
  }

  lemma MergeWithinTotal(f: seq<nat>, w: seq<nat>, leaf: nat, root: nat,
      a: nat, b: nat, leaf1: nat, root1: nat, leaf2: nat, root2: nat)
    requires leaf <= |f| && root <= |w|
    requires Pick(f, leaf, w, root, a, leaf1, root1) && Pick(f, leaf1, w, root1, b, leaf2, root2)
    ensures a + b <= Sum(f[leaf..]) + Sum(w[root..])
  {
    PickedSum(f, leaf, w, root, a, b, leaf1, root1, leaf2, root2);
    SumSplit(f[leaf..], leaf2 - leaf);
    SumSplit(w[root..], root2 - root);
    assert f[leaf..][..leaf2 - leaf] == f[leaf..leaf2];
    assert w[root..][..root2 - root] == w[root..root2];
  }

  lemma GreedyExtends(n: nat, ic: seq<nat>, f: seq<nat>, w: seq<nat>, h: seq<nat>, j: nat, c: nat, x: nat, y: nat)
    requires History(n, ic) && History(n, ic + [c]) && |f| == n && j + 1 < |ic| && j < |w| && j < |h|
    requires Greedy(n, ic, f, w, h, j)
    ensures Greedy(n, ic + [c], f, w + [x], h + [y], j)
  {
    HistoryMonotone(n, ic, j, j + 1);
    assert ic[j + 1] < j + 1;
    assert (w + [x])[ic[j]..ic[j + 1]] == w[ic[j]..ic[j + 1]];
  }

  /** The second of two picks separates what was taken from what is left. */
  lemma PickBounds(f: seq<nat>, leaf: nat, w: seq<nat>, root: nat, a: nat, b: nat, leaf1: nat, root1: nat, leaf2: nat,
      root2: nat)
    requires Sorted(f) && Sorted(w) && leaf <= |f| && root <= |w|
    requires Pick(f, leaf, w, root, a, leaf1, root1) && Pick(f, leaf1, w, root1, b, leaf2, root2)
    ensures a <= b && leaf <= leaf2 <= |f| && root <= root2 <= |w| && leaf2 + root2 == leaf + root + 2
    ensures forall k :: leaf <= k < leaf2 ==> f[k] <= b
    ensures forall i :: root <= i < root2 ==> w[i] <= b
    ensures forall k :: leaf2 <= k < |f| ==> b <= f[k]
    ensures forall i :: root2 <= i < |w| ==> b <= w[i]
  {
  }

  lemma GreedyNew(n: nat, ic: seq<nat>, f: seq<nat>, w: seq<nat>, h: seq<nat>, leaf: nat, root: nat, a: nat, b: nat,
      leaf1: nat, root1: nat, leaf2: nat, root2: nat)
    requires var m := |w|; |ic| == m + 1 && |h| == m && History(n, ic) && History(n, ic + [root2]) && |f| == n
    requires Sorted(f) && Sorted(w) && a >= 1
    requires leaf == Lc(ic, |w|) && root == ic[|w|] && leaf <= n && root <= |w|
    requires Pick(f, leaf, w, root, a, leaf1, root1) && Pick(f, leaf1, w, root1, b, leaf2, root2)
    ensures Greedy(n, ic + [root2], f, w + [a + b], h + [b], |w|)
  {
    PickedSum(f, leaf, w, root, a, b, leaf1, root1, leaf2, root2);
    PickBounds(f, leaf, w, root, a, b, leaf1, root1, leaf2, root2);
    hide Pick;
    assert Lc(ic + [root2], |w| + 1) == leaf2;
    assert (w + [a + b])[root..root2] == w[root..root2];
  }

  lemma GreedyAll(n: nat, ic: seq<nat>, f: seq<nat>, w: seq<nat>, h: seq<nat>, c: nat, x: nat, y: nat)
    requires History(n, ic) && History(n, ic + [c]) && |f| == n && |ic| == |w| + 1 && |h| == |w|
    requires forall j :: 0 <= j < |w| ==> Greedy(n, ic, f, w, h, j)
    requires Greedy(n, ic + [c], f, w + [x], h + [y], |w|)
    ensures forall j :: 0 <= j < |w| + 1 ==> Greedy(n, ic + [c], f, w + [x], h + [y], j)
  {
    hide *;
    forall j | 0 <= j < |w| + 1 ensures Greedy(n, ic + [c], f, w + [x], h + [y], j) {
      if j < |w| {
        GreedyExtends(n, ic, f, w, h, j, c, x, y);
      }
    }
  }

  lemma LeafFirstNew(f: seq<nat>, ic: seq<nat>, w: seq<nat>, leaf: nat, root: nat, a: nat, b: nat, leaf1: nat,
      root1: nat, leaf2: nat, root2: nat)
    requires |ic| == |w| + 1 && History(|f|, ic) && History(|f|, ic + [root2]) && Sorted(f)
    requires leaf == Lc(ic, |w|) && root == ic[|w|] && leaf <= |f| && root <= |w|
    requires Pick(f, leaf, w, root, a, leaf1, root1) && Pick(f, leaf1, w, root1, b, leaf2, root2)
    ensures LeafFirst(|f|, ic + [root2], f, w + [a + b], |w|)
  {
    assert Lc(ic + [root2], |w| + 1) == leaf2;
  }

  lemma LeafFirstAll(n: nat, ic: seq<nat>, f: seq<nat>, w: seq<nat>, c: nat, x: nat)
    requires History(n, ic) && History(n, ic + [c]) && |f| == n && |ic| == |w| + 1
    requires forall j :: 0 <= j < |w| ==> LeafFirst(n, ic, f, w, j)
    requires LeafFirst(n, ic + [c], f, w + [x], |w|)
    ensures forall j :: 0 <= j < |w| + 1 ==> LeafFirst(n, ic + [c], f, w + [x], j)
  {
    forall j | 0 <= j < |w| + 1 ensures LeafFirst(n, ic + [c], f, w + [x], j) {
      if j < |w| {
        HistoryMonotone(n, ic, j, j + 1);
        assert LeafFirst(n, ic, f, w, j);
        assert ic[j + 1] <= j + 1;
      }
    }
  }

  lemma HistoryPush(n: nat, ic: seq<nat>, c: nat)
    requires History(n, ic) && |ic| < n && ic[|ic| - 1] <= c <= ic[|ic| - 1] + 2 && c < |ic| && 2 * |ic| - c <= n
    ensures History(n, ic + [c])
  {
  }

  lemma QueuesJoin(f: seq<nat>, ic: seq<nat>, w: seq<nat>, h: seq<nat>)
    requires |w| >= 1 && |ic| == |w| + 1 && |h| == |w| && History(|f|, ic) && Sorted(f) && Sorted(w)
    requires forall j :: 0 <= j < |w| ==> Greedy(|f|, ic, f, w, h, j)
    requires forall j :: 0 <= j < |w| ==> LeafFirst(|f|, ic, f, w, j)
    requires forall k :: Lc(ic, |w|) <= k < |f| ==> h[|w| - 1] <= f[k]
    requires forall i :: ic[|w|] <= i < |w| ==> h[|w| - 1] <= w[i]
    requires w[|w| - 1] <= 2 * h[|w| - 1]
    ensures Queues(f, ic, w, h)
  {
    hide Greedy, LeafFirst, History, Sorted;
  }

  /** The parts of Queues that speak of the last merge only. */
  lemma QueuesLast(f: seq<nat>, ic: seq<nat>, w: seq<nat>, h: seq<nat>)
    requires Queues(f, ic, w, h)
    ensures |w| >= 1 && |ic| == |w| + 1 && |h| == |w| && History(|f|, ic) && Sorted(f) && Sorted(w)
    ensures forall j :: 0 <= j < |w| ==> Greedy(|f|, ic, f, w, h, j)
    ensures forall j :: 0 <= j < |w| ==> LeafFirst(|f|, ic, f, w, j)
    ensures forall k :: Lc(ic, |w|) <= k < |f| ==> h[|w| - 1] <= f[k]
    ensures forall i :: ic[|w|] <= i < |w| ==> h[|w| - 1] <= w[i]
    ensures w[|w| - 1] <= 2 * h[|w| - 1] && 1 <= h[|w| - 1] && ic[|w|] < |w| && 0 <= Lc(ic, |w|) <= |f|
  {
    assert Greedy(|f|, ic, f, w, h, |w| - 1);
    HistoryMonotone(|f|, ic, 0, |w|);
  }

  lemma SortedPush(w: seq<nat>, x: nat)
    requires Sorted(w) && (w != [] ==> w[|w| - 1] <= x)
    ensures Sorted(w + [x])
  {
  }

  lemma MergeStep(f: seq<nat>, ic: seq<nat>, w: seq<nat>, h: seq<nat>, leaf: nat, root: nat,
      a: nat, b: nat, leaf1: nat, root1: nat, leaf2: nat, root2: nat)
    requires Queues(f, ic, w, h) && leaf == Lc(ic, |w|) && root == ic[|w|]
    requires Pick(f, leaf, w, root, a, leaf1, root1) && Pick(f, leaf1, w, root1, b, leaf2, root2)
    requires |w| < |f| - 1
    ensures a <= b && leaf2 + root2 == 2 * (|w| + 1)
    ensures Queues(f, ic + [root2], w + [a + b], h + [b])
  {
    hide Queues, History, Greedy, LeafFirst, Sorted, Pick;
    var n, m := |f|, |w|;
    var ic', w', h' := ic + [root2], w + [a + b], h + [b];
    QueuesLast(f, ic, w, h);
    PickBounds(f, leaf, w, root, a, b, leaf1, root1, leaf2, root2);
    PickSmallest(f, leaf, w, root, a, leaf1, root1, h[m - 1]);
    HistoryPush(n, ic, root2);
    GreedyNew(n, ic, f, w, h, leaf, root, a, b, leaf1, root1, leaf2, root2);
    GreedyAll(n, ic, f, w, h, root2, a + b, b);
    LeafFirstNew(f, ic, w, leaf, root, a, b, leaf1, root1, leaf2, root2);
    LeafFirstAll(n, ic, f, w, root2, a + b);
    SortedPush(w, a + b);
    QueuesJoin(f, ic', w', h');
  }

  lemma PickSmallest(f: seq<nat>, leaf: nat, w: seq<nat>, root: nat, x: nat, leaf1: nat, root1: nat, least: nat)
    requires Pick(f, leaf, w, root, x, leaf1, root1)
    requires (forall k :: leaf <= k < |f| ==> least <= f[k]) && forall i :: root <= i < |w| ==> least <= w[i]
    ensures least <= x
  {
  }

  // ---------------------------------------------------------------- parents and depths

  /** `par[i]` is the node that consumed internal node i. */
  ghost predicate Parents(n: nat, ic: seq<nat>, par: seq<nat>) {
    && History(n, ic) && |par| == ic[|ic| - 1]
    && (forall i :: 0 <= i < |par| ==> i < par[i] < |ic| - 1 && ic[par[i]] <= i < ic[par[i] + 1])
  }

  /** `lp[k]` is the node that consumed leaf k. */
  ghost predicate LeafParents(n: nat, ic: seq<nat>, lp: seq<nat>) {
    && History(n, ic) && |lp| == Lc(ic, |ic| - 1)
    && (forall k :: 0 <= k < |lp| ==> lp[k] < |ic| - 1 && Lc(ic, lp[k]) <= k < Lc(ic, lp[k] + 1))
  }

  lemma LeafParentsPush(n: nat, ic: seq<nat>, m: nat, lp: seq<nat>) returns (lp': seq<nat>)
    requires History(n, ic) && |ic| == m + 2 && LeafParents(n, ic[..m + 1], lp)
    ensures LeafParents(n, ic, lp')
  {
    HistoryMonotone(n, ic, m, m + 1);
    lp' := lp + seq(Lc(ic, m + 1) - Lc(ic, m), _ => m);
    forall k | 0 <= k < |lp| ensures lp[k] < m && Lc(ic, lp[k]) <= k < Lc(ic, lp[k] + 1) {
      assert Lc(ic[..m + 1], lp[k]) <= k < Lc(ic[..m + 1], lp[k] + 1);
    }
    hide History;
  }

  lemma {:induction false} MakeLeafParents(n: nat, ic: seq<nat>) returns (lp: seq<nat>)
    requires History(n, ic)
    ensures LeafParents(n, ic, lp)
    decreases |ic|
  {
    if |ic| == 1 {
      lp := [];
    } else {
      lp := MakeLeafParents(n, ic[..|ic| - 1]);
      lp := LeafParentsPush(n, ic, |ic| - 2, lp);
    }
  }

  lemma LeafParentRange(n: nat, ic: seq<nat>, lp: seq<nat>, a: nat, b: nat, k: nat)
    requires LeafParents(n, ic, lp) && a <= b < |ic| && Lc(ic, a) <= k < Lc(ic, b)
    ensures k < |lp| && a <= lp[k] < b
  {
    HistoryMonotone(n, ic, b, |ic| - 1);
    if lp[k] < a {
      HistoryMonotone(n, ic, lp[k] + 1, a);
    } else if b <= lp[k] {
      HistoryMonotone(n, ic, b, lp[k]);
    }
  }

  lemma LeafParentMonotone(n: nat, ic: seq<nat>, lp: seq<nat>, a: nat, b: nat)
    requires LeafParents(n, ic, lp) && a <= b < |lp|
    ensures lp[a] <= lp[b]
  {
    if lp[b] < lp[a] {
      HistoryMonotone(n, ic, lp[b] + 1, lp[a]);
    }
  }

  /** Every parent is formed after its children. */
  ghost predicate Upward(par: seq<nat>) {
    forall i :: 0 <= i < |par| ==> i < par[i] <= |par|
  }

  /** `dep[i]` is the distance of node i from the last node formed, the root. */
  ghost predicate Depths(par: seq<nat>, dep: seq<nat>) {
    && Upward(par) && |dep| == |par| + 1
    && (forall i :: 0 <= i < |par| ==> dep[i] == 1 + dep[par[i]])
    && (forall i :: 0 <= i <= |par| ==> dep[i] + i <= |par|)
    && (forall i :: 0 <= i < |par| ==> dep[i] >= 1)
  }

  ghost function NodeDepth(par: seq<nat>, i: nat): (d: nat)
    requires Upward(par) && i <= |par|
    ensures d + i <= |par|
    decreases |par| - i
  {
    if i == |par| then 0 else 1 + NodeDepth(par, par[i])
  }

  lemma MakeDepths(par: seq<nat>) returns (dep: seq<nat>)
    requires Upward(par)
    ensures Depths(par, dep)
  {
    dep := seq(|par| + 1, i requires 0 <= i <= |par| => NodeDepth(par, i));
  }

  lemma CompleteCounts(n: nat, ic: seq<nat>)
    requires Complete(n, ic)
    ensures ic[n - 1] == n - 2 && Lc(ic, n - 1) == n && ic[0] == 0
  {
    assert 2 * (n - 1) - ic[n - 1] <= n;
  }

  /** The nodes of depth `d` are exactly those in lo..hi, and shallower ones follow them. */
  ghost predicate Level(n: nat, ic: seq<nat>, dep: seq<nat>, d: nat, lo: nat, hi: nat)
    requires |ic| == n && |dep| == n - 1
  {
    && lo <= hi < n && ic[hi] == lo && (hi == 0 || lo < hi)
    && (forall i :: 0 <= i < n - 1 ==> (dep[i] == d <==> lo <= i < hi))
    && (forall i :: 0 <= i < n - 1 ==> (dep[i] < d <==> hi <= i))
  }

  lemma TopLevel(n: nat, ic: seq<nat>, par: seq<nat>, dep: seq<nat>)
    requires Parents(n, ic, par) && Complete(n, ic) && Depths(par, dep)
    ensures |dep| == n - 1 && Level(n, ic, dep, 0, n - 2, n - 1)
  {
    CompleteCounts(n, ic);
  }

  /** The children of one level are the next one. */
  lemma NextLevel(n: nat, ic: seq<nat>, par: seq<nat>, dep: seq<nat>, d: nat, lo: nat, hi: nat)
    requires Parents(n, ic, par) && Complete(n, ic) && Depths(par, dep) && |dep| == n - 1
    requires Level(n, ic, dep, d, lo, hi)
    ensures ic[lo] <= lo && Level(n, ic, dep, d + 1, ic[lo], lo)
  {
    CompleteCounts(n, ic);
    HistoryMonotone(n, ic, lo, hi);
    forall i | 0 <= i < n - 1
      ensures dep[i] == d + 1 <==> ic[lo] <= i < lo
      ensures dep[i] < d + 1 <==> lo <= i
    {
      if i < n - 2 {
        ParentRange(n, ic, par, lo, hi, i);
      }
    }
  }

  lemma ParentRange(n: nat, ic: seq<nat>, par: seq<nat>, lo: nat, hi: nat, i: nat)
    requires Parents(n, ic, par) && lo <= hi < |ic| && i < |par|
    ensures ic[lo] <= i < ic[hi] <==> lo <= par[i] < hi
    ensures i < ic[lo] <==> par[i] < lo
  {
    var p := par[i];
    if p < lo {
      HistoryMonotone(n, ic, p + 1, lo);
      HistoryMonotone(n, ic, lo, hi);
    } else {
      HistoryMonotone(n, ic, lo, p);
      if p < hi {
        HistoryMonotone(n, ic, p + 1, hi);
      } else {
        HistoryMonotone(n, ic, hi, p);
      }
    }
  }

  lemma {:induction false} DepthMonotone(n: nat, ic: seq<nat>, par: seq<nat>, dep: seq<nat>, a: nat, b: nat)
    requires Parents(n, ic, par) && Depths(par, dep) && a <= b <= |par|
    ensures dep[a] >= dep[b]
    decreases |par| - b
  {
    if b < |par| {
      if par[b] < par[a] {
        HistoryMonotone(n, ic, par[b] + 1, par[a]);
      }
      DepthMonotone(n, ic, par, dep, par[a], par[b]);
    }
  }
}
