/** Among the merge histories of the same weights, the one that prefers leaves on a tie keeps its nodes in order
    of weight and then of height. */
module HuffmanHeight {
  import opened Sums
  import opened MergeTree
  import opened HuffmanTree

  /** How far below node j its deepest leaf lies. */
  ghost function Height(ic: seq<nat>, n: nat, j: nat): (r: nat)
    requires History(n, ic) && j + 1 < |ic|
    ensures r >= 1
    decreases j
  {
    HistoryMonotone(n, ic, 0, j + 1);
    var a, b := ic[j], ic[j + 1];
    if a == b then 1
    else if b == a + 1 then 1 + Height(ic, n, a)
    else 1 + Larger(Height(ic, n, a), Height(ic, n, a + 1))
  }

  function Larger(x: nat, y: nat): nat {
    if x < y then y else x
  }

  lemma ChildBelow(ic: seq<nat>, n: nat, j: nat, i: nat)
    requires History(n, ic) && j + 1 < |ic| && ic[j] <= i < ic[j + 1]
    ensures i < j && Height(ic, n, i) < Height(ic, n, j)
  {
    HistoryMonotone(n, ic, j, j + 1);
  }

  /** The child that makes a node as high as it is. */
  lemma TallestChild(ic: seq<nat>, n: nat, j: nat) returns (i: nat)
    requires History(n, ic) && j + 1 < |ic| && ic[j] < ic[j + 1]
    ensures ic[j] <= i < ic[j + 1] && i < j && Height(ic, n, j) == 1 + Height(ic, n, i)
  {
    HistoryMonotone(n, ic, j, j + 1);
    i := ic[j];
    if ic[j + 1] != i + 1 && Height(ic, n, i) < Height(ic, n, i + 1) {
      i := i + 1;
    }
  }

  /** The root is as high as every node and the way up from it. */
  lemma {:induction false} RootHeight(t: Tree, i: nat)
    requires t.Valid() && i < |t.w|
    ensures |t.ic| == |t.f| == |t.w| + 1 && History(|t.f|, t.ic)
    ensures Height(t.ic, |t.f|, |t.w| - 1) >= Height(t.ic, |t.f|, i) + t.dep[i]
    decreases |t.w| - i
  {
    hide Height, Queues;
    if i < |t.par| {
      RootHeight(t, t.par[i]);
      ChildBelow(t.ic, |t.f|, t.par[i], i);
    }
  }

  /** No code is longer than the root is high. */
  lemma LengthsBelowRoot(t: Tree)
    requires t.Valid()
    ensures |t.ic| == |t.f| == |t.w| + 1 && History(|t.f|, t.ic)
    ensures AllAtMost(t.len, Height(t.ic, |t.f|, |t.w| - 1))
  {
    hide Tree.Valid, Height, History;
    Sizes(t);
    forall k | 0 <= k < |t.len| ensures t.len[k] <= Height(t.ic, |t.f|, |t.w| - 1) {
      LeafWeight(t, k);
      RootHeight(t, t.lp[k]);
    }
  }

  // ---------------------------------------------------------------- equal weights

  lemma TwoValues(ls: seq<nat>, ns: seq<nat>)
    requires |ls| + |ns| == 2
    ensures |ls| == 2 ==> Sum(ls) + Sum(ns) == ls[0] + ls[1]
    ensures |ls| == 1 ==> Sum(ls) + Sum(ns) == ls[0] + ns[0]
    ensures |ls| == 0 ==> Sum(ls) + Sum(ns) == ns[0] + ns[1]
  {
    if |ls| == 2 {
      assert ls == [ls[0], ls[1]] && ns == [];
      SumTwo(ls[0], ls[1]);
    } else if |ls| == 1 {
      assert ls == [ls[0]] && ns == [ns[0]];
      SumOne(ls[0]);
      SumOne(ns[0]);
    } else {
      assert ls == [] && ns == [ns[0], ns[1]];
      SumTwo(ns[0], ns[1]);
    }
  }

  /** The two items of node j add up to its weight. */
  lemma TwoItems(t: Tree, j: nat)
    requires t.Valid() && j < |t.w|
    ensures |t.h| == |t.w| && 0 <= Lc(t.ic, j) <= Lc(t.ic, j + 1) <= |t.f| && t.ic[j] <= t.ic[j + 1] <= j
    ensures var a, b, c, d := Lc(t.ic, j), Lc(t.ic, j + 1), t.ic[j], t.ic[j + 1];
            && (b == a + 2 ==> d == c && t.w[j] == t.f[a] + t.f[a + 1])
            && (b == a + 1 ==> d == c + 1 && t.w[j] == t.f[a] + t.w[c])
            && (b == a ==> d == c + 2 && t.w[j] == t.w[c] + t.w[c + 1])
            && a <= b <= a + 2
  {
    Children(t, j);
    assert Greedy(|t.f|, t.ic, t.f, t.w, t.h, j);
    hide Tree.Valid, History;
    TwoValues(t.f[Lc(t.ic, j)..Lc(t.ic, j + 1)], t.w[t.ic[j]..t.ic[j + 1]]);
  }

  lemma GreedyFacts(t: Tree, j: nat)
    requires t.Valid() && j < |t.w|
    ensures |t.h| == |t.w| && 0 <= Lc(t.ic, j) <= Lc(t.ic, j + 1) <= |t.f| && t.ic[j] <= t.ic[j + 1] <= j
    ensures forall k :: Lc(t.ic, j) <= k < Lc(t.ic, j + 1) ==> t.f[k] <= t.h[j]
    ensures forall i :: t.ic[j] <= i < t.ic[j + 1] ==> t.w[i] <= t.h[j]
    ensures forall k :: Lc(t.ic, j + 1) <= k < |t.f| ==> t.h[j] <= t.f[k]
    ensures forall i :: t.ic[j + 1] <= i < j ==> t.h[j] <= t.w[i]
    ensures t.h[j] < t.w[j]
    ensures Lc(t.ic, j + 1) < |t.f| ==> forall i :: t.ic[j] <= i < t.ic[j + 1] ==> t.w[i] < t.f[Lc(t.ic, j + 1)]
  {
    Children(t, j);
    assert Greedy(|t.f|, t.ic, t.f, t.w, t.h, j);
    assert LeafFirst(|t.f|, t.ic, t.f, t.w, j);
  }

  /** Two nodes in a row of the same weight have items of one weight only, and if the first one has taken a node,
      then so has the second. */
  lemma SameWeights(t: Tree, j: nat)
    requires t.Valid() && j + 1 < |t.w| && t.w[j] == t.w[j + 1]
    ensures |t.h| == |t.w| && 0 <= Lc(t.ic, j + 1) <= Lc(t.ic, j + 2) <= |t.f|
    ensures t.ic[j] <= t.ic[j + 1] <= t.ic[j + 2] <= j + 1
    ensures forall i :: t.ic[j] <= i < t.ic[j + 1] ==> t.w[i] == t.h[j]
    ensures forall i :: t.ic[j + 1] <= i < t.ic[j + 2] ==> t.w[i] == t.h[j]
    ensures t.ic[j] < t.ic[j + 1] ==> t.ic[j + 1] < t.ic[j + 2]
  {
    TwoItems(t, j);
    TwoItems(t, j + 1);
    GreedyFacts(t, j);
    hide Tree.Valid, History;
  }

  /** Nodes of the same weight are formed in order of height. */
  ghost predicate Ranked(t: Tree, m: nat)
    requires t.Valid() && m <= |t.w|
  {
    forall i, j :: 0 <= i < j < m && t.w[i] == t.w[j] ==> Height(t.ic, |t.f|, i) <= Height(t.ic, |t.f|, j)
  }

  lemma NextNode(t: Tree, j: nat)
    requires t.Valid() && j + 1 < |t.w| && Ranked(t, j + 1) && t.w[j] == t.w[j + 1]
    ensures |t.ic| == |t.f| == |t.w| + 1 && History(|t.f|, t.ic)
    ensures Height(t.ic, |t.f|, j) <= Height(t.ic, |t.f|, j + 1)
  {
    hide Tree.Valid, History, Height;
    Sizes(t);
    SameWeights(t, j);
    if t.ic[j] < t.ic[j + 1] {
      var i := TallestChild(t.ic, |t.f|, j);
      var i' := t.ic[j + 1];
      ChildBelow(t.ic, |t.f|, j + 1, i');
      assert t.w[i] == t.w[i'];
    } else {
      Childless(t.ic, |t.f|, j);
    }
  }

  lemma Childless(ic: seq<nat>, n: nat, j: nat)
    requires History(n, ic) && j + 1 < |ic| && ic[j] == ic[j + 1]
    ensures Height(ic, n, j) == 1
  {
  }

  lemma {:induction false} NodesRanked(t: Tree, m: nat)
    requires t.Valid() && m <= |t.w|
    ensures Ranked(t, m)
  {
    if m > 0 {
      NodesRanked(t, m - 1);
      assert Sorted(t.w);
      if m > 1 && t.w[m - 2] == t.w[m - 1] {
        NextNode(t, m - 2);
      }
      hide Tree.Valid, Height;
    }
  }
}
