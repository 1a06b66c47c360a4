/** A limit that costs something: Fibonacci counts need codes of eight bits, and with at most seven the text gets
    longer. */
module LimitExample {
  import opened Sums
  import opened MergeTree
  import opened HuffmanTree
  import opened HuffmanOptimal
  import opened MinimumRedundancy
  import opened RadixSort
  import SymbolCosts

  const COUNTS: seq<nat> := [1, 1, 2, 3, 5, 8, 13, 21, 34]
  const LENGTHS: seq<nat> := [8, 8, 7, 6, 5, 4, 3, 2, 1]

  lemma KeysPush(u: seq<SymFreq>, x: SymFreq)
    ensures SymbolCosts.Keys(u + [x]) == SymbolCosts.Keys(u) + [x.key]
  {
  }

  lemma UsedPush(f: seq<nat>, v: nat)
    requires v > 0
    ensures SymbolCosts.Used(f + [v]) == SymbolCosts.Used(f) + [SymFreq(v, |f|)]
  {
    assert (f + [v])[..|f|] == f;
  }

  /** With every symbol used, positions are symbols. */
  lemma {:induction false} AllUsed(f: seq<nat>)
    requires forall i :: 0 <= i < |f| ==> f[i] > 0
    ensures |SymbolCosts.Used(f)| == |f| && SymbolCosts.Keys(SymbolCosts.Used(f)) == f
    ensures forall k :: 0 <= k < |f| ==> SymbolCosts.Used(f)[k] == SymFreq(f[k], k)
  {
    hide SymbolCosts.Used, SymbolCosts.Keys;
    if f == [] {
      NoneUsed();
    } else {
      var g, v := f[..|f| - 1], f[|f| - 1];
      AllUsed(g);
      UsedPush(g, v);
      KeysPush(SymbolCosts.Used(g), SymFreq(v, |g|));
      assert f == g + [v];
    }
  }

  lemma NoneUsed()
    ensures SymbolCosts.Used([]) == [] && SymbolCosts.Keys([]) == []
  {
  }

  lemma FitsByRank(f: seq<nat>, l: seq<nat>, m: nat)
    requires |l| == |f| && forall i :: 0 <= i < |f| ==> f[i] > 0
    ensures SymbolCosts.FitsWithin(f, l, m) <==> AllAtMost(l, m) && Kraft(l, m) <= Pow2(m)
  {
    AllUsed(f);
    var t := SymbolCosts.Used(f);
    hide Kraft, Pow2, SymbolCosts.Used, SymbolCosts.UsedTotal, SymbolCosts.Share;
    if AllAtMost(l, m) || SymbolCosts.FitsWithin(f, l, m) {
      SymbolCosts.KraftMoves(f, t, l, m);
      assert SymbolCosts.Pick(l, t) == l;
    }
  }

  /** The merges: every node but the first takes a leaf and the node before it. */
  const CONSUMED: seq<nat> := [0, 0, 1, 2, 3, 4, 5, 6, 7]
  const WEIGHTS: seq<nat> := [2, 4, 7, 12, 20, 33, 54, 88]
  const LARGER: seq<nat> := [1, 2, 4, 7, 12, 20, 33, 54]

  lemma StepValues(m: nat)
    requires 1 <= m < 8
    ensures COUNTS[m + 1] <= WEIGHTS[m - 1] == LARGER[m] && WEIGHTS[m] == COUNTS[m + 1] + WEIGHTS[m - 1]
    ensures m < 7 ==> WEIGHTS[m - 1] < COUNTS[m + 2]
    ensures CONSUMED[m] == m - 1 && CONSUMED[m + 1] == m
  {
  }

  lemma {:induction false} BuildQueues(m: nat)
    requires 1 <= m <= 8
    ensures Queues(COUNTS, CONSUMED[..m + 1], WEIGHTS[..m], LARGER[..m])
  {
    hide Queues;
    if m == 1 {
      assert CONSUMED[..2] == [0, 0] && WEIGHTS[..1] == [COUNTS[0] + COUNTS[1]] && LARGER[..1] == [COUNTS[1]];
      FirstMerge(COUNTS);
    } else {
      var k := m - 1;
      BuildQueues(k);
      StepValues(k);
      hide COUNTS, CONSUMED, WEIGHTS, LARGER;
      var ic, w, h, a, b := CONSUMED[..m], WEIGHTS[..k], LARGER[..k], COUNTS[k + 1], WEIGHTS[k - 1];
      assert CONSUMED[..m + 1] == ic + [k] && WEIGHTS[..m] == w + [a + b] && LARGER[..m] == h + [b];
      MergeStep(COUNTS, ic, w, h, k + 1, k - 1, a, b, k + 2, k - 1, k + 2, k);
    }
  }

  const PARENTS: seq<nat> := [1, 2, 3, 4, 5, 6, 7]
  const LEAF_PARENTS: seq<nat> := [0, 0, 1, 2, 3, 4, 5, 6, 7]
  const DEPTHS: seq<nat> := [7, 6, 5, 4, 3, 2, 1, 0]

  lemma TableValues()
    ensures |CONSUMED| == |LEAF_PARENTS| == 9 && |PARENTS| == 7 && |DEPTHS| == 8
    ensures forall j :: 0 <= j < 9 ==> CONSUMED[j] == if j == 0 then 0 else j - 1
    ensures forall k :: 0 <= k < 9 ==> LEAF_PARENTS[k] == if k == 0 then 0 else k - 1
    ensures forall i :: 0 <= i < 7 ==> PARENTS[i] == i + 1
    ensures forall i :: 0 <= i < 8 ==> DEPTHS[i] == 7 - i
  {
  }

  lemma BuildParents()
    ensures Parents(9, CONSUMED, PARENTS) && LeafParents(9, CONSUMED, LEAF_PARENTS) && Depths(PARENTS, DEPTHS)
  {
    TableValues();
    hide CONSUMED, PARENTS, LEAF_PARENTS, DEPTHS;
  }

  lemma Whole()
    ensures CONSUMED[..9] == CONSUMED && WEIGHTS[..8] == WEIGHTS && LARGER[..8] == LARGER && |COUNTS| == 9
    ensures |WEIGHTS| == |LARGER| == 8 && |CONSUMED| == |LEAF_PARENTS| == 9 && |DEPTHS| == 8
  {
  }

  /** The lengths that the in-place pass computes for the counts. */
  lemma BuildTree() returns (t: Tree)
    ensures t.Valid() && t.f == COUNTS && t.len == LENGTHS
  {
    hide Queues, Parents, LeafParents, Depths, History, Tree.Valid, CONSUMED, WEIGHTS, LARGER, PARENTS, LEAF_PARENTS,
      DEPTHS, COUNTS, LENGTHS;
    BuildQueues(8);
    Whole();
    BuildParents();
    t := FinishTree(COUNTS, CONSUMED, WEIGHTS, LARGER, PARENTS, LEAF_PARENTS, DEPTHS);
    FullLength(t);
    LengthValues(t.len);
  }

  lemma LengthValues(len: seq<nat>)
    requires |len| == 9 && forall k :: 0 <= k < 9 ==> LEAF_PARENTS[k] < 8 && len[k] == 1 + DEPTHS[LEAF_PARENTS[k]]
    ensures len == LENGTHS
  {
    TableValues();
    assert forall k :: 0 <= k < 9 ==> LENGTHS[k] == if k == 0 then 8 else 9 - k;
    hide LENGTHS, DEPTHS, LEAF_PARENTS;
  }

  lemma CostValue()
    ensures |COUNTS| == |LENGTHS| == 9 && Cost(COUNTS, LENGTHS) == 220
  {
    var x: seq<nat> := [8, 8, 14, 18, 25, 32, 39, 42, 34];
    CostAsSum(COUNTS, LENGTHS, x);
    hide COUNTS, LENGTHS;
    SumOfFour([8, 8, 14, 18, 25], 32, 39, 42, 34);
    SumOfFour([8], 8, 14, 18, 25);
    SumOne(8);
    assert x == [8, 8, 14, 18, 25] + [32, 39, 42, 34];
    assert [8, 8, 14, 18, 25] == [8] + [8, 14, 18, 25];
  }

  lemma SumOfFour(s: seq<nat>, a: nat, b: nat, c: nat, d: nat)
    ensures Sum(s + [a, b, c, d]) == Sum(s) + a + b + c + d
  {
    SumAppend(s, [a, b, c, d]);
    assert [a, b, c, d] == [a, b] + [c, d];
    SumAppend([a, b], [c, d]);
    SumTwo(a, b);
    SumTwo(c, d);
  }

  lemma AllCounted()
    ensures |COUNTS| == |LENGTHS| == 9 && (forall i :: 0 <= i < |COUNTS| ==> COUNTS[i] > 0) && AllAtMost(LENGTHS, 8)
    ensures !AllAtMost(LENGTHS, 7)
  {
    assert LENGTHS[0] == 8;
  }

  /** Eight bits code the text in 220 bits, seven do not. */
  lemma SevenBitsCostMore(l: seq<nat>)
    requires SymbolCosts.FitsWithin(COUNTS, l, 7)
    ensures SymbolCosts.FitsWithin(COUNTS, LENGTHS, 8)
    ensures |l| == 9 && Cost(COUNTS, LENGTHS) == 220 < Cost(COUNTS, l)
  {
    hide Tree.Valid, Kraft, Pow2, Cost, SymbolCosts.FitsWithin, LENGTHS, COUNTS, AllAtMost;
    var t := BuildTree();
    CostValue();
    AllCounted();
    SymbolCosts.SameLength(COUNTS, l, 7);
    FitsByRank(COUNTS, l, 7);
    FitsByRank(COUNTS, LENGTHS, 8);
    KraftEquality(t, 8);
    Optimal(t, l, 7);
  }

  /** So no optimal sizes for these counts respect a limit of seven bits, and limited ones are not optimal. */
  lemma NotLimitable()
    ensures !SymbolCosts.Limitable(COUNTS, 7)
  {
    hide Cost, SymbolCosts.FitsWithin, LENGTHS, COUNTS;
    if l: seq<nat> :| SymbolCosts.FitsWithin(COUNTS, l, 7) && SymbolCosts.OptimalSizes(COUNTS, l) {
      SevenBitsCostMore(l);
    }
  }
}
