/** The decoder's table construction, from code sizes to a filled table. */
module InflateBuild {
  import opened Collections
  import opened Words
  import opened Sums
  import opened Bits
  import opened CanonicalCode
  import opened InflateTable

  lemma {:induction false} FirstBound(sz: seq<nat>, l: nat)
    requires 1 <= l
    ensures First(sz, l) <= |sz| * (Pow2(l) - 2)
  {
    if l == 1 {
      assert Pow2(1) == 2 * Pow2(0) == 2;
    } else {
      FirstBound(sz, l - 1);
      FirstArithmetic(First(sz, l - 1), Cnt(sz, l - 1), |sz|, Pow2(l - 1));
    }
  }

  lemma FirstArithmetic(x: nat, c: nat, n: nat, p: nat)
    requires x <= n * (p - 2) && c <= n
    ensures 2 * (x + c) <= n * (2 * p - 2)
  {
    assert n * (2 * p - 2) == 2 * (n * (p - 2)) + 2 * n;
  }

  /** The additions of the table builder fit 32 bits. */
  lemma FirstFits(sz: seq<nat>, l: nat)
    requires |sz| <= 288 && 1 <= l <= 16
    ensures First(sz, l) < 0x1_0000_0000
  {
    FirstBound(sz, l);
    Pow2Monotone(l, 16);
    assert Pow2(5) == 32 && Pow2(10) == 1024 && Pow2(15) == 0x8000 && Pow2(16) == 0x10000;
    MulLe(|sz|, 288, Pow2(l) - 2, 0x10000);
  }

  lemma MulLe(a: int, b: int, x: int, y: int)
    requires 0 <= a <= b && x <= y && 0 <= y
    ensures a * x <= b * y
  {
    assert a * x <= a * y;
    assert a * y <= b * y;
  }

  lemma {:induction false} UsedSome(sz: seq<nat>, i: nat)
    requires Sizes(sz) && i < |sz| && sz[i] > 0
    ensures CntUpTo(sz, 1, 15) >= 1
  {
    CntUpToStep(sz, 1, 15);
    if i < |sz| - 1 {
      UsedSome(sz[..|sz| - 1], i);
    }
  }

  lemma {:induction false} UsedTwo(sz: seq<nat>, i: nat, j: nat)
    requires Sizes(sz) && i < j < |sz| && sz[i] > 0 && sz[j] > 0
    ensures CntUpTo(sz, 1, 15) >= 2
  {
    CntUpToStep(sz, 1, 15);
    if j < |sz| - 1 {
      UsedTwo(sz[..|sz| - 1], i, j);
    } else {
      UsedSome(sz[..|sz| - 1], i);
    }
  }

  lemma {:induction false} FindUsed(sz: seq<nat>) returns (i: nat)
    requires Sizes(sz) && CntUpTo(sz, 1, 15) >= 1
    ensures i < |sz| && sz[i] > 0
  {
    i := 0;
    CntEmpty(1, 15);
    if sz != [] {
      CntUpToStep(sz, 1, 15);
      if sz[|sz| - 1] > 0 {
        i := |sz| - 1;
      } else {
        i := FindUsed(sz[..|sz| - 1]);
      }
    }
  }

  lemma {:induction false} FindTwoUsed(sz: seq<nat>) returns (i: nat, j: nat)
    requires Sizes(sz) && CntUpTo(sz, 1, 15) >= 2
    ensures i < j < |sz| && sz[i] > 0 && sz[j] > 0
  {
    i, j := 0, 0;
    CntEmpty(1, 15);
    if sz != [] {
      CntUpToStep(sz, 1, 15);
      if sz[|sz| - 1] > 0 {
        j := |sz| - 1;
        i := FindUsed(sz[..|sz| - 1]);
      } else {
        i, j := FindTwoUsed(sz[..|sz| - 1]);
      }
    }
  }

  /** The decoder's test, on the counts it has gathered, accepts exactly the usable size vectors. */
  lemma AcceptTest(sz: seq<nat>)
    requires Sizes(sz)
    ensures First(sz, 16) == 0x10000 || CntUpTo(sz, 1, 15) <= 1 <==> Accepted(sz)
  {
    if CntUpTo(sz, 1, 15) <= 1 {
      forall i, j | 0 <= i < |sz| && 0 <= j < |sz| && sz[i] > 0 && sz[j] > 0 ensures i == j {
        if i < j {
          UsedTwo(sz, i, j);
        } else if j < i {
          UsedTwo(sz, j, i);
        }
      }
    } else {
      var i, j := FindTwoUsed(sz);
    }
  }

  /** total_syms: how often each size occurs. */
  method CountSizes(codeSize: array<nat>, n: nat) returns (total: array<int>)
    requires n <= codeSize.Length && Sizes(codeSize[..n])
    ensures fresh(total) && total.Length == 16
    ensures forall l :: 0 <= l <= 15 ==> total[l] == Cnt(codeSize[..n], l)
  {
    total := new int[16](_ => 0);
    var i := 0;
    while i < n
      invariant 0 <= i <= n
      invariant forall l :: 0 <= l <= 15 ==> total[l] == Cnt(codeSize[..i], l)
    {
      assert codeSize[..i + 1][..i] == codeSize[..i];
      assert codeSize[..n][i] == codeSize[i];
      total[codeSize[i]] := total[codeSize[i]] + 1;
      i := i + 1;
    }
  }

  lemma CountingStart(sz: seq<nat>)
    ensures First(sz, 1) == 0 && CntUpTo(sz, 1, 0) == 0
  {
  }

  lemma CountingStep(sz: seq<nat>, i: nat)
    requires |sz| <= 288 && 1 <= i <= 15
    ensures U32(2 * (First(sz, i) + Cnt(sz, i))) == First(sz, i + 1)
    ensures CntUpTo(sz, 1, i) == CntUpTo(sz, 1, i - 1) + Cnt(sz, i)
  {
    FirstFits(sz, i + 1);
  }

  /** next_code, the number of used symbols, and the test of the code space. */
  method FirstCodes(total: array<int>, ghost sz: seq<nat>) returns (nextCode: array<int>, ok: bool)
    requires total.Length == 16 && Sizes(sz) && |sz| <= 288
    requires forall l :: 0 <= l <= 15 ==> total[l] == Cnt(sz, l)
    ensures fresh(nextCode) && nextCode.Length == 17
    ensures forall l :: 1 <= l <= 15 ==> nextCode[l] == First(sz, l)
    ensures ok <==> Accepted(sz)
  {
    hide Accepted, First, Cnt, CntUpTo, U32;
    nextCode := new int[17](_ => 0);
    var usedSyms, sum := 0, 0;
    var i := 1;
    CountingStart(sz);
    while i <= 15
      invariant 1 <= i <= 16
      invariant sum == First(sz, i) && usedSyms == CntUpTo(sz, 1, i - 1)
      invariant forall l :: 1 <= l <= i ==> nextCode[l] == First(sz, l)
    {
      usedSyms := usedSyms + total[i];
      CountingStep(sz, i);
      sum := U32(2 * (sum + total[i]));
      nextCode[i + 1] := sum;
      i := i + 1;
    }
    ok := !(0x10000 != sum && usedSyms > 1);
    AcceptTest(sz);
  }

  /** The empty table. */
  lemma EmptyTable(lu: seq<int>, tr: seq<int>, sz: seq<nat>)
    requires |lu| == FAST_LOOKUP_SIZE && |tr| == TREE_SIZE
    requires (forall x :: 0 <= x < |lu| ==> lu[x] == 0) && (forall x :: 0 <= x < |tr| ==> tr[x] == 0)
    ensures Built(map[], -1, lu, tr, sz, 0)
  {
    forall p: seq<bool> | |p| == FAST_LOOKUP_BITS ensures Val(p) < |lu| {
      AllStrings(p);
    }
    assert Nodes(map[]) == {};
  }

  /** The table construction of tinfl_decompress: accepts exactly the size vectors that use up the code
      space (or use at most one symbol), and then leaves a table in which every symbol is found. All
      accesses stay inside the lookup and tree arrays. */
  method BuildTable(codeSize: array<nat>, n: nat, lu: array<int>, tr: array<int>)
    returns (ok: bool, ghost c: Entries, ghost next: int)
    requires lu != tr && lu.Length == FAST_LOOKUP_SIZE && tr.Length == TREE_SIZE
    requires n <= codeSize.Length && n <= 288 && Sizes(codeSize[..n])
    modifies lu, tr
    ensures ok <==> Accepted(codeSize[..n])
    ensures ok ==> Built(c, next, lu[..], tr[..], codeSize[..n], n)
  {
    hide Accepted, Built, Numbered, First, Cnt, Code;
    ghost var sz := codeSize[..n];
    Clear(lu, 0);
    Clear(tr, 0);
    var total := CountSizes(codeSize, n);
    var nextCode;
    nextCode, ok := FirstCodes(total, sz);
    c, next := map[], -1;
    if !ok {
      return;
    }
    EmptyTable(lu[..], tr[..], sz);
    StartNumbering(nextCode[..], sz, 15);
    var treeNext, k := -1, 0;
    while k < n
      invariant 0 <= k <= n && next == treeNext && codeSize[..n] == sz
      invariant Built(c, next, lu[..], tr[..], sz, k)
      invariant Numbered(nextCode[..], sz, k, 15)
    {
      var size := codeSize[k];
      assert sz[k] == size;
      NumberNext(nextCode[..], sz, k, 15);
      if size == 0 {
        SkipStep(c, next, lu[..], tr[..], sz, k);
      } else {
        var code := nextCode[size];
        nextCode[size] := code + 1;
        treeNext, c := InsertSymbol(lu, tr, k, size, code, treeNext, sz, c);
        next := treeNext;
      }
      k := k + 1;
    }
  }
}
