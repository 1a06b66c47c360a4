/** From a histogram of code sizes to the codes themselves (the second half of tdefl_optimize_huffman_table). */
module HuffmanCodes {
  import opened Sums
  import opened Bits
  import opened CanonicalCode
  import opened InflateTable
  import LengthLimit

  /** The histogram counts the sizes of `sz`. */
  ghost predicate Histogram(num: seq<int>, sz: seq<nat>, m: nat) {
    m < |num| && forall l :: 1 <= l <= m ==> num[l] == Cnt(sz, l)
  }

  /** First code and code space are two views of one sum. */
  lemma {:induction false} FirstIsSpace(num: seq<int>, sz: seq<nat>, m: nat, k: nat)
    requires Histogram(num, sz, m) && k <= m
    ensures First(sz, k + 1) == 2 * LengthLimit.Space(num, k, k)
  {
    if k > 0 {
      FirstIsSpace(num, sz, m, k - 1);
      LengthLimit.SpaceRescale(num, k - 1, k - 1, 1);
      assert Pow2(0) == 1 && Pow2(1) == 2;
    }
  }

  lemma {:induction false} NoneLonger(sz: seq<nat>, l: nat)
    requires forall i :: 0 <= i < |sz| ==> sz[i] != l
    ensures Cnt(sz, l) == 0
  {
    if sz != [] {
      NoneLonger(sz[..|sz| - 1], l);
    }
  }

  /** Below the longest code the canonical numbering only doubles. */
  lemma {:induction false} FirstBeyond(sz: seq<nat>, m: nat, k: nat)
    requires 1 <= m <= k && forall i :: 0 <= i < |sz| ==> sz[i] <= m
    ensures First(sz, k + 1) == First(sz, m + 1) * Pow2(k - m)
    decreases k
  {
    if m < k {
      FirstBeyond(sz, m, k - 1);
      NoneLonger(sz, k);
      Twice(First(sz, m + 1), k - m - 1);
    } else {
      assert Pow2(0) == 1;
    }
  }

  /** A histogram within the code space describes usable sizes; one that fills it, sizes that use up all codes. */
  lemma FitsSpace(num: seq<int>, sz: seq<nat>, m: nat)
    requires Histogram(num, sz, m) && 1 <= m <= 15 && 0 <= LengthLimit.Space(num, m, m) <= Pow2(m)
    requires forall i :: 0 <= i < |sz| ==> sz[i] <= m
    ensures Fits(sz)
    ensures LengthLimit.Space(num, m, m) == Pow2(m) ==> Full(sz)
  {
    FirstIsSpace(num, sz, m, m);
    FirstBeyond(sz, m, 15);
    Pow2Add(m + 1, 15 - m);
    assert m + 1 + (15 - m) == 16;
    assert Pow2(5) == 32 && Pow2(10) == 1024 && Pow2(15) == 0x8000 && Pow2(16) == 0x10000;
    MulUp(First(sz, m + 1), Pow2(m + 1), Pow2(15 - m));
  }

  /** The 16-bit code table holds, for every used symbol, its code with the first transmitted bit lowest. */
  ghost predicate CodeTable(codes: seq<nat>, sz: seq<nat>, n: nat)
    requires n <= |sz| <= |codes|
  {
    forall i :: 0 <= i < n && sz[i] > 0 ==> codes[i] == Val(Word(sz, i)) <= 0xFFFF
  }

  method NextCodes(num: array<int>, m: int, ghost sz: seq<nat>) returns (nextCode: array<int>)
    requires 1 <= m <= 15 && num.Length == 33 && Histogram(num[..], sz, m) && Fits(sz)
    ensures fresh(nextCode) && nextCode.Length == 33
    ensures forall l :: 1 <= l <= m ==> nextCode[l] == First(sz, l)
  {
    hide Cnt;
    nextCode := new int[33](_ => 0);
    nextCode[1] := 0;
    var j, i := 0, 2;
    while i <= m
      invariant 2 <= i <= m + 1 && j == First(sz, i - 1)
      invariant forall l :: 1 <= l < i ==> nextCode[l] == First(sz, l)
    {
      j := 2 * (j + num[i - 1]);
      nextCode[i] := j;
      i := i + 1;
    }
  }

  lemma ReversedFits(sz: seq<nat>, i: nat)
    requires Sizes(sz) && i < |sz|
    ensures Val(Word(sz, i)) <= 0xFFFF
  {
    ValBound(Word(sz, i));
    Pow2Monotone(sz[i], 15);
    assert Pow2(5) == 32 && Pow2(10) == 1024 && Pow2(15) == 0x8000;
  }

  lemma StoreCode(codes: seq<nat>, sz: seq<nat>, i: nat, rev: nat)
    requires i < |sz| <= |codes| && CodeTable(codes, sz, i) && Sizes(sz) && rev == Val(Word(sz, i))
    ensures rev % 0x10000 == rev && CodeTable(codes[i := rev], sz, i + 1)
  {
    ReversedFits(sz, i);
  }

  lemma SkipCode(codes: seq<nat>, sz: seq<nat>, i: nat)
    requires i < |sz| <= |codes| && CodeTable(codes, sz, i) && sz[i] == 0
    ensures CodeTable(codes, sz, i + 1)
  {
  }

  /** Numbers the symbols of each size consecutively, in order, and stores their codes bit-reversed. */
  method AssignCodes(num: array<int>, sizes: array<nat>, codes: array<nat>, n: int, m: int)
    requires 1 <= m <= 15 && num.Length == 33 && 0 <= n <= sizes.Length && n <= codes.Length && codes != sizes
    requires Histogram(num[..], sizes[..n], m) && Fits(sizes[..n]) && forall i :: 0 <= i < n ==> sizes[i] <= m
    modifies codes
    ensures CodeTable(codes[..], sizes[..n], n)
    ensures forall i :: 0 <= i < codes.Length && (i < n ==> sizes[i] == 0) ==> codes[i] == old(codes[i])
  {
    hide First, Cnt, Code, Word, Val, Numbered, CodeTable, Histogram;
    ghost var sz := sizes[..n];
    ghost var codes0 := codes[..];
    var nextCode := NextCodes(num, m, sz);
    StartNumbering(nextCode[..], sz, m);
    StartCodes(codes[..], sz);
    var i := 0;
    while i < n
      invariant 0 <= i <= n && sizes[..n] == sz
      invariant Numbered(nextCode[..], sz, i, m)
      invariant CodeTable(codes[..], sz, i)
      invariant forall k :: 0 <= k < codes.Length && (k < i ==> sz[k] == 0) ==> codes[k] == codes0[k]
    {
      var size := sizes[i];
      assert size == sz[i];
      NumberNext(nextCode[..], sz, i, m);
      if size != 0 {
        var code := nextCode[size];
        nextCode[size] := code + 1;
        var rev := ReverseCode(code, size);
        CodeIs(sz, i, code);
        StoreCode(codes[..], sz, i, rev);
        codes[i] := rev % 0x10000;
      } else {
        SkipCode(codes[..], sz, i);
      }
      i := i + 1;
    }
  }

  lemma StartCodes(codes: seq<nat>, sz: seq<nat>)
    requires |sz| <= |codes|
    ensures CodeTable(codes, sz, 0)
  {
  }

  lemma CodeIs(sz: seq<nat>, i: nat, code: nat)
    requires i < |sz| && code == Code(sz, i)
    ensures Word(sz, i) == Msb(code, sz[i])
  {
  }
}
