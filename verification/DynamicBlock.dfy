/** Writing a dynamic block: choosing the codes, describing them, and using them. */
module DynamicBlock {
  import opened Sums
  import opened Bits
  import opened CanonicalCode
  import opened InflateTable
  import opened HuffmanCodes
  import opened OptimizeTable
  import opened LzTokens
  import opened LzBuffer
  import opened BitWriter
  import opened BlockWriter
  import opened CodeLengthPacking
  import opened DynamicHeader
  import opened SymbolCosts
  import opened TokenCosts
  import HuffmanTree
  import MinimumRedundancy

  // ---------------------------------------------------------------- leaving out trailing unused symbols

  ghost predicate Unused(sz: seq<nat>, from: nat) {
    forall i :: from <= i < |sz| ==> sz[i] == 0
  }

  lemma {:induction false} TrimCnt(sz: seq<nat>, n: nat, l: nat)
    requires n <= |sz| && Unused(sz, n) && l > 0
    ensures Cnt(sz[..n], l) == Cnt(sz, l)
  {
    if n < |sz| {
      TrimCnt(sz[..|sz| - 1], n, l);
      assert sz[..|sz| - 1][..n] == sz[..n];
    } else {
      assert sz[..n] == sz;
    }
  }

  lemma {:induction false} TrimFirst(sz: seq<nat>, n: nat, l: nat)
    requires n <= |sz| && Unused(sz, n)
    ensures First(sz[..n], l) == First(sz, l)
  {
    if l > 1 {
      TrimFirst(sz, n, l - 1);
      TrimCnt(sz, n, l - 1);
    }
  }

  /** The decoder, which never sees trailing unused symbols, assigns the same codes. */
  lemma TrimWord(sz: seq<nat>, n: nat, i: nat)
    requires n <= |sz| && Unused(sz, n) && i < |sz| && sz[i] > 0
    ensures i < n && Word(sz[..n], i) == Word(sz, i)
  {
    TrimFirst(sz, n, sz[i]);
    assert sz[..n][..i] == sz[..i];
  }

  lemma TrimAccepted(sz: seq<nat>, n: nat)
    requires n <= |sz| && Unused(sz, n) && Accepted(sz)
    ensures Accepted(sz[..n])
  {
    TrimFirst(sz, n, 16);
    hide First;
  }

  lemma TrimCoded(l: seq<nat>, d: seq<nat>, nl: nat, nd: nat, t: Token)
    requires nl <= |l| && nd <= |d| && Unused(l, nl) && Unused(d, nd) && Coded(l, d, t)
    ensures Coded(l[..nl], d[..nd], t) && TokenBits(l[..nl], d[..nd], t) == TokenBits(l, d, t)
  {
    hide Word, LenSym, DistSym, LenExtra, DistExtra, Bin;
    TrimWord(l, nl, LitLenSym(t));
    if t.Match? {
      TrimWord(d, nd, DistSym(t.dist - 1));
    }
  }

  lemma {:induction false} TrimTokens(l: seq<nat>, d: seq<nat>, nl: nat, nd: nat, ts: seq<Token>)
    requires nl <= |l| && nd <= |d| && Unused(l, nl) && Unused(d, nd) && AllCoded(l, d, ts)
    ensures AllCoded(l[..nl], d[..nd], ts) && TokensBits(l[..nl], d[..nd], ts) == TokensBits(l, d, ts)
  {
    hide Coded, TokenBits;
    if ts != [] {
      TrimTokens(l, d, nl, nd, ts[..|ts| - 1]);
      TrimCoded(l, d, nl, nd, ts[|ts| - 1]);
    }
  }

  /** The decoder's view of the body. */
  lemma TrimBody(l: seq<nat>, d: seq<nat>, nl: nat, nd: nat, ts: seq<Token>)
    requires nl <= |l| && nd <= |d| && Unused(l, nl) && Unused(d, nd) && AllCoded(l, d, ts) && |l| > 256 && l[256] > 0
    ensures AllCoded(l[..nl], d[..nd], ts) && nl > 256 && BodyBits(l[..nl], d[..nd], ts) == BodyBits(l, d, ts)
  {
    hide Word, TokensBits, AllCoded;
    TrimTokens(l, d, nl, nd, ts);
    TrimWord(l, nl, 256);
  }

  // ---------------------------------------------------------------- counts

  lemma {:induction false} UsedLit(ts: seq<Token>, i: nat)
    requires i < |ts| && WellFormed(ts[i])
    ensures LitLenUses(ts, LitLenSym(ts[i])) > 0
    ensures ts[i].Match? ==> DistUses(ts, DistSym(ts[i].dist - 1)) > 0
  {
    hide LenSym, DistSym;
    if i < |ts| - 1 {
      UsedLit(ts[..|ts| - 1], i);
    }
  }

  /** Symbols that no token has. */
  lemma {:induction false} NeverUsed(ts: seq<Token>, s: nat)
    requires AllWellFormed(ts)
    ensures s == 256 || s >= 286 ==> LitLenUses(ts, s) == 0
    ensures s >= 30 ==> DistUses(ts, s) == 0
  {
    if ts != [] {
      NeverUsed(ts[..|ts| - 1], s);
      SymbolRange(ts[|ts| - 1]);
    }
  }

  /** Counts whose end-of-block entry has been set suit every token. */
  lemma CountsCover(lit: seq<nat>, dist: seq<nat>, ts: seq<Token>, l: seq<nat>, d: seq<nat>)
    requires Counted(lit, dist, ts) && |l| == 288 && |d| == 32
    requires forall s :: 0 <= s < 288 && lit[s] > 0 ==> l[s] > 0
    requires forall s :: 0 <= s < 32 && dist[s] > 0 ==> d[s] > 0
    ensures AllCoded(l, d, ts)
  {
    hide LenSym, DistSym, LitLenSym, LitLenUses, DistUses, Sum;
    forall i | 0 <= i < |ts| ensures Coded(l, d, ts[i]) {
      SymbolRange(ts[i]);
      UsedLit(ts, i);
    }
  }

  /** Without its last step, a sequence uses one symbol less. */
  lemma LastUse(ops: seq<Op>, counts: seq<nat>)
    requires |counts| == 19 && ops != [] && ValidOps(ops) && forall s :: 0 <= s < 19 ==> counts[s] == Uses(ops, s)
    ensures var o, s := ops[..|ops| - 1], Sym(ops[|ops| - 1]);
            && ValidOps(o) && s < 19 && counts[s] > 0
            && forall x :: 0 <= x < 19 ==> counts[s := counts[s] - 1][x] == Uses(o, x)
  {
    ExtraFits(ops[|ops| - 1], Unpacked(ops[..|ops| - 1]));
    hide Unpacked, ValidOp;
  }

  lemma {:induction false} OpsTotal(ops: seq<Op>, n: nat, counts: seq<nat>)
    requires |counts| == n == 19 && ValidOps(ops) && forall s :: 0 <= s < 19 ==> counts[s] == Uses(ops, s)
    ensures Sum(counts) == |ops|
  {
    if ops == [] {
      ZeroSum(counts);
    } else {
      var o, s := ops[..|ops| - 1], Sym(ops[|ops| - 1]);
      LastUse(ops, counts);
      hide Uses, Unpacked, ValidOps, Sum;
      OpsTotal(o, n, counts[s := counts[s] - 1]);
      SumUpdate(counts, s, counts[s] - 1);
    }
  }

  lemma {:induction false} UsedOp(ops: seq<Op>, i: nat)
    requires i < |ops|
    ensures Uses(ops, Sym(ops[i])) > 0
  {
    if i < |ops| - 1 {
      UsedOp(ops[..|ops| - 1], i);
    }
  }

  /** Every step has a code when the code-length counts suit the sizes. */
  lemma OpsCoded(counts: seq<nat>, ops: seq<Op>, sz: seq<nat>)
    requires |counts| >= 19 && |sz| == 19 && ValidOps(ops)
    requires forall s :: 0 <= s < 19 ==> counts[s] == Uses(ops, s)
    requires forall s :: 0 <= s < 19 && counts[s] > 0 ==> sz[s] > 0
    ensures CodedOps(sz, ops)
  {
    forall i | 0 <= i < |ops| ensures Sym(ops[i]) < |sz| && sz[Sym(ops[i])] > 0 {
      UsedOp(ops, i);
      OpSymbol(ops, i);
    }
  }

  lemma {:induction false} OpSymbol(ops: seq<Op>, i: nat)
    requires ValidOps(ops) && i < |ops|
    ensures Sym(ops[i]) <= 18
  {
    if i < |ops| - 1 {
      OpSymbol(ops[..|ops| - 1], i);
    } else {
      ExtraFits(ops[i], Unpacked(ops[..i]));
    }
  }

  // ---------------------------------------------------------------- the compressor's side

  /** One of the three rows of m_huff_code_sizes and m_huff_codes. */
  class CodeBook {
    const sizes: array<nat>
    const codes: array<nat>

    ghost predicate Shape() {
      sizes.Length == 288 && codes.Length == 288 && sizes != codes
    }

    /** The codes of the first n symbols are those of their sizes. */
    ghost predicate For(sz: seq<nat>)
      reads sizes, codes
    {
      Shape() && Books(codes[..], sizes[..], sz)
    }

    constructor ()
      ensures Shape() && fresh(sizes) && fresh(codes)
    {
      sizes := new nat[288](_ => 0);
      codes := new nat[288](_ => 0);
    }

    /** tdefl_optimize_huffman_table for counted symbols. */
    method Optimize(counts: array<nat>, n: nat, m: nat) returns (ghost sz: seq<nat>)
      requires Shape() && counts != sizes && counts != codes && n <= 288 && n <= counts.Length
      requires 1 <= m <= 15 && n <= Pow2(m) && Sum(counts[..n]) <= 0xFFFF
      modifies sizes, codes
      ensures For(sz) && WellSized(counts[..n], sz, m)
    {
      hide WellSized, CodeTable, CanonicalCode.Sizes, Pow2, Sum, MinimumRedundancy.OptimalLengths, OptimalSizes,
        HuffmanTree.AllAtMost, Used;
      ghost var t, len := OptimizeHuffmanTable(counts, sizes, codes, n, m, false);
      sz := sizes[..n];
      WellSizedSizes(counts[..n], sz, m);
    }

    /** The same for the fixed sizes of a static block. */
    method Number(counts: array<nat>, n: nat) returns (ghost sz: seq<nat>)
      requires Shape() && counts != sizes && counts != codes && n <= 288 && n <= counts.Length && Fits(sizes[..n])
      modifies sizes, codes
      ensures For(sz) && sz == old(sizes[..n]) && sizes[..] == old(sizes[..])
    {
      hide Suits, CodeTable, Pow2, Sum, MinimumRedundancy.OptimalLengths, OptimalSizes, HuffmanTree.AllAtMost, Used,
        First;
      sz := sizes[..n];
      assert forall i :: 0 <= i < n ==> sizes[i] == sz[i];
      ghost var before := sizes[..];
      ghost var t, len := OptimizeHuffmanTable(counts, sizes, codes, n, 15, true);
      assert sizes[..n] == before[..n];
    }
  }

  lemma WellSizedSizes(f: seq<nat>, sz: seq<nat>, m: nat)
    requires WellSized(f, sz, m)
    ensures Suits(f, sz, m) && |sz| == |f| && CanonicalCode.Sizes(sz) && (m == 15 ==> NearOptimal(f, sz))
  {
    hide OptimalSizes, Limitable, NearOptimal, HuffmanTree.Fib, Used;
  }

  lemma SuitsSizes(f: seq<nat>, sz: seq<nat>, m: nat)
    requires Suits(f, sz, m)
    ensures |sz| == |f| && CanonicalCode.Sizes(sz) && Accepted(sz)
    ensures forall s :: 0 <= s < |f| ==> (f[s] > 0 <==> sz[s] > 0) && sz[s] <= m
  {
  }

  /** Both alphabets of a block have codes for all its tokens. */
  ghost predicate Expresses(l: seq<nat>, d: seq<nat>, ts: seq<Token>) {
    && |l| == 288 && |d| == 32 && AllCoded(l, d, ts) && l[256] > 0 && Accepted(l) && Accepted(d)
    && CanonicalCode.Sizes(l) && CanonicalCode.Sizes(d)
  }

  lemma SetEnd(lit: seq<nat>, dist: seq<nat>, ts: seq<Token>)
    requires Counted(lit, dist, ts) && |ts| < 0xFFFF
    ensures Sum(lit[256 := 1]) <= 0xFFFF && Sum(dist[..32]) <= 0xFFFF
  {
    hide LitLenUses, DistUses;
    NeverUsed(ts, 256);
    SumUpdate(lit, 256, 1);
    SumSplit(dist, 32);
  }

  lemma ChosenSuit(lit: seq<nat>, dist: seq<nat>, ts: seq<Token>, l: seq<nat>, d: seq<nat>)
    requires Counted(lit, dist, ts) && Suits(lit[256 := 1], l, 15) && Suits(dist[..32], d, 15)
    ensures Expresses(l, d, ts) && Unused(l, 286) && Unused(d, 30)
  {
    hide Suits, Accepted, CanonicalCode.Sizes, AllCoded, LitLenUses, DistUses, Sum;
    SuitsSizes(lit[256 := 1], l, 15);
    SuitsSizes(dist[..32], d, 15);
    CountsCover(lit, dist, ts, l, d);
    forall i | 286 <= i < |l| ensures l[i] == 0 {
      NeverUsed(ts, i);
    }
    forall i | 30 <= i < |d| ensures d[i] == 0 {
      NeverUsed(ts, i);
    }
  }

  /** Both codes are nearly optimal for the symbols of the tokens and one end of block. */
  ghost predicate Economical(l: seq<nat>, d: seq<nat>, ts: seq<Token>) {
    AllWellFormed(ts) && NearOptimal(LitCounts(ts)[256 := 1], l) && NearOptimal(DistCounts(ts), d)
  }

  lemma ChosenEconomical(lit: seq<nat>, dist: seq<nat>, ts: seq<Token>, l: seq<nat>, d: seq<nat>)
    requires Counted(lit, dist, ts) && NearOptimal(lit[256 := 1], l) && NearOptimal(dist[..32], d)
    ensures Economical(l, d, ts)
  {
    CountedCounts(lit, dist, ts);
    hide NearOptimal, LitLenUses, DistUses, LitCounts, DistCounts, Sum;
  }

  /** Codes for the literal/length and distance alphabets, from the counts of the recorded tokens. */
  method ChooseCodes(tb: TokenBuffer, lit: CodeBook, dist: CodeBook) returns (ghost l: seq<nat>, ghost d: seq<nat>)
    requires tb.Sealed() && lit.Shape() && dist.Shape()
    requires tb.litCounts != lit.sizes && tb.litCounts != lit.codes && tb.litCounts != dist.sizes
    requires tb.litCounts != dist.codes
    requires tb.distCounts != lit.sizes && tb.distCounts != lit.codes && tb.distCounts != dist.sizes
    requires tb.distCounts != dist.codes
    requires {lit.sizes, lit.codes} !! {dist.sizes, dist.codes}
    modifies tb.litCounts, lit.sizes, lit.codes, dist.sizes, dist.codes
    ensures lit.For(l) && dist.For(d) && Expresses(l, d, tb.tokens) && Unused(l, 286) && Unused(d, 30)
    ensures Economical(l, d, tb.tokens)
  {
    hide Counted, Books, Suits, Sum, Pow2, Expresses, Unused, TotalLength, Groups, WellSized, NearOptimal, Economical;
    CountedFacts(tb.litCounts[..], tb.distCounts[..], tb.tokens);
    SetEnd(tb.litCounts[..], tb.distCounts[..], tb.tokens);
    ghost var counts := tb.litCounts[..];
    tb.litCounts[256] := 1;
    assert tb.litCounts[..] == counts[256 := 1];
    assert tb.litCounts[..288] == tb.litCounts[..];
    Powers();
    l := lit.Optimize(tb.litCounts, 288, 15);
    d := dist.Optimize(tb.distCounts, 32, 15);
    WellSizedSizes(counts[256 := 1], l, 15);
    WellSizedSizes(tb.distCounts[..32], d, 15);
    assert tb.distCounts[..][..32] == tb.distCounts[..32];
    ChosenSuit(counts, tb.distCounts[..], tb.tokens, l, d);
    ChosenEconomical(counts, tb.distCounts[..], tb.tokens, l, d);
  }

  lemma Powers()
    ensures Pow2(15) == 0x8000 && Pow2(7) == 128 && Pow2(5) == 32 && Pow2(4) == 16 && Pow2(3) == 8 && Pow2(2) == 4
  {
    assert Pow2(5) == 32 && Pow2(10) == 1024 && Pow2(15) == 0x8000;
  }

  /** How many leading symbols have to be described, at least `least`. */
  method CountDescribed(sizes: array<nat>, most: nat, least: nat, ghost sz: seq<nat>) returns (num: nat)
    requires 1 <= least <= most <= |sz| <= sizes.Length && sz == sizes[..|sz|] && Unused(sz, most)
    ensures least <= num <= most && Unused(sz, num)
  {
    num := most;
    while num > least
      invariant least <= num <= most && Unused(sz, num)
    {
      if sizes[num - 1] != 0 {
        return;
      }
      assert sz[num - 1] == 0;
      num := num - 1;
    }
  }

  /** The sizes of both alphabets, one after the other. */
  method JoinSizes(lit: array<nat>, numLit: nat, dist: array<nat>, numDist: nat) returns (all: array<nat>)
    requires numLit <= lit.Length && numDist <= dist.Length
    ensures fresh(all) && all[..] == lit[..numLit] + dist[..numDist]
  {
    all := new nat[numLit + numDist](_ => 0);
    var i := 0;
    while i < numLit
      invariant 0 <= i <= numLit && all[..i] == lit[..i]
    {
      all[i] := lit[i];
      i := i + 1;
    }
    i := 0;
    while i < numDist
      invariant 0 <= i <= numDist && all[..numLit] == lit[..numLit] && all[numLit..numLit + i] == dist[..i]
    {
      all[numLit + i] := dist[i];
      i := i + 1;
    }
  }

  /** Number of code-length codes that have to be sent. */
  method CountLengths(sizes: array<nat>, ghost sz: seq<nat>) returns (num: nat)
    requires sizes.Length >= 19 && sz == sizes[..19]
    ensures 4 <= num <= 19 && forall s :: 0 <= s < 19 && Unswizzle(s) >= num ==> sz[s] == 0
  {
    var k := 18;
    while k >= 0
      invariant -1 <= k <= 18 && forall s :: 0 <= s < 19 && Unswizzle(s) > k ==> sz[s] == 0
    {
      SwizzleRange(k);
      if sizes[SWIZZLE[k]] != 0 {
        break;
      }
      AllAt(sz, k);
      k := k - 1;
    }
    num := if k + 1 < 4 then 4 else k + 1;
  }

  lemma AllAt(sz: seq<nat>, k: nat)
    requires |sz| == 19 && k < 19 && sz[SWIZZLE[k]] == 0 && forall s :: 0 <= s < 19 && Unswizzle(s) > k ==> sz[s] == 0
    ensures forall s :: 0 <= s < 19 && Unswizzle(s) >= k ==> sz[s] == 0
  {
    forall s | 0 <= s < 19 && Unswizzle(s) >= k ensures sz[s] == 0 {
      if Unswizzle(s) == k {
        assert SWIZZLE[k] == s;
      }
    }
  }

  /** The packed sizes are exactly what has to be described. */
  ghost predicate Describes(h: Header, l: seq<nat>, d: seq<nat>) {
    && ValidHeader(h) && h.numLit <= |l| && h.numDist <= |d| && Unused(l, h.numLit) && Unused(d, h.numDist)
    && Unpacked(h.ops) == l[..h.numLit] + d[..h.numDist]
  }

  lemma DescribesAll(h: Header, l: seq<nat>, d: seq<nat>)
    requires |h.sizes| == 19 && 257 <= h.numLit <= 286 <= |l| && 1 <= h.numDist <= 30 <= |d| && 4 <= h.numLengths <= 19
    requires Accepted(l) && Accepted(d) && Unused(l, h.numLit) && Unused(d, h.numDist)
    requires forall s :: 0 <= s < 19 && Unswizzle(s) >= h.numLengths ==> h.sizes[s] == 0
    requires Accepted(h.sizes) && CodedOps(h.sizes, h.ops) && ValidOps(h.ops)
    requires forall i :: 0 <= i < 19 ==> h.sizes[i] <= 7
    requires Unpacked(h.ops) == l[..h.numLit] + d[..h.numDist]
    ensures Describes(h, l, d)
  {
    hide Accepted, CodedOps, ValidOps, Unpacked, Unused;
    TrimAccepted(l, h.numLit);
    TrimAccepted(d, h.numDist);
    assert Unpacked(h.ops)[..h.numLit] == l[..h.numLit] && Unpacked(h.ops)[h.numLit..] == d[..h.numDist];
  }

  lemma LengthCounts(packed: seq<nat>, num: nat, counts: seq<nat>, ops: seq<Op>)
    requires Packed(packed, num, counts, ops) && |packed| <= 320
    ensures ValidOps(ops) && |counts| >= 19 && num <= |packed| && packed[..num] == Flat(ops)
    ensures Sum(counts[..19]) <= 0xFFFF
    ensures forall s :: 0 <= s < 19 ==> counts[s] == Uses(ops, s)
  {
    CodeLengthPacking.Room(packed, num, counts, ops);
    OpsTotal(ops, 19, counts[..19]);
  }

  lemma LengthCodes(counts: seq<nat>, ops: seq<Op>, sz: seq<nat>)
    requires |counts| >= 19 && ValidOps(ops) && Suits(counts[..19], sz, 7)
    requires forall s :: 0 <= s < 19 ==> counts[s] == Uses(ops, s)
    ensures |sz| == 19 && Accepted(sz) && CodedOps(sz, ops) && forall i :: 0 <= i < 19 ==> sz[i] <= 7
  {
    hide Suits, Accepted, CodedOps, ValidOps, Uses;
    SuitsSizes(counts[..19], sz, 7);
    OpsCoded(counts, ops, sz);
  }

  lemma JoinedAtMost15(l: seq<nat>, d: seq<nat>, s: seq<nat>)
    requires CanonicalCode.Sizes(l) && CanonicalCode.Sizes(d)
    requires exists a: nat, b: nat :: a <= |l| && b <= |d| && s == l[..a] + d[..b]
    ensures forall k :: 0 <= k < |s| ==> s[k] <= 15
  {
  }

  /** Packs the sizes of both alphabets and chooses the code for the packed sequence. */
  method DescribeCodes(lit: CodeBook, dist: CodeBook, len: CodeBook, counts: array<nat>, packed: array<nat>,
      ghost l: seq<nat>, ghost d: seq<nat>, ghost ts: seq<Token>)
    returns (num: nat, numLit: nat, numDist: nat, numLengths: nat, ghost h: Header)
    requires lit.For(l) && dist.For(d) && Expresses(l, d, ts) && Unused(l, 286) && Unused(d, 30)
    requires len.Shape() && packed.Length == 320 && counts.Length == 288
    requires {len.sizes, len.codes, counts, packed} !! {lit.sizes, lit.codes, dist.sizes, dist.codes}
    requires counts != packed && {len.sizes, len.codes} !! {counts, packed}
    modifies len.sizes, len.codes, counts, packed
    ensures Describes(h, l, d) && numLit == h.numLit && numDist == h.numDist && numLengths == h.numLengths
    ensures len.For(h.sizes) && num <= packed.Length && packed[..num] == Flat(h.ops)
    ensures numLit <= 286 && numDist <= 30
  {
    hide Books, Suits, WellSized, Sum, Pow2, Expresses, Unused, Packed, Flat, Unpacked, ValidOps, CodedOps, Accepted,
      CanonicalCode.Sizes, Uses;
    ExpressesSizes(l, d, ts);
    BookOf(lit.codes[..], lit.sizes[..], l);
    BookOf(dist.codes[..], dist.sizes[..], d);
    numLit := CountDescribed(lit.sizes, 286, 257, l);
    numDist := CountDescribed(dist.sizes, 30, 1, d);
    var all := JoinSizes(lit.sizes, numLit, dist.sizes, numDist);
    assert lit.sizes[..numLit] == l[..numLit] && dist.sizes[..numDist] == d[..numDist];
    ghost var joined := l[..numLit] + d[..numDist];
    JoinedAtMost15(l, d, joined);
    assert forall k :: 0 <= k < all.Length ==> all[k] == joined[k];
    ghost var ops;
    num, ops := PackCodeSizes(all, packed, counts);
    LengthCounts(packed[..], num, counts[..], ops);
    Powers();
    assert counts[..][..19] == counts[..19];
    ghost var cts := counts[..];
    ghost var sz := len.Optimize(counts, 19, 7);
    WellSizedSizes(cts[..19], sz, 7);
    LengthCodes(cts, ops, sz);
    BookOf(len.codes[..], len.sizes[..], sz);
    numLengths := CountLengths(len.sizes, sz);
    h := Header(numLit, numDist, numLengths, sz, ops);
    DescribesAll(h, l, d);
  }

  lemma ExpressesSizes(l: seq<nat>, d: seq<nat>, ts: seq<Token>)
    requires Expresses(l, d, ts)
    ensures |l| == 288 && |d| == 32 && Accepted(l) && Accepted(d) && CanonicalCode.Sizes(l) && CanonicalCode.Sizes(d)
    ensures AllCoded(l, d, ts) && l[256] > 0
  {
  }

  // ---------------------------------------------------------------- writing the header

  lemma LengthSizesNext(sz: seq<nat>, k: nat, n: nat, a: seq<bool>, b: seq<bool>)
    requires k < n <= |sz| == 19 && 0 <= SWIZZLE[k] < 19 && b == a + Bin(sz[SWIZZLE[k]], 3)
    ensures b + LengthSizesBits(sz, k + 1, n) == a + LengthSizesBits(sz, k, n) && |b| == |a| + 3
  {
    hide Bin;
    assert a + (Bin(sz[SWIZZLE[k]], 3) + LengthSizesBits(sz, k + 1, n)) == b + LengthSizesBits(sz, k + 1, n);
  }

  method WriteLengthSizes(w: BitWriter, sizes: array<nat>, n: nat, ghost sz: seq<nat>)
    requires w.Valid() && n <= 19 <= sizes.Length && sz == sizes[..19] && forall i :: 0 <= i < 19 ==> sz[i] <= 7
    modifies w
    ensures w.Valid() && old(|w.out|) <= |w.out|
    ensures |w.out| < w.capacity ==> w.Written() == old(w.Written()) + LengthSizesBits(sz, 0, n)
    ensures |w.Written()| <= |old(w.Written())| + |LengthSizesBits(sz, 0, n)|
  {
    hide Bin, Pow2, LengthSizesBits;
    Powers();
    ghost var target := w.Written() + LengthSizesBits(sz, 0, n);
    var i := 0;
    while i < n
      invariant 0 <= i <= n && w.Valid() && old(|w.out|) <= |w.out|
      invariant |w.out| < w.capacity ==> w.Written() + LengthSizesBits(sz, i, n) == target
      invariant |w.Written()| + |LengthSizesBits(sz, i, n)| <= |target|
    {
      SwizzleRange(i);
      ghost var before := w.Written();
      assert sizes[SWIZZLE[i]] == sz[SWIZZLE[i]];
      w.PutBits(sizes[SWIZZLE[i]], 3);
      LengthSizesNext(sz, i, n, before, before + Bin(sz[SWIZZLE[i]], 3));
      i := i + 1;
    }
    NoneLeft(sz, n);
  }

  lemma NoneLeft(sz: seq<nat>, n: nat)
    requires n <= |sz| == 19
    ensures LengthSizesBits(sz, n, n) == []
  {
  }

  lemma {:induction false} FlatFirst(ops: seq<Op>)
    requires ops != []
    ensures Flat(ops) == FlatOp(ops[0]) + Flat(ops[1..])
  {
    hide FlatOp;
    var n := |ops| - 1;
    if n == 0 {
      assert ops[..0] == [] && ops[1..] == [];
    } else {
      FlatFirst(ops[..n]);
      assert ops[..n][1..] == ops[1..][..n - 1];
    }
  }

  /** The packed bytes from i on are the steps from k on. */
  ghost predicate Writing(packed: seq<nat>, i: nat, num: nat, ops: seq<Op>, k: nat) {
    i <= num <= |packed| && k <= |ops| && packed[i..num] == Flat(ops[k..])
  }

  lemma WriteNext(packed: seq<nat>, i: nat, num: nat, ops: seq<Op>, k: nat)
    requires Writing(packed, i, num, ops, k) && i < num && ValidOps(ops)
    ensures k < |ops| && packed[i] == Sym(ops[k]) <= 18
    ensures Sym(ops[k]) < 16 ==> Writing(packed, i + 1, num, ops, k + 1)
    ensures Sym(ops[k]) >= 16 ==> i + 1 < num && packed[i + 1] == Extra(ops[k])
    ensures Sym(ops[k]) >= 16 ==> Writing(packed, i + 2, num, ops, k + 1)
    ensures 0 <= Extra(ops[k]) < Pow2(ExtraBits(Sym(ops[k])))
  {
    hide Flat, Pow2;
    var s := packed[i..num];
    if k == |ops| {
      NothingFlat(ops);
    }
    var u := ops[k..];
    FlatFirst(u);
    assert u[0] == ops[k] && u[1..] == ops[k + 1..];
    OpExtra(ops, k);
    var f := FlatOp(ops[k]);
    assert s == f + Flat(ops[k + 1..]);
    assert packed[i] == s[0] == f[0];
    if Sym(ops[k]) >= 16 {
      assert packed[i + 1] == s[1] == f[1];
      assert packed[i + 2..num] == s[2..] == Flat(ops[k + 1..]);
    } else {
      assert packed[i + 1..num] == s[1..] == Flat(ops[k + 1..]);
    }
  }

  lemma NothingFlat(ops: seq<Op>)
    ensures Flat(ops[|ops|..]) == []
  {
  }

  lemma {:induction false} OpExtra(ops: seq<Op>, i: nat)
    requires ValidOps(ops) && i < |ops|
    ensures Sym(ops[i]) <= 18 && 0 <= Extra(ops[i]) < Pow2(ExtraBits(Sym(ops[i])))
  {
    if i < |ops| - 1 {
      OpExtra(ops[..|ops| - 1], i);
    } else {
      ExtraFits(ops[i], Unpacked(ops[..i]));
    }
  }

  lemma OpsBitsNext(sz: seq<nat>, ops: seq<Op>, k: nat, a: seq<bool>, b: seq<bool>)
    requires CodedOps(sz, ops) && k < |ops| && b == a + OpBits(sz, ops[k])
    ensures CodedOps(sz, ops[k..]) && CodedOps(sz, ops[k + 1..])
    ensures b + OpsBits(sz, ops[k + 1..]) == a + OpsBits(sz, ops[k..])
  {
    hide OpBits;
    assert ops[k..][1..] == ops[k + 1..];
    assert a + (OpBits(sz, ops[k]) + OpsBits(sz, ops[k + 1..])) == b + OpsBits(sz, ops[k + 1..]);
  }

  /** One step of the packed sequence. */
  method WriteOp(w: BitWriter, len: CodeBook, packed: array<nat>, i: nat, num: nat, ghost sz: seq<nat>,
      ghost ops: seq<Op>, ghost k: nat)
    returns (i': nat)
    requires w.Valid() && len.For(sz) && |sz| == 19 && CodedOps(sz, ops) && ValidOps(ops)
    requires Writing(packed[..], i, num, ops, k) && i < num
    modifies w
    ensures w.Valid() && old(|w.out|) <= |w.out| && k < |ops| && Sym(ops[k]) < |sz| && i < i'
    ensures Writing(packed[..], i', num, ops, k + 1)
    ensures |w.out| < w.capacity ==> w.Written() == old(w.Written()) + OpBits(sz, ops[k])
    ensures |w.Written()| <= |old(w.Written())| + |OpBits(sz, ops[k])|
  {
    hide Bin, Pow2, Word, CodeTable, ValidOps, Writing;
    WriteNext(packed[..], i, num, ops, k);
    WritingRange(packed[..], i, num, ops, k);
    ghost var op := ops[k];
    Powers();
    var code := packed[i];
    assert code == packed[..][i];
    i' := i + 1;
    PutSymbol(w, len.codes, len.sizes, code, sz);
    if code >= 16 {
      assert packed[i'] == packed[..][i'] == Extra(op);
      w.PutBits(packed[i'], ExtraBits(code));
      i' := i' + 1;
      if |w.out| < w.capacity {
        assert old(w.Written()) + Word(sz, code) + Bin(Extra(op), ExtraBits(code)) == old(w.Written()) + OpBits(sz, op);
      }
    } else {
      PlainOp(sz, op);
    }
  }

  lemma WritingRange(packed: seq<nat>, i: nat, num: nat, ops: seq<Op>, k: nat)
    requires Writing(packed, i, num, ops, k)
    ensures i <= num <= |packed| && k <= |ops|
  {
  }

  lemma PlainOp(sz: seq<nat>, op: Op)
    requires Sym(op) < 16 && Sym(op) < |sz|
    ensures OpBits(sz, op) == Word(sz, Sym(op))
  {
    hide Word;
  }

  method WriteOps(w: BitWriter, len: CodeBook, packed: array<nat>, num: nat, ghost sz: seq<nat>, ghost ops: seq<Op>)
    requires w.Valid() && len.For(sz) && |sz| == 19 && CodedOps(sz, ops) && ValidOps(ops)
    requires num <= packed.Length && packed[..num] == Flat(ops)
    modifies w
    ensures w.Valid() && old(|w.out|) <= |w.out|
    ensures |w.out| < w.capacity ==> w.Written() == old(w.Written()) + OpsBits(sz, ops)
    ensures |w.Written()| <= |old(w.Written())| + |OpsBits(sz, ops)|
  {
    hide Books, ValidOps, CodedOps, OpsBits, OpBits, Writing;
    StartWriting(packed[..], num, sz, ops);
    ghost var target := w.Written() + OpsBits(sz, ops);
    var i := 0;
    ghost var k := 0;
    while i < num
      invariant w.Valid() && old(|w.out|) <= |w.out| && Writing(packed[..], i, num, ops, k) && k <= |ops| && i <= num
      invariant CodedOps(sz, ops[k..])
      invariant |w.out| < w.capacity ==> w.Written() + OpsBits(sz, ops[k..]) == target
      invariant |w.Written()| + |OpsBits(sz, ops[k..])| <= |target|
    {
      ghost var before := w.Written();
      i := WriteOp(w, len, packed, i, num, sz, ops, k);
      WritingRange(packed[..], i, num, ops, k + 1);
      OpsBitsNext(sz, ops, k, before, before + OpBits(sz, ops[k]));
      k := k + 1;
    }
    DoneWriting(packed[..], num, sz, ops, k);
  }

  lemma StartWriting(packed: seq<nat>, num: nat, sz: seq<nat>, ops: seq<Op>)
    requires num <= |packed| && packed[..num] == Flat(ops) && CodedOps(sz, ops)
    ensures Writing(packed, 0, num, ops, 0) && ops[0..] == ops
  {
    assert ops[0..] == ops;
  }

  lemma {:induction false} FlatAtLeast(ops: seq<Op>)
    ensures |Flat(ops)| >= |ops|
  {
    if ops != [] {
      FlatAtLeast(ops[..|ops| - 1]);
    }
  }

  lemma DoneWriting(packed: seq<nat>, num: nat, sz: seq<nat>, ops: seq<Op>, k: nat)
    requires Writing(packed, num, num, ops, k) && CodedOps(sz, ops[k..])
    ensures OpsBits(sz, ops[k..]) == []
  {
    FlatAtLeast(ops[k..]);
  }

  /** Everything tdefl_start_dynamic_block writes after choosing the codes. */
  method WriteHeader(w: BitWriter, len: CodeBook, packed: array<nat>, num: nat, numLit: nat, numDist: nat,
      numLengths: nat, ghost h: Header)
    requires w.Valid() && len.For(h.sizes) && ValidHeader(h) && numLit == h.numLit && numDist == h.numDist
    requires numLengths == h.numLengths
    requires num <= packed.Length && packed[..num] == Flat(h.ops) && numLit <= 286 && numDist <= 30
    modifies w
    ensures w.Valid() && old(|w.out|) <= |w.out|
    ensures |w.out| < w.capacity ==> w.Written() == old(w.Written()) + Bin(2, 2) + HeaderBits(h)
    ensures |w.Written()| <= |old(w.Written())| + 2 + |HeaderBits(h)|
  {
    hide Bin, Pow2, Flat, ValidOps, CodedOps, OpsBits, LengthSizesBits, Accepted, Unpacked, CodeTable,
      CanonicalCode.Sizes;
    Powers();
    w.PutBits(2, 2);
    w.PutBits(numLit - 257, 5);
    w.PutBits(numDist - 1, 5);
    w.PutBits(numLengths - 4, 4);
    assert len.sizes[..19] == h.sizes;
    WriteLengthSizes(w, len.sizes, numLengths, h.sizes);
    WriteOps(w, len, packed, num, h.sizes, h.ops);
    RejoinHeader(old(w.Written()), Bin(2, 2), h);
  }

  lemma RejoinHeader(a: seq<bool>, b: seq<bool>, h: Header)
    requires ValidHeader(h)
    ensures a + b + Bin(h.numLit - 257, 5) + Bin(h.numDist - 1, 5) + Bin(h.numLengths - 4, 4)
            + LengthSizesBits(h.sizes, 0, h.numLengths) + OpsBits(h.sizes, h.ops)
         == a + b + HeaderBits(h)
    ensures |HeaderBits(h)| == 14 + |LengthSizesBits(h.sizes, 0, h.numLengths)| + |OpsBits(h.sizes, h.ops)|
  {
    hide Bin, LengthSizesBits, OpsBits, ValidHeader;
  }
}
