/** How large a compressed block can get: whatever the token buffer holds, its block fits the output buffer. */
module BlockSize {
  import opened Sums
  import opened Bits
  import opened CanonicalCode
  import opened FixedCodes
  import opened HuffmanTree
  import opened RadixSort
  import opened SymbolCosts
  import opened LimitCost
  import opened LzTokens
  import opened LzBuffer
  import opened BlockWriter
  import opened TokenCosts
  import opened CodeLengthPacking
  import opened DynamicHeader
  import opened DynamicBlock
  import opened DeflateBlock

  // ---------------------------------------------------------------- a static block

  lemma TokenSize(t: Token)
    requires Coded(FixedLit(), FixedDist(), t)
    ensures 25 * |TokenBits(FixedLit(), FixedDist(), t)| <= 31 * (8 * |ItemBytes(t)| + 1)
  {
    hide Word, FixedLit, FixedDist, Bin;
    SymbolRange(t);
    if t.Match? {
      LengthExtraBound(t.len - 3);
      DistanceRoundTrip(t.dist - 1);
    }
    hide LenSym, DistSym;
  }

  lemma LengthExtraBound(x: nat)
    requires x < 256
    ensures LenExtra(x) <= 5
  {
  }

  lemma {:induction false} TokensSize(ts: seq<Token>)
    requires AllCoded(FixedLit(), FixedDist(), ts)
    ensures 25 * |TokensBits(FixedLit(), FixedDist(), ts)| <= 31 * (8 * |Items(ts)| + |ts|)
  {
    hide FixedLit, FixedDist, TokenBits, Coded, ItemBytes;
    if ts != [] {
      TokensSize(ts[..|ts| - 1]);
      TokenSize(ts[|ts| - 1]);
    }
  }

  /** A flag byte for every eight tokens. */
  lemma {:induction false} GroupsCover(ts: seq<Token>)
    ensures 8 * |Groups(ts)| >= 8 * |Items(ts)| + |ts|
  {
    hide Items, Flags, Val;
    if ts == [] {
      ItemsPush([], Literal(0));
    } else {
      var n := if |ts| < 8 then |ts| else 8;
      assert ts == ts[..n] + ts[n..];
      ItemsConcat(ts[..n], ts[n..]);
      GroupsCover(ts[n..]);
    }
  }

  /** However the token buffer is filled, a static block for it takes less than 650200 bits, while the output
      buffer has room for 681440. */
  lemma StaticFits(ts: seq<Token>)
    requires AllWellFormed(ts) && |Groups(ts)| <= LZ_CODE_BUF_SIZE
    ensures Suitable(Fixed, ts) && |BlockBits(Fixed, ts)| <= 650200
  {
    hide TokensBits, Items, Groups, FixedLit, FixedDist;
    FixedExpresses(ts);
    TokensSize(ts);
    GroupsCover(ts);
    FixedSize256();
  }

  lemma FixedSize256()
    ensures |Word(FixedLit(), 256)| == 7
  {
  }

  // ---------------------------------------------------------------- the header of a dynamic block

  lemma {:induction false} LengthSizesSize(sz: seq<nat>, k: nat, n: nat)
    requires k <= n <= |sz| == 19
    ensures |LengthSizesBits(sz, k, n)| == 3 * (n - k)
    decreases n - k
  {
    hide Bin;
    if k < n {
      SwizzleRange(k);
      LengthSizesSize(sz, k + 1, n);
    }
  }

  lemma OpSize(sz: seq<nat>, op: Op)
    requires Sym(op) < |sz| && sz[Sym(op)] <= 7 && Sym(op) <= 18
    ensures |OpBits(sz, op)| <= 14
  {
  }

  lemma {:induction false} OpsSize(sz: seq<nat>, ops: seq<Op>)
    requires |sz| == 19 && CodedOps(sz, ops) && forall i :: 0 <= i < 19 ==> sz[i] <= 7
    ensures |OpsBits(sz, ops)| <= 14 * |ops|
  {
    hide OpBits;
    if ops != [] {
      OpSize(sz, ops[0]);
      OpsSize(sz, ops[1..]);
    }
  }

  /** The sizes of at most 320 symbols take no more than 320 steps of at most 14 bits. */
  lemma HeaderSize(h: Header)
    requires ValidHeader(h)
    ensures |HeaderBits(h)| <= 4551
  {
    hide Bin, OpsBits, LengthSizesBits, Flat, InflateTable.Accepted;
    LengthSizesSize(h.sizes, 0, h.numLengths);
    FlatNoLonger(h.ops);
    OpsSize(h.sizes, h.ops);
  }

  // ---------------------------------------------------------------- the fixed codes as competitors

  lemma LitKraft()
    ensures AllAtMost(FixedLit(), 15) && Kraft(FixedLit(), 15) == Pow2(15)
  {
    hide SpareOf, SpareAt;
    var l := FixedLit();
    assert l[..0] == [] && l[..288] == l;
    RunOf(l, 0, 144, 8, 0, 15);
    RunOf(l, 144, 256, 9, 0, 15);
    RunOf(l, 256, 280, 7, 0, 15);
    RunOf(l, 280, 288, 8, 0, 15);
    assert Pow2(6) == 64 && Pow2(7) == 128 && Pow2(8) == 256;
    Powers();
  }

  lemma DistKraft()
    ensures AllAtMost(FixedDist(), 15) && Kraft(FixedDist(), 15) == Pow2(15)
  {
    hide SpareOf, SpareAt;
    var d := FixedDist();
    assert d[..0] == [] && d[..32] == d;
    RunOf(d, 0, 32, 5, 0, 15);
    assert Pow2(10) == 1024;
    Powers();
  }

  lemma {:induction false} UsedShare(f: seq<nat>, w: SymFreq -> nat, l: seq<nat>, m: nat)
    requires |l| == |f| && AllAtMost(l, m) && forall i :: 0 <= i < |f| ==> w(SymFreq(f[i], i)) == Pow2(m - l[i])
    ensures UsedTotal(f, w) <= Kraft(l, m)
  {
    if f != [] {
      UsedShare(f[..|f| - 1], w, l[..|l| - 1], m);
    }
  }

  lemma FullFits(f: seq<nat>, l: seq<nat>)
    requires |l| == |f| && AllAtMost(l, 15) && Kraft(l, 15) == Pow2(15)
    ensures FitsWithin(f, l, 15)
  {
    UsedShare(f, Share(l, 15), l, 15);
    hide Pow2, Kraft, UsedTotal;
  }

  /** The chosen codes against the fixed ones. */
  lemma AgainstFixed(l: seq<nat>, d: seq<nat>, ts: seq<Token>)
    requires Economical(l, d, ts)
    ensures |l| == 288 && |d| == 32
    ensures CostsLittleMore(LitCounts(ts)[256 := 1], l, FixedLit()) && CostsLittleMore(DistCounts(ts), d, FixedDist())
  {
    LitKraft();
    DistKraft();
    assert Nonzero(LitCounts(ts)[256 := 1], FixedLit()) && Nonzero(DistCounts(ts), FixedDist());
    hide LitCounts, DistCounts, FixedLit, FixedDist, Kraft, Pow2, CostsLittleMore, FitsWithin;
    FullFits(LitCounts(ts)[256 := 1], FixedLit());
    FullFits(DistCounts(ts), FixedDist());
  }

  // ---------------------------------------------------------------- the body of a dynamic block

  lemma NoEndCounted(ts: seq<Token>)
    requires AllWellFormed(ts)
    ensures LitCounts(ts)[256] == 0
  {
    CountsAreUses(ts, 256);
    NeverUsed(ts, 256);
  }

  /** The size of a body is the cost of its symbols and the extra bits. */
  lemma BodySize(l: seq<nat>, d: seq<nat>, ts: seq<Token>)
    requires |l| == 288 && |d| == 32 && AllCoded(l, d, ts)
    ensures AllWellFormed(ts)
    ensures |BodyBits(l, d, ts)| == Cost(LitCounts(ts)[256 := 1], l) + Cost(DistCounts(ts), d) + ExtrasSize(ts)
  {
    hide LitCounts, DistCounts, Cost, ExtrasSize, TokensBits, Word;
    TokensBitsSize(l, d, ts);
    NoEndCounted(ts);
    CostUpdate(LitCounts(ts), l, 256);
  }

  lemma {:induction false} CountsSum(ts: seq<Token>)
    requires AllWellFormed(ts)
    ensures Sum(LitCounts(ts)) == |ts| && Sum(DistCounts(ts)) <= |ts|
  {
    hide LenSym, DistSym, LitLenSym, Sum;
    if ts == [] {
      ZeroSum(LitCounts(ts));
      ZeroSum(DistCounts(ts));
    } else {
      var u, t := ts[..|ts| - 1], ts[|ts| - 1];
      CountsSum(u);
      SymbolRange(t);
      SumUpdate(LitCounts(u), LitLenSym(t), LitCounts(u)[LitLenSym(t)] + 1);
      if t.Match? {
        SumUpdate(DistCounts(u), DistSym(t.dist - 1), DistCounts(u)[DistSym(t.dist - 1)] + 1);
      }
    }
  }

  lemma LittleMore(f: seq<nat>, sz: seq<nat>, l: seq<nat>, total: nat)
    requires CostsLittleMore(f, sz, l) && Sum(f) <= total
    ensures |sz| == |l| == |f|
    ensures |f| == 288 ==> 540 * Cost(f, sz) <= 540 * Cost(f, l) + 576 * total
    ensures |f| == 32 ==> 540 * Cost(f, sz) <= 540 * Cost(f, l) + 64 * total
  {
    hide Cost, Sum;
  }

  lemma CountsTotal(ts: seq<Token>)
    requires AllWellFormed(ts)
    ensures Sum(LitCounts(ts)[256 := 1]) == |ts| + 1 && Sum(DistCounts(ts)) <= |ts|
  {
    hide LitCounts, DistCounts, Sum;
    CountsSum(ts);
    NoEndCounted(ts);
    SumUpdate(LitCounts(ts), 256, 1);
  }

  /** A dynamic body is not much longer than the static one. */
  lemma AgainstStatic(l: seq<nat>, d: seq<nat>, ts: seq<Token>)
    requires Economical(l, d, ts) && AllCoded(l, d, ts) && AllCoded(FixedLit(), FixedDist(), ts)
    ensures |l| == 288 && |d| == 32
    ensures 540 * |BodyBits(l, d, ts)| <= 540 * |BodyBits(FixedLit(), FixedDist(), ts)| + 640 * |ts| + 576
  {
    hide LitCounts, DistCounts, Cost, ExtrasSize, BodyBits, FixedLit, FixedDist, AllCoded, Sum, CostsLittleMore,
      NearOptimal;
    AgainstFixed(l, d, ts);
    CountsTotal(ts);
    LittleMore(LitCounts(ts)[256 := 1], l, FixedLit(), |ts| + 1);
    LittleMore(DistCounts(ts), d, FixedDist(), |ts|);
    BodySize(l, d, ts);
    BodySize(FixedLit(), FixedDist(), ts);
  }

  /** What a token and its share of the flags take in the token buffer pays for its bits. */
  lemma TokenPays(t: Token)
    requires Coded(FixedLit(), FixedDist(), t)
    ensures 25 * (540 * |TokenBits(FixedLit(), FixedDist(), t)| + 640) <= 17380 * (8 * |ItemBytes(t)| + 1)
  {
    hide FixedLit, FixedDist, TokenBits;
    if t.Match? {
      TokenSize(t);
    } else {
      LiteralSize(t);
    }
  }

  lemma LiteralSize(t: Token)
    requires Coded(FixedLit(), FixedDist(), t) && t.Literal?
    ensures |TokenBits(FixedLit(), FixedDist(), t)| <= 9
  {
    hide Word, FixedLit, FixedDist;
  }

  lemma {:induction false} TokensPay(ts: seq<Token>)
    requires AllCoded(FixedLit(), FixedDist(), ts)
    ensures 25 * (540 * |TokensBits(FixedLit(), FixedDist(), ts)| + 640 * |ts|) <= 17380 * (8 * |Items(ts)| + |ts|)
  {
    hide FixedLit, FixedDist, TokenBits, Coded, ItemBytes;
    if ts != [] {
      TokensPay(ts[..|ts| - 1]);
      TokenPays(ts[|ts| - 1]);
    }
  }

  /** However the token buffer is filled, a dynamic block for it takes less than 679540 bits. */
  lemma DynamicFits(h: Header, l: seq<nat>, d: seq<nat>, ts: seq<Token>)
    requires Suitable(Dynamic(h, l, d), ts) && Economical(l, d, ts) && |Groups(ts)| <= LZ_CODE_BUF_SIZE
    ensures |BlockBits(Dynamic(h, l, d), ts)| <= 679540
  {
    hide TokensBits, Items, Groups, FixedLit, FixedDist, HeaderBits, Economical, Word, ValidHeader, LitCounts,
      DistCounts;
    FixedExpresses(ts);
    AgainstStatic(l, d, ts);
    TokensPay(ts);
    GroupsCover(ts);
    FixedSize256();
    HeaderSize(h);
  }

  /** Any block for the token buffer, after the seven bits that may be left of the one before and the final bit,
      leaves more than 1800 of the 681440 bits of the output buffer. */
  lemma BlockFits(c: Coding, ts: seq<Token>)
    requires Suitable(c, ts) && |Groups(ts)| <= LZ_CODE_BUF_SIZE && (c.Dynamic? ==> Economical(c.l, c.d, ts))
    ensures |BlockBits(c, ts)| <= 679540
  {
    hide BlockBits, Groups, Economical, Expresses;
    match c
    case Fixed => StaticFits(ts);
    case Dynamic(h, l, d) => DynamicFits(h, l, d, ts);
  }
}
