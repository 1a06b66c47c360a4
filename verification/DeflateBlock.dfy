/** Whole compressed blocks, static and dynamic: what the compressor writes, the decompressor reads back. */
module DeflateBlock {
  import opened Sums
  import opened Bits
  import opened CanonicalCode
  import opened InflateTable
  import opened FixedCodes
  import opened LzTokens
  import opened LzBuffer
  import opened BitWriter
  import opened BlockWriter
  import opened DynamicHeader
  import opened DynamicBlock

  /** The fixed codes can express any token. */
  lemma FixedExpresses(ts: seq<Token>)
    requires AllWellFormed(ts)
    ensures Expresses(FixedLit(), FixedDist(), ts) && Fits(FixedLit()) && Fits(FixedDist())
  {
    FixedFull();
    hide First, LenSym, DistSym, LitLenSym;
    forall i | 0 <= i < |ts| ensures Coded(FixedLit(), FixedDist(), ts[i]) {
      SymbolRange(ts[i]);
    }
  }

  // ---------------------------------------------------------------- writing a block

  /** How the tokens of a block are coded. */
  datatype Coding = Fixed | Dynamic(h: Header, l: seq<nat>, d: seq<nat>)

  ghost predicate Suitable(c: Coding, ts: seq<Token>) {
    match c
    case Fixed => AllWellFormed(ts)
    case Dynamic(h, l, d) => Expresses(l, d, ts) && Describes(h, l, d)
  }

  /** The bits of a compressed block, from its type on. */
  ghost function BlockBits(c: Coding, ts: seq<Token>): seq<bool>
    requires Suitable(c, ts)
  {
    match c
    case Fixed => FixedExpresses(ts); Bin(1, 2) + BodyBits(FixedLit(), FixedDist(), ts)
    case Dynamic(h, l, d) => Bin(2, 2) + HeaderBits(h) + BodyBits(l, d, ts)
  }

  /** The compressor's Huffman tables and the buffers for describing them. */
  class Encoder {
    const lit: CodeBook
    const dist: CodeBook
    const len: CodeBook
    const lenCounts: array<nat>
    const packed: array<nat>

    ghost predicate Shape() {
      && lit.Shape() && dist.Shape() && len.Shape() && lenCounts.Length == 288 && packed.Length == 320
      && {lit.sizes, lit.codes} !! {dist.sizes, dist.codes}
      && {len.sizes, len.codes} !! {lit.sizes, lit.codes, dist.sizes, dist.codes}
      && {lenCounts, packed} !! {lit.sizes, lit.codes, dist.sizes, dist.codes, len.sizes, len.codes}
      && lenCounts != packed
    }

    ghost function Arrays(): set<array<nat>> {
      {lit.sizes, lit.codes, dist.sizes, dist.codes, len.sizes, len.codes, lenCounts, packed}
    }

    constructor ()
      ensures Shape() && fresh(Arrays()) && fresh(lit) && fresh(dist) && fresh(len)
    {
      lit := new CodeBook();
      dist := new CodeBook();
      len := new CodeBook();
      lenCounts := new nat[288](_ => 0);
      packed := new nat[320](_ => 0);
    }
  }

  ghost predicate Apart(tb: TokenBuffer, e: Encoder)
  {
    e.Shape() && {tb.buf, tb.litCounts, tb.distCounts} !! e.Arrays()
  }

  /** tdefl_start_static_block */
  method StartStaticBlock(tb: TokenBuffer, w: BitWriter, e: Encoder)
    requires w.Valid() && Apart(tb, e) && tb.litCounts.Length == tb.distCounts.Length == 288
    modifies w, e.lit.sizes, e.lit.codes, e.dist.sizes, e.dist.codes
    ensures w.Valid() && e.lit.For(FixedLit()) && e.dist.For(FixedDist()) && old(|w.out|) <= |w.out|
    ensures |w.out| < w.capacity ==> w.Written() == old(w.Written()) + Bin(1, 2)
    ensures |w.Written()| <= |old(w.Written())| + 2
  {
    hide Books, Fits, Bin, Pow2, FixedLit, FixedDist, Full;
    SetFixed(e.lit.sizes, e.dist.sizes);
    FixedExpresses([]);
    ghost var l := e.lit.Number(tb.litCounts, 288);
    ghost var d := e.dist.Number(tb.distCounts, 32);
    Powers();
    w.PutBits(1, 2);
  }

  /** tdefl_start_dynamic_block */
  method StartDynamicBlock(tb: TokenBuffer, w: BitWriter, e: Encoder)
    returns (ghost h: Header, ghost l: seq<nat>, ghost d: seq<nat>)
    requires w.Valid() && Apart(tb, e) && tb.Sealed() && tb.Shape()
    modifies w, tb.litCounts, e.Arrays()
    ensures w.Valid() && e.lit.For(l) && e.dist.For(d) && Expresses(l, d, tb.tokens) && Describes(h, l, d)
    ensures old(|w.out|) <= |w.out|
    ensures |w.out| < w.capacity ==> w.Written() == old(w.Written()) + Bin(2, 2) + HeaderBits(h)
    ensures |w.Written()| <= |old(w.Written())| + 2 + |HeaderBits(h)| && Economical(l, d, tb.tokens)
  {
    hide Books, Expresses, Unused, Bin, Counted, TotalLength, Groups, HeaderBits, Economical;
    l, d := ChooseCodes(tb, e.lit, e.dist);
    var num, numLit, numDist, numLengths;
    num, numLit, numDist, numLengths, h := DescribeCodes(e.lit, e.dist, e.len, e.lenCounts, e.packed, l, d, tb.tokens);
    DescribesHeader(h, l, d);
    WriteHeader(w, e.len, e.packed, num, numLit, numDist, numLengths, h);
  }

  lemma DescribesHeader(h: Header, l: seq<nat>, d: seq<nat>)
    requires Describes(h, l, d)
    ensures ValidHeader(h)
  {
  }

  /** tdefl_compress_block: writes the recorded tokens as one block, unless the output fills up. */
  method CompressBlock(tb: TokenBuffer, w: BitWriter, e: Encoder, staticBlock: bool) returns (ok: bool, ghost c: Coding)
    requires w.Valid() && Apart(tb, e) && tb.Shape() && (!staticBlock ==> tb.Sealed())
    requires tb.pos <= tb.buf.Length && tb.buf[..tb.pos] == Groups(tb.tokens) && AllWellFormed(tb.tokens)
    modifies w, tb.litCounts, e.Arrays()
    ensures w.Valid() && (ok <==> |w.out| < w.capacity) && old(|w.out|) <= |w.out|
    ensures Suitable(c, tb.tokens)
    ensures |w.Written()| <= |old(w.Written())| + |BlockBits(c, tb.tokens)|
    ensures if staticBlock then c == Fixed else c.Dynamic? && Economical(c.l, c.d, tb.tokens)
    ensures ok ==> w.Written() == old(w.Written()) + BlockBits(c, tb.tokens)
  {
    hide Expresses, Bin, Counted, TotalLength, Groups, HeaderBits, BodyBits, Describes, AllWellFormed, FixedLit,
      FixedDist, ValidHeader, Economical;
    ghost var l, d;
    if staticBlock {
      StartStaticBlock(tb, w, e);
      FixedExpresses(tb.tokens);
      c, l, d := Fixed, FixedLit(), FixedDist();
    } else {
      ghost var h;
      h, l, d := StartDynamicBlock(tb, w, e);
      c := Dynamic(h, l, d);
    }
    ExpressesSizes(l, d, tb.tokens);
    ok := CompressLzCodes(w, tb.buf, tb.pos, e.lit.codes, e.lit.sizes, e.dist.codes, e.dist.sizes, l, d, tb.tokens);
    if staticBlock {
      RejoinFixed(old(w.Written()), tb.tokens);
    } else {
      RejoinDynamic(old(w.Written()), c, tb.tokens);
    }
  }

  lemma RejoinFixed(a: seq<bool>, ts: seq<Token>)
    requires Suitable(Fixed, ts)
    ensures var l, d := FixedLit(), FixedDist();
            && AllCoded(l, d, ts) && a + Bin(1, 2) + BodyBits(l, d, ts) == a + BlockBits(Fixed, ts)
            && 2 + |BodyBits(l, d, ts)| == |BlockBits(Fixed, ts)|
  {
    hide BodyBits, FixedLit, FixedDist, AllWellFormed, AllCoded, Bin, Fits, Accepted;
    assert AllWellFormed(ts);
    FixedExpresses(ts);
  }

  lemma RejoinDynamic(a: seq<bool>, c: Coding, ts: seq<Token>)
    requires Suitable(c, ts) && c.Dynamic?
    ensures ValidHeader(c.h) && AllCoded(c.l, c.d, ts) && |c.l| == 288
    ensures 2 + |HeaderBits(c.h)| + |BodyBits(c.l, c.d, ts)| == |BlockBits(c, ts)|
    ensures a + Bin(2, 2) + HeaderBits(c.h) + BodyBits(c.l, c.d, ts) == a + BlockBits(c, ts)
  {
    hide BodyBits, HeaderBits, AllCoded, ValidHeader, Bin, Accepted;
    DescribesHeader(c.h, c.l, c.d);
  }
}
