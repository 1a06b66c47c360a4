/** tdefl_compress: parsing, blocks, and the stream they form. */
module Compressor {
  import opened Words
  import opened Sums
  import opened Bits
  import opened LzTokens
  import opened LzBuffer
  import opened LzParse
  import opened LzParser
  import opened BitReader
  import opened BitWriter
  import opened DeflateBlock
  import opened BlockSize
  import DynamicBlock
  import opened DeflateStream

  const OUT_BUF_SIZE := 85196
  const FINISH := 4

  /** The most that the empty block of a sync or full flush takes: three bits, padding, and two words. */
  const EMPTY_BLOCK_BITS := 42

  // ---------------------------------------------------------------- what has been written

  /** The bits written are those of the parts, none of which is marked as the last, and the parts stand for
      the text. */
  ghost predicate Emitted(bits: seq<bool>, parts: seq<Part>, text: seq<nat>) {
    && GoodParts(parts) && (forall i :: 0 <= i < |parts| ==> !parts[i].final)
    && GoodTexts(parts, []) && TextOf(parts, []) == text && bits == Stream(parts, 0)
  }

  lemma EmittedPush(bits: seq<bool>, parts: seq<Part>, text: seq<nat>, b: Part)
    requires Emitted(bits, parts, text) && GoodBlock(b.block) && GoodText(b.block, text)
    ensures !b.final ==> Emitted(bits + PartBits(b, |bits|), parts + [b], TextAfter(b.block, text))
    ensures b.final ==> Finished(bits + PartBits(b, |bits|), parts + [b], TextAfter(b.block, text))
  {
    hide PartBits, GoodBlock, GoodText, TextAfter, Stream, GoodTexts, TextOf;
    StreamPush(parts, b, 0);
    TextPush(parts, b, []);
  }

  /** The same for a complete stream. */
  ghost predicate Finished(bits: seq<bool>, parts: seq<Part>, text: seq<nat>) {
    GoodParts(parts) && Complete(parts) && GoodTexts(parts, []) && TextOf(parts, []) == text && bits == Stream(parts, 0)
  }

  lemma PadShift(base: nat, x: nat)
    requires base % 8 == 0
    ensures Pad(base + x) == Pad(x)
  {
    var k, j, r := base / 8, x / 8, x % 8;
    assert base + x == 8 * (k + j) + r;
    assert (base + x) % 8 == r;
  }

  /** Appending whole numbers of bits within the room of the buffer. */
  method PutSome(w: BitWriter, bits: nat, len: nat)
    requires w.Valid() && len <= 16 && bits < Pow2(len) && |w.Written()| + len < 8 * (w.capacity + 1)
    modifies w
    ensures w.Valid() && w.Written() == old(w.Written()) + Bin(bits, len)
  {
    hide Bin, Pow2;
    w.PutBits(bits, len);
  }

  /** Zero bits up to a byte boundary. */
  method Align(w: BitWriter)
    requires w.Valid() && |w.Written()| + 8 < 8 * (w.capacity + 1)
    modifies w
    ensures w.Valid() && w.Written() == old(w.Written()) + Bin(0, Pad(|old(w.Written())|)) && w.bitsIn == 0
  {
    ByteBitsLength(w.out);
    WrittenPad(w);
    hide Bin, Pow2;
    if w.bitsIn != 0 {
      assert Pow2(8 - w.bitsIn) > 0;
      PutSome(w, 0, 8 - w.bitsIn);
      ByteBitsLength(w.out);
      WrittenAligned(w, |w.Written()|);
    } else {
      NoBits(w.Written());
    }
  }

  lemma WrittenPad(w: BitWriter)
    requires w.Valid()
    ensures |w.Written()| == 8 * |w.out| + w.bitsIn && Pad(|w.Written()|) == if w.bitsIn == 0 then 0 else 8 - w.bitsIn
  {
    hide Bin, ByteBits, Pad;
    ByteBitsLength(w.out);
    PadOf(|w.out|, w.bitsIn);
  }

  lemma PadOf(k: nat, b: nat)
    requires b < 8
    ensures Pad(8 * k + b) == if b == 0 then 0 else 8 - b
  {
  }

  lemma WrittenAligned(w: BitWriter, n: nat)
    requires w.Valid() && n == |w.Written()| && n % 8 == 0
    ensures w.bitsIn == 0
  {
    ByteBitsLength(w.out);
  }

  lemma NoBits(s: seq<bool>)
    ensures s + Bin(0, 0) == s
  {
  }

  lemma WordRange()
    ensures Pow2(16) == 0x10000 && Pow2(8) == 256 && Pow2(1) == 2 && Pow2(2) == 4 && Pow2(3) == 8
  {
    assert Pow2(5) == 32 && Pow2(10) == 1024 && Pow2(15) == 0x8000;
  }

  /** The bytes of a stored block, out of the dictionary. */
  method PutDictionary(w: BitWriter, d: Dictionary, dictPos: nat, total: nat, ghost flushed: nat)
    requires w.Valid() && d.Valid() && dictPos == U32(flushed) && flushed + total <= |d.text| <= flushed + DICT_SIZE
    requires |w.Written()| + 8 * total < 8 * (w.capacity + 1)
    modifies w
    ensures w.Valid() && w.Written() == old(w.Written()) + ByteBits(d.text[flushed..flushed + total])
  {
    hide Bin, Pow2, Slot, U32, Window, ByteBits;
    WordRange();
    ghost var before := w.Written();
    var i := 0;
    NoBytes(before, d.text, flushed);
    while i < total
      invariant 0 <= i <= total && w.Valid() && w.Written() == before + ByteBits(d.text[flushed..flushed + i])
    {
      ByteBitsLength(d.text[flushed..flushed + i]);
      Wraps(flushed, i);
      var c := d.TextAt(flushed + i, Slot(dictPos + i));
      PutSome(w, c, 8);
      MoreBytes(before, d.text, flushed, i);
      i := i + 1;
    }
  }

  lemma NoBytes(before: seq<bool>, text: seq<nat>, from: nat)
    requires from <= |text|
    ensures before + ByteBits(text[from..from]) == before
  {
  }

  lemma MoreBytes(before: seq<bool>, text: seq<nat>, from: nat, i: nat)
    requires from + i < |text|
    ensures before + ByteBits(text[from..from + i]) + Bin(text[from + i], 8)
         == before + ByteBits(text[from..from + i + 1])
  {
    hide Bin, ByteBits;
    assert text[from..from + i + 1] == text[from..from + i] + [text[from + i]];
    ByteBitsAppend(text[from..from + i], [text[from + i]]);
    OneByte(text[from + i]);
  }

  /** A stored block: type, padding, length, complement, bytes. */
  method WriteStored(w: BitWriter, d: Dictionary, dictPos: nat, total: nat, ghost flushed: nat, ghost base: nat)
    requires w.Valid() && d.Valid() && dictPos == U32(flushed) && flushed + total <= |d.text| <= flushed + DICT_SIZE
    requires total <= DICT_SIZE && |w.Written()| <= 16 && w.capacity == OUT_BUF_SIZE - 16 && base % 8 == 0
    modifies w
    ensures w.Valid()
    ensures w.Written() == old(w.Written()) + StoredBits(d.text[flushed..flushed + total], base + |old(w.Written())|)
  {
    hide Bin, Pow2, Slot, U32, Window, ByteBits, StoredBits, Pad;
    WordRange();
    ghost var bytes, p := d.text[flushed..flushed + total], base + |w.Written()|;
    PadShift(base, |w.Written()| + 2);
    PutSome(w, 0, 2);
    PadBound(|w.Written()|);
    Align(w);
    PutSome(w, total % 0x10000, 16);
    PutSome(w, (0xFFFF - total) % 0x10000, 16);
    PutDictionary(w, d, dictPos, total, flushed);
    StoredJoined(old(w.Written()), bytes, p);
  }

  lemma PadBound(p: nat)
    ensures Pad(p) < 8
  {
  }

  lemma StoredJoined(a: seq<bool>, bytes: seq<nat>, p: nat)
    requires |bytes| <= 0xFFFF
    ensures a + Bin(0, 2) + Bin(0, Pad(p + 2)) + Bin(|bytes|, 16) + Bin(0xFFFF - |bytes|, 16) + ByteBits(bytes)
         == a + StoredBits(bytes, p)
  {
    StoredShape(bytes, p);
    Assoc5(a, Bin(0, 2), Bin(0, Pad(p + 2)), Bin(|bytes|, 16), Bin(0xFFFF - |bytes|, 16), ByteBits(bytes));
    hide *;
  }

  lemma Assoc5(a: seq<bool>, b: seq<bool>, c: seq<bool>, d: seq<bool>, e: seq<bool>, f: seq<bool>)
    ensures a + b + c + d + e + f == a + (b + (c + (d + (e + f))))
  {
    assert e + f == [] + e + f;
    assert d + e + f == d + (e + f);
    assert c + d + e + f == c + (d + (e + f));
    assert b + c + d + e + f == b + (c + (d + (e + f)));
  }

  // ---------------------------------------------------------------- the compressor

  lemma {:induction false} BoundedLength(ts: seq<Token>)
    requires AllWellFormed(ts)
    ensures TotalLength(ts) <= MAX_MATCH_LEN * |ts|
  {
    if ts != [] {
      BoundedLength(ts[..|ts| - 1]);
    }
  }

  /** The 32-bit difference of two positions less than 2^32 apart. */
  lemma WrapDifference(a: nat, b: nat)
    requires b <= a < b + 0x1_0000_0000
    ensures U32(U32(a) - U32(b)) == a - b
  {
    var q, r := a / 0x1_0000_0000, b / 0x1_0000_0000;
    assert U32(a) - U32(b) == a - b - (q - r) * 0x1_0000_0000;
    WrapShift(a - b, r - q);
  }

  /** What the recorded tokens of a sealed buffer are to the text. */
  ghost predicate Covers(text: seq<nat>, flushed: nat, done: nat, ts: seq<Token>, total: nat) {
    && flushed <= done <= |text| && Valid(ts, text[..flushed]) && Expand(ts, text[..flushed]) == text[..done]
    && total == done - flushed && AllWellFormed(ts)
  }

  lemma CompressedText(text: seq<nat>, flushed: nat, done: nat, ts: seq<Token>, total: nat, c: Coding)
    requires Covers(text, flushed, done, ts, total)
    ensures GoodText(Compressed(c, ts), text[..flushed])
    ensures TextAfter(Compressed(c, ts), text[..flushed]) == text[..done]
  {
  }

  lemma StoredText(text: seq<nat>, flushed: nat, done: nat, ts: seq<Token>, total: nat)
    requires Covers(text, flushed, done, ts, total) && total <= 0xFFFF && AllBytes(text)
    ensures flushed + total == done <= |text|
    ensures GoodBlock(Stored(text[flushed..done])) && GoodText(Stored(text[flushed..done]), text[..flushed])
    ensures TextAfter(Stored(text[flushed..done]), text[..flushed]) == text[..done]
  {
    assert text[..done] == text[..flushed] + text[flushed..done];
  }

  lemma PartOf(b: Part, p: nat, a: seq<bool>)
    requires GoodBlock(b.block)
    ensures b.block.Compressed? ==> Suitable(b.block.c, b.block.ts)
    ensures b.block.Compressed? ==> a + [b.final] + BlockBits(b.block.c, b.block.ts) == a + PartBits(b, p)
    ensures b.block.Stored? ==> |b.block.bytes| <= 0xFFFF
    ensures b.block.Stored? ==> a + [b.final] + StoredBits(b.block.bytes, p + 1) == a + PartBits(b, p)
  {
    hide BlockBits, StoredBits, Suitable;
  }

  lemma FinalBit(f: bool)
    ensures Bin(if f then 1 else 0, 1) == [f]
  {
    assert Bin(0, 0) == [];
    assert Bin(if f then 1 else 0, 1) == [f] + Bin(0, 0);
  }

  /** The state between sealing the token buffer and emptying it. */
  ghost predicate Ready(p: Parser, e: Encoder, w: BitWriter, lzCodeBufDictPos: nat, base: nat, done: nat)
    reads p, p.d, p.d.bytes, p.d.next, p.d.hash, p.tb, p.tb.buf, w
  {
    && w.Valid() && w.capacity == OUT_BUF_SIZE - 16 && |w.Written()| <= 8 && base % 8 == 0
    && p.d.Valid() && p.Placed() && p.dictSize + p.lookaheadSize <= DICT_SIZE && p.tb.Shape() && Apart(p.tb, e)
    && e.Arrays() !! {p.d.bytes, p.d.next, p.d.hash} && p.tb.litCounts !in {p.d.bytes, p.d.next, p.d.hash}
    && p.tb.pos <= p.tb.buf.Length && p.tb.buf[..p.tb.pos] == Groups(p.tb.tokens)
    && Covers(p.d.text, p.flushed, done, p.tb.tokens, p.tb.totalBytes) && done <= p.pos < p.flushed + 0x1_0000_0000
    && lzCodeBufDictPos == U32(p.flushed)
  }

  /** What an emitted block is: its bits after `bits0`, and the text it stands for. It leaves room for an empty
      block. */
  ghost predicate EmittedBlock(bits0: seq<bool>, bits: seq<bool>, b: Part, base: nat, text: seq<nat>, flushed: nat,
      done: nat) {
    && flushed <= done <= |text| && GoodBlock(b.block) && GoodText(b.block, text[..flushed])
    && TextAfter(b.block, text[..flushed]) == text[..done]
    && bits == bits0 + PartBits(b, base + |bits0|) && |bits| + EMPTY_BLOCK_BITS < 8 * (OUT_BUF_SIZE - 16)
  }

  lemma EmittedCompressed(bits0: seq<bool>, bits: seq<bool>, final: bool, c: Coding, ts: seq<Token>, base: nat,
      text: seq<nat>, flushed: nat, done: nat, total: nat)
    requires Covers(text, flushed, done, ts, total) && Suitable(c, ts) && bits == bits0 + [final] + BlockBits(c, ts)
    requires |bits| + EMPTY_BLOCK_BITS < 8 * (OUT_BUF_SIZE - 16)
    ensures EmittedBlock(bits0, bits, Part(final, Compressed(c, ts)), base, text, flushed, done)
  {
    hide BlockBits, Suitable, Valid, Expand, GoodText, TextAfter, PartBits;
    CompressedText(text, flushed, done, ts, total, c);
    PartOf(Part(final, Compressed(c, ts)), base + |bits0|, bits0);
  }

  lemma EmittedStored(bits0: seq<bool>, bits: seq<bool>, final: bool, ts: seq<Token>, base: nat, text: seq<nat>,
      flushed: nat, done: nat, total: nat)
    requires Covers(text, flushed, done, ts, total) && total <= 0xFFFF && AllBytes(text)
    requires bits == bits0 + [final] + StoredBits(text[flushed..done], base + |bits0| + 1)
    requires |bits| + EMPTY_BLOCK_BITS < 8 * (OUT_BUF_SIZE - 16)
    ensures EmittedBlock(bits0, bits, Part(final, Stored(text[flushed..done])), base, text, flushed, done)
  {
    hide StoredBits, Valid, Expand, GoodText, TextAfter, PartBits, GoodBlock;
    StoredText(text, flushed, done, ts, total);
    PartOf(Part(final, Stored(text[flushed..done])), base + |bits0|, bits0);
  }

  lemma CoversFacts(text: seq<nat>, flushed: nat, done: nat, ts: seq<Token>, total: nat)
    requires Covers(text, flushed, done, ts, total)
    ensures flushed <= done <= |text| && total == done - flushed && AllWellFormed(ts)
  {
  }

  /** The stored form of the block. */
  method EmitStored(p: Parser, e: Encoder, w: BitWriter, final: bool, lzCodeBufDictPos: nat, ghost base: nat,
      ghost done: nat, ghost bits0: seq<bool>)
    returns (ghost b: Part)
    requires Ready(p, e, w, lzCodeBufDictPos, base, done) && p.pos - p.flushed <= p.dictSize
    requires w.Written() == bits0 + [final]
    modifies w
    ensures w.Valid() && EmittedBlock(bits0, w.Written(), b, base, p.d.text, p.flushed, done) && b.final == final
    ensures b.block.Stored?
  {
    hide Covers, StoredBits, EmittedBlock, Slot, U32, Window, Groups, Bin, ByteBits;
    CoversFacts(p.d.text, p.flushed, done, p.tb.tokens, p.tb.totalBytes);
    b := Part(final, Stored(p.d.text[p.flushed..done]));
    DictionaryBytes(p.d);
    WriteStored(w, p.d, lzCodeBufDictPos, p.tb.totalBytes, p.flushed, base);
    StoredSize(p.d.text[p.flushed..done], base + |bits0| + 1);
    EmittedStored(bits0, w.Written(), final, p.tb.tokens, base, p.d.text, p.flushed, done, p.tb.totalBytes);
  }

  lemma StoredSize(bytes: seq<nat>, p: nat)
    requires |bytes| <= DICT_SIZE
    ensures |StoredBits(bytes, p)| <= 8 * DICT_SIZE + 42
  {
    StoredShape(bytes, p);
    ByteBitsLength(bytes);
    hide StoredBits, ByteBits, Bin;
  }

  /** A compressed form of the block, which always fits. */
  method EmitCompressed(p: Parser, e: Encoder, w: BitWriter, final: bool, staticBlock: bool, lzCodeBufDictPos: nat,
      ghost base: nat, ghost done: nat, ghost bits0: seq<bool>)
    returns (ok: bool, ghost b: Part)
    requires Ready(p, e, w, lzCodeBufDictPos, base, done) && (!staticBlock ==> p.tb.Sealed())
    requires w.Written() == bits0 + [final]
    modifies w, p.tb.litCounts, e.Arrays()
    ensures w.Valid() && p.d.Valid() && p.tb.Shape() && old(|w.out|) <= |w.out|
    ensures ok && EmittedBlock(bits0, w.Written(), b, base, p.d.text, p.flushed, done) && b.final == final
    ensures b.block.Compressed? && b.block.ts == p.tb.tokens && (b.block.c.Fixed? <==> staticBlock)
  {
    hide Covers, BlockBits, Suitable, EmittedBlock, Slot, U32, Window, Groups, Bin, ByteBits, Counted,
      DynamicBlock.Economical;
    CoversFacts(p.d.text, p.flushed, done, p.tb.tokens, p.tb.totalBytes);
    ghost var c;
    ok, c := CompressBlock(p.tb, w, e, staticBlock);
    b := Part(final, Compressed(c, p.tb.tokens));
    assert |p.tb.buf[..p.tb.pos]| == |Groups(p.tb.tokens)|;
    BlockFits(c, p.tb.tokens);
    w.Fits();
    EmittedCompressed(bits0, w.Written(), final, c, p.tb.tokens, base, p.d.text, p.flushed, done, p.tb.totalBytes);
  }

  lemma TotalBelow(p: Parser, e: Encoder, w: BitWriter, lzCodeBufDictPos: nat, base: nat, done: nat)
    requires Ready(p, e, w, lzCodeBufDictPos, base, done)
    ensures U32(p.lookaheadPos - lzCodeBufDictPos) == p.pos - p.flushed && p.tb.totalBytes <= p.pos - p.flushed
  {
    CoversFacts(p.d.text, p.flushed, done, p.tb.tokens, p.tb.totalBytes);
    WrapDifference(p.pos, p.flushed);
  }

  /** Whole bytes by which the output grows from n0 to n bits. */
  function Grown(n0: nat, n: nat): int {
    n / 8 - n0 / 8
  }

  /** Which form a block of `total` bytes takes. Stored, if the dictionary still holds its text and either that is asked
      for or the compressed form is not shorter, by whole bytes; otherwise the compressed form. Short blocks, and all
      if that is asked for, use the fixed codes. */
  ghost predicate WellChosen(b: Part, tried: Part, ts: seq<Token>, raw: bool, forceStatic: bool, within: bool,
      total: nat, n0: nat, at: nat)
  {
    && (b.block.Stored? <==> within && (raw || Expands(tried, total, n0, at)))
    && (!b.block.Stored? ==> b == tried)
    && (!(raw && within) ==> tried.block.Compressed? && tried.block.ts == ts
                             && (tried.block.c.Fixed? <==> forceStatic || total < 48))
  }

  /** The block, which starts at bit `at` when n0 bits are there, is not shorter than its text. */
  ghost predicate Expands(tried: Part, total: nat, n0: nat, at: nat) {
    total != 0 && GoodBlock(tried.block) && Grown(n0, n0 + |PartBits(tried, at)| - 1) + 1 >= total
  }

  /** A block whose text the dictionary still holds is never longer than its text by more than its 42 bits of frame. */
  lemma BlockBounded(b: Part, tried: Part, ts: seq<Token>, raw: bool, forceStatic: bool, total: nat, n0: nat, at: nat)
    requires WellChosen(b, tried, ts, raw, forceStatic, true, total, n0, at) && total > 0 && GoodBlock(b.block)
    requires b.block.Stored? ==> |b.block.bytes| == total
    ensures |PartBits(b, at)| <= 8 * total + 42
  {
    hide BlockBits, Suitable, Bin, ByteBits;
    if b.block.Stored? {
      ByteBitsLength(b.block.bytes);
      StoredShape(b.block.bytes, at + 1);
      hide StoredBits;
    } else {
      hide PartBits;
    }
  }

  /** Writes the block that is due: stored when that is asked for or not longer and the dictionary still holds the
      text, and otherwise compressed. The fall-back to a static block, should the dynamic one not fit the output, is
      never needed. */
  method EmitBlock(p: Parser, e: Encoder, w: BitWriter, forceStatic: bool, final: bool, lzCodeBufDictPos: nat,
      ghost base: nat, ghost done: nat, ghost bits0: seq<bool>)
    returns (ghost b: Part, ghost tried: Part)
    requires Ready(p, e, w, lzCodeBufDictPos, base, done) && p.tb.Sealed() && w.Written() == bits0 + [final]
    modifies w, p.tb.litCounts, e.Arrays()
    ensures w.Valid() && p.d.Valid() && p.tb.Shape()
    ensures EmittedBlock(bits0, w.Written(), b, base, p.d.text, p.flushed, done) && b.final == final
    ensures WellChosen(b, tried, p.tb.tokens, p.raw, forceStatic, p.pos - p.flushed <= p.dictSize, p.tb.totalBytes,
              |bits0| + 1, base + |bits0|)
  {
    hide Covers, EmittedBlock, Slot, U32, Window, Chained, Groups, Bin, ByteBits, Counted, TotalLength, PartBits,
      GoodBlock;
    TotalBelow(p, e, w, lzCodeBufDictPos, base, done);
    var useRaw := p.raw && U32(p.lookaheadPos - lzCodeBufDictPos) <= p.dictSize;
    var savedOut, savedBuffer, savedBits := w.out, w.bitBuffer, w.bitsIn;
    var ok := false;
    b := Part(final, Stored([]));
    WholeBytes(w);
    if !useRaw {
      ok, b := EmitCompressed(p, e, w, final, forceStatic || p.tb.totalBytes < 48, lzCodeBufDictPos, base, done, bits0);
      WholeBytes(w);
      EmittedSize(bits0, w.Written(), b, base, p.d.text, p.flushed, done);
    }
    tried := b;
    var expanded := p.tb.totalBytes != 0 && |w.out| - |savedOut| + 1 >= p.tb.totalBytes;
    if (useRaw || expanded) && U32(p.lookaheadPos - lzCodeBufDictPos) <= p.dictSize {
      w.Restore(savedOut, savedBuffer, savedBits);
      b := EmitStored(p, e, w, final, lzCodeBufDictPos, base, done, bits0);
    } else {
      assert ok;
    }
  }

  lemma WholeBytes(w: BitWriter)
    requires w.Valid()
    ensures |w.out| == |w.Written()| / 8
  {
    ByteBitsLength(w.out);
  }

  lemma EmittedSize(bits0: seq<bool>, bits: seq<bool>, b: Part, base: nat, text: seq<nat>, flushed: nat, done: nat)
    requires EmittedBlock(bits0, bits, b, base, text, flushed, done)
    ensures GoodBlock(b.block) && |bits| == |bits0| + |PartBits(b, base + |bits0|)|
  {
    hide GoodBlock, GoodText, TextAfter, PartBits;
  }

  // ---------------------------------------------------------------- after a full flush

  /** The block stands for its part of the text also where only the text from `base` on is known. */
  ghost predicate SinceFlush(b: Block, text: seq<nat>, base: nat, flushed: nat, done: nat) {
    && base <= flushed <= done <= |text| && GoodText(b, text[base..flushed])
    && TextAfter(b, text[base..flushed]) == text[base..done]
  }

  /** The blocks from number `restart` on stand for the text from `base` on, without what is before it. */
  ghost predicate Restarts(parts: seq<Part>, restart: nat, text: seq<nat>, base: nat, flushed: nat) {
    && restart <= |parts| && base <= flushed <= |text| && GoodTexts(parts[restart..], [])
    && TextOf(parts[restart..], []) == text[base..flushed]
  }

  lemma CompressedSince(text: seq<nat>, base: nat, flushed: nat, done: nat, pos: nat, ts: seq<Token>, total: nat,
      dist: nat, len: nat, c: Coding)
    requires Covers(text, flushed, done, ts, total) && Near(text, base, flushed, pos, ts, dist, len)
    ensures SinceFlush(Compressed(c, ts), text, base, flushed, done)
  {
    var before, out := text[..base], text[base..flushed];
    assert text[..flushed] == before + out;
    ExpandBehind(ts, before, out);
    hide LzTokens.Valid, LzTokens.Expand;
    assert text[..done] == before + text[base..done];
    assert text[base..done] == text[..done][base..] == Expand(ts, out);
  }

  lemma StoredSince(text: seq<nat>, base: nat, flushed: nat, done: nat, bytes: seq<nat>)
    requires base <= flushed <= done <= |text| && TextAfter(Stored(bytes), text[..flushed]) == text[..done]
    ensures SinceFlush(Stored(bytes), text, base, flushed, done)
  {
    assert text[..flushed] + bytes == text[..done];
    assert bytes == text[..done][flushed..] == text[flushed..done];
    assert text[base..flushed] + text[flushed..done] == text[base..done];
  }

  lemma BlockSince(b: Part, tried: Part, text: seq<nat>, base: nat, flushed: nat, done: nat, pos: nat, ts: seq<Token>,
      total: nat, dist: nat, len: nat, raw: bool, forceStatic: bool, within: bool, n0: nat, at: nat)
    requires Covers(text, flushed, done, ts, total) && Near(text, base, flushed, pos, ts, dist, len)
    requires WellChosen(b, tried, ts, raw, forceStatic, within, total, n0, at)
    requires TextAfter(b.block, text[..flushed]) == text[..done]
    ensures SinceFlush(b.block, text, base, flushed, done)
  {
    hide SinceFlush, LzTokens.Valid, LzTokens.Expand, Expands;
    match b.block
    case Stored(bytes) =>
      StoredSince(text, base, flushed, done, bytes);
    case Compressed(c, _) =>
      CompressedSince(text, base, flushed, done, pos, ts, total, dist, len, c);
  }

  lemma SinceEarlier(b: Block, text: seq<nat>, start: nat, base: nat, flushed: nat, done: nat)
    requires SinceFlush(b, text, base, flushed, done) && start <= base
    ensures SinceFlush(b, text, start, flushed, done)
  {
    var before, out := text[start..base], text[base..flushed];
    assert text[start..flushed] == before + out && text[start..done] == before + text[base..done];
    hide LzTokens.Valid, LzTokens.Expand;
    match b
    case Compressed(_, ts) => ExpandBehind(ts, before, out);
    case Stored(bytes) => assert before + out + bytes == before + (out + bytes);
  }

  lemma RestartsPush(parts: seq<Part>, restart: nat, text: seq<nat>, base: nat, flushed: nat, done: nat, b: Part)
    requires Restarts(parts, restart, text, base, flushed) && SinceFlush(b.block, text, base, flushed, done)
    ensures Restarts(parts + [b], restart, text, base, done)
  {
    hide GoodText, TextAfter, GoodTexts, TextOf;
    TextPush(parts[restart..], b, []);
    assert (parts + [b])[restart..] == parts[restart..] + [b];
  }

  lemma RestartsMore(parts: seq<Part>, restart: nat, text: seq<nat>, base: nat, flushed: nat, text': seq<nat>)
    requires text <= text'
    ensures Restarts(parts, restart, text, base, flushed) ==> Restarts(parts, restart, text', base, flushed)
  {
    hide GoodTexts, TextOf;
    assert base <= flushed <= |text| ==> text'[base..flushed] == text[base..flushed];
  }

  lemma NothingSince(parts: seq<Part>, text: seq<nat>)
    ensures Restarts(parts, |parts|, text, |text|, |text|)
  {
    assert parts[|parts|..] == [] && text[|text|..|text|] == [];
  }

  lemma EmptySince(parts: seq<Part>, restart: nat, text: seq<nat>, base: nat, done: nat)
    ensures Restarts(parts, restart, text, base, done) ==>
      Restarts(parts + [Part(false, Stored([]))], restart, text, base, done)
  {
    if Restarts(parts, restart, text, base, done) {
      assert text[base..done] + [] == text[base..done];
      RestartsPush(parts, restart, text, base, done, done, Part(false, Stored([])));
    }
  }

  lemma NearFlushed(text: seq<nat>, base: nat, flushed: nat, pos: nat, ts: seq<Token>, dist: nat, len: nat, done: nat)
    requires flushed <= done <= |text|
    ensures Near(text, base, flushed, pos, ts, dist, len) ==> Near(text, base, done, pos, [], dist, len)
  {
  }

  /** tdefl_compressor with a callback that accepts all output. */
  class Compressor {
    const p: Parser
    const e: Encoder
    const w: BitWriter
    const forceStatic: bool
    var lzCodeBufDictPos: nat
    var output: seq<nat>
    ghost var parts: seq<Part>
    ghost var restart: nat
    ghost var start: nat

    ghost predicate Separate()
      reads this, p
    {
      && p.Separate() && Apart(p.tb, e) && e.Arrays() !! {p.d.bytes, p.d.next, p.d.hash}
      && w.capacity == OUT_BUF_SIZE - 16
    }

    /** Between blocks: what has been put out is a sequence of blocks that stands for the text up to the last
        flush. */
    ghost predicate Valid()
      reads this, w, p, p.d, p.d.bytes, p.d.next, p.d.hash, p.tb, p.tb.buf, p.tb.litCounts, p.tb.distCounts
    {
      && Separate() && p.Valid() && w.Valid() && lzCodeBufDictPos == U32(p.flushed) && AllBytes(output)
      && p.flushed <= |p.d.text| && Emitted(ByteBits(output) + Bin(w.bitBuffer, w.bitsIn), parts, p.d.text[..p.flushed])
    }

    /** What has been put out from block `restart` on, and what is recorded, do not need the text before `start`. */
    ghost predicate Independent()
      reads this, p, p.d, p.tb
    {
      p.LooksNear() && start <= p.d.base && Restarts(parts, restart, p.d.text, start, p.flushed)
    }

    ghost function Repr(): set<object>
      reads this, p
    {
      {this, w, p, p.d, p.d.bytes, p.d.next, p.d.hash, p.tb, p.tb.buf, p.tb.litCounts, p.tb.distCounts} + e.Arrays()
    }

    constructor (probes: nat, greedy: bool, rle: bool, filter: bool, raw: bool, staticBlocks: bool, heads: seq<nat>,
        links: seq<nat>)
      requires probes <= 0xFFF && |heads| == LZ_HASH_SIZE && |links| == DICT_SIZE
      requires (forall i :: 0 <= i < |heads| ==> heads[i] < 0x10000)
      requires forall i :: 0 <= i < |links| ==> links[i] < 0x10000
      ensures Valid() && p.d.text == [] && p.lookaheadSize == 0 && p.tb.pos == 1 && fresh(Repr())
      ensures (p.greedy, p.rle, p.filter, p.raw, forceStatic) == (greedy, rle, filter, raw, staticBlocks)
      ensures probes <= 3 * (p.probes0 - 1) < probes + 3 && probes / 4 <= 3 * (p.probes1 - 1) < probes / 4 + 3
    {
      hide Window, Chained, Parsed, Buffered, Counted, TotalLength, Emitted, ByteBits, Bin, Slot, U32, Pow2,
        Encoder.Arrays,
        Dictionary.Valid, TokenBuffer.Valid;
      p := new Parser(probes, greedy, rle, filter, raw, heads, links);
      e := new Encoder();
      w := new BitWriter(OUT_BUF_SIZE - 16);
      forceStatic := staticBlocks;
      lzCodeBufDictPos, output, parts, restart, start := 0, [], [], 0, 0;
      new;
      NothingEmitted();
    }

    /** Seals the token buffer and starts an output buffer. */
    method StartBlock(final: bool)
      requires Valid()
      modifies w, p.tb`pos, p.tb.buf
      ensures Ready(p, e, w, lzCodeBufDictPos, 8 * |output|, Done(p.pos, p.savedLen)) && p.tb.Sealed()
      ensures w.Written() == Bin(old(w.bitBuffer), old(w.bitsIn)) + [final]
    {
      hide Window, Chained, Parsed, Buffered, Counted, TotalLength, Bin, ByteBits, Emitted, Groups, Pow2, Slot, U32,
        Covers,
        LzTokens.Valid, LzTokens.Expand;
      ParsedFacts(p.d.text, p.flushed, p.pos, p.tb.tokens, p.savedLit, p.savedDist, p.savedLen);
      ParsedCovers(p.d.text, p.flushed, p.pos, p.tb.tokens, p.savedLit, p.savedDist, p.savedLen, p.tb.litCounts[..],
        p.tb.distCounts[..]);
      TokenBound(p.tb.buf[..], p.tb.flags, p.tb.pos, p.tb.flagsLeft, p.tb.tokens);
      BoundedLength(p.tb.tokens);
      p.tb.Seal();
      w.Restart();
      WordRange();
      FinalBit(final);
      PutSome(w, if final then 1 else 0, 1);
    }

    /** The end of a block: hands the output over and empties the token buffer. */
    method CloseBlock(ghost done: nat)
      requires Closing(done) && AllBytes(output) && |w.Written()| < 8 * w.capacity
      modifies this`lzCodeBufDictPos, this`output, p`flushed, p.tb, p.tb.buf, p.tb.litCounts, p.tb.distCounts
      ensures Separate() && p.Valid() && lzCodeBufDictPos == U32(p.flushed) && p.flushed == done && p.tb.tokens == []
      ensures p.tb.pos == 1
      ensures ByteBits(output) + Bin(w.bitBuffer, w.bitsIn) == old(ByteBits(output)) + w.Written()
      ensures AllBytes(output) && old(output) <= output && (old(p.LooksNear()) ==> p.LooksNear())
    {
      hide Window, Chained, Parsed, Near, Buffered, Counted, TotalLength, Bin, ByteBits, Emitted, Groups, Pow2, Slot,
        U32, Covers;
      ParsedFlushed(p.d.text, p.flushed, p.pos, p.tb.tokens, p.savedLit, p.savedDist, p.savedLen);
      CoversFacts(p.d.text, p.flushed, done, p.tb.tokens, p.tb.totalBytes);
      NearFlushed(p.d.text, p.d.base, p.flushed, p.pos, p.tb.tokens, p.savedDist, p.savedLen, done);
      w.Fits();
      assert |w.out| < w.capacity;
      Wraps(p.flushed, p.tb.totalBytes);
      lzCodeBufDictPos := U32(lzCodeBufDictPos + p.tb.totalBytes);
      p.flushed := done;
      p.tb.Reset();
      HandOver();
    }

    /** The callback takes the output buffer. */
    method HandOver()
      requires w.Valid() && AllBytes(output)
      modifies this`output
      ensures ByteBits(output) + Bin(w.bitBuffer, w.bitsIn) == old(ByteBits(output)) + w.Written()
      ensures AllBytes(output) && old(output) <= output
    {
      hide Bin, ByteBits, Pow2;
      ByteBitsAppend(output, w.out);
      assert ByteBits(output) + ByteBits(w.out) + Bin(w.bitBuffer, w.bitsIn) ==
        ByteBits(output) + (ByteBits(w.out) + Bin(w.bitBuffer, w.bitsIn));
      output := output + w.out;
    }

    /** What CloseBlock needs. */
    ghost predicate Closing(done: nat)
      reads this, w, p, p.d, p.d.bytes, p.d.next, p.d.hash, p.tb, p.tb.buf
    {
      && Separate() && p.d.Valid() && p.d.Complete() && p.tb.Shape() && w.Valid() && p.Placed()
      && p.dictSize + p.lookaheadSize <= DICT_SIZE
      && done == Done(p.pos, p.savedLen) && done <= |p.d.text|
      && Covers(p.d.text, p.flushed, done, p.tb.tokens, p.tb.totalBytes) && lzCodeBufDictPos == U32(p.flushed)
      && Parsed(p.d.text, p.flushed, p.pos, p.tb.tokens, p.savedLit, p.savedDist, p.savedLen)
      && (p.rle || p.raw ==> p.savedLen == 0)
    }

    /** Writes the pending block into a fresh output buffer. */
    method PutBlock(final: bool) returns (ghost done: nat)
      requires Valid()
      modifies this`parts, w, p.tb`pos, p.tb.buf, p.tb.litCounts, e.Arrays()
      ensures Closing(done) && |w.Written()| + EMPTY_BLOCK_BITS < 8 * w.capacity
      ensures !final ==> Emitted(ByteBits(output) + w.Written(), parts, p.d.text[..done])
      ensures final ==> Finished(ByteBits(output) + w.Written(), parts, p.d.text[..done])
      ensures old(parts) <= parts
      ensures old(Independent()) ==> p.LooksNear() && Restarts(parts, restart, p.d.text, start, done)
    {
      hide Window, Chained, Parsed, Buffered, Counted, TotalLength, Bin, ByteBits, Emitted, Finished, Groups, Pow2,
        Slot, U32,
        Covers, PartBits, EmittedBlock, Near, Restarts, WellChosen,
        Encoder.Arrays, Encoder.Shape, Apart, Dictionary.Valid, TokenBuffer.Shape;
      ParsedFacts(p.d.text, p.flushed, p.pos, p.tb.tokens, p.savedLit, p.savedDist, p.savedLen);
      done := Done(p.pos, p.savedLen);
      ghost var bits0 := Bin(w.bitBuffer, w.bitsIn);
      ByteBitsLength(output);
      StartBlock(final);
      ghost var b, tried := EmitBlock(p, e, w, forceStatic, final, lzCodeBufDictPos, 8 * |output|, done, bits0);
      BlockEmitted(ByteBits(output), bits0, w.Written(), b, parts, p.d.text, p.flushed, done);
      EmittedRoom(bits0, w.Written(), b, 8 * |output|, p.d.text, p.flushed, done);
      NextSince(p, b, tried, bits0, w.Written(), 8 * |output|, done, forceStatic, parts, restart, start);
      parts := parts + [b];
    }

    /** Completes the stream after its last block. */
    method Finish()
      requires Valid()
      modifies this, w, p`flushed, p.tb, p.tb.buf, p.tb.litCounts, p.tb.distCounts, e.Arrays()
      ensures AllBytes(output) && Done(p.pos, p.savedLen) >= 0
      ensures CompleteOutput(output, parts, p.d.text, Done(p.pos, p.savedLen))
      ensures old(output) <= output && old(parts) <= parts && (restart, start) == old((restart, start))
      ensures old(Independent()) ==> Restarts(parts, restart, p.d.text, start, Done(p.pos, p.savedLen))
    {
      hide Window, Chained, Parsed, Near, Buffered, Counted, TotalLength, Bin, ByteBits, Emitted, Finished, Groups,
        Pow2, Slot, U32,
        Covers, PartBits, CompleteOutput, Pad, Restarts, Encoder.Arrays, Encoder.Shape, Apart, Parser.Separate,
        Dictionary.Valid, TokenBuffer.Valid, TokenBuffer.Shape, Parser.Placed, Separate;
      ghost var done := PutBlock(true);
      ghost var start, bits := ByteBits(output), w.Written();
      ByteBitsLength(output);
      PadShift(|start|, |bits|);
      PadBound(|bits|);
      Align(w);
      CloseBlock(done);
      OutputComplete(start, bits, output, w.bitBuffer, parts, p.d.text, done);
    }

    /** The empty stored block after a sync or full flush. */
    method PutEmptyBlock(ghost done: nat)
      requires Closing(done) && Emitted(ByteBits(output) + w.Written(), parts, p.d.text[..done])
      requires |w.Written()| + EMPTY_BLOCK_BITS < 8 * w.capacity
      modifies this`parts, w
      ensures Closing(done) && Emitted(ByteBits(output) + w.Written(), parts, p.d.text[..done])
      ensures |w.Written()| < 8 * w.capacity && w.bitsIn == 0 && EndsEmpty(parts) && old(parts) <= parts
      ensures old(Restarts(parts, restart, p.d.text, start, done)) ==> Restarts(parts, restart, p.d.text, start, done)
    {
      hide Window, Chained, Parsed, Bin, ByteBits, Emitted, Slot, U32, Covers, Restarts;
      EmptySince(parts, restart, p.d.text, start, done);
      ghost var start, bits := ByteBits(output), w.Written();
      ByteBitsLength(output);
      WriteEmptyStored(w);
      EmptyBlock(start, bits, w.Written(), parts, p.d.text[..done]);
      parts := parts + [Part(false, Stored([]))];
    }

    /** tdefl_flush_block. Every block fits the output buffer, also the empty stored one after a sync or full flush;
        after the last block the output is a complete Deflate stream for everything parsed, padded to a whole
        byte. */
    method FlushBlock(flush: nat)
      requires Valid() && flush in {0, 2, 3, FINISH}
      modifies this, w, p`flushed, p.tb, p.tb.buf, p.tb.litCounts, p.tb.distCounts, e.Arrays()
      ensures flush != FINISH ==> Valid() && p.flushed == Done(p.pos, p.savedLen) && p.tb.tokens == [] && p.tb.pos == 1
      ensures flush in {2, 3} ==> w.bitsIn == 0 && EndsEmpty(parts)
      ensures flush == FINISH ==> AllBytes(output) && Done(p.pos, p.savedLen) >= 0
      ensures flush == FINISH ==> CompleteOutput(output, parts, p.d.text, Done(p.pos, p.savedLen))
      ensures old(output) <= output && old(parts) <= parts && (restart, start) == old((restart, start))
      ensures flush != FINISH && old(Independent()) ==> Independent()
      ensures flush == FINISH && old(Independent()) ==>
        Restarts(parts, restart, p.d.text, start, Done(p.pos, p.savedLen))
    {
      hide Window, Chained, Parsed, Near, Buffered, Counted, TotalLength, Bin, ByteBits, Emitted, Finished, Groups,
        Pow2, Slot, U32, EndsEmpty,
        Covers, PartBits, CompleteOutput, Restarts,
        Encoder.Arrays, Encoder.Shape, Apart, Parser.Separate, Dictionary.Valid, TokenBuffer.Valid, TokenBuffer.Shape,
        Parser.Placed, Separate;
      if flush == FINISH {
        Finish();
      } else {
        ghost var done := PutBlock(false);
        if flush != 0 {
          PutEmptyBlock(done);
        }
        CloseBlock(done);
      }
    }

    /** tdefl_compress_normal: takes in all input and parses it, all of it when flushing; blocks are written
        whenever the token buffer is about to run out of room or enough has been recorded. */
    method CompressNormal(src: seq<nat>, flush: nat)
      requires Valid() && AllBytes(src) && p.tb.pos <= LZ_CODE_BUF_SIZE - 8
      modifies Repr()
      ensures Valid() && p.tb.pos <= LZ_CODE_BUF_SIZE - 8 && p.d.text == old(p.d.text) + src
      ensures flush != 0 ==> p.lookaheadSize == 0
      ensures old(output) <= output && old(parts) <= parts
      ensures (restart, start, p.d.base) == old((restart, start, p.d.base))
      ensures old(Independent()) ==> Independent()
    {
      hide Window, Chained, Parsed, Near, Buffered, Counted, TotalLength, Bin, ByteBits, Emitted, Slot, U32,
        Encoder.Arrays, Encoder.Shape, Dictionary.Valid, TokenBuffer.Valid, Restarts;
      ghost var text0 := p.d.text;
      var srcPos := 0;
      while srcPos < |src| || (flush != 0 && p.lookaheadSize != 0)
        invariant 0 <= srcPos <= |src| && Valid() && p.tb.pos <= LZ_CODE_BUF_SIZE - 8
        invariant p.d.text == text0 + src[..srcPos]
        invariant old(output) <= output && old(parts) <= parts && (restart, start) == old((restart, start))
        invariant p.d.base == old(p.d.base) && (old(Independent()) ==> Independent())
        decreases |src| - srcPos + p.lookaheadSize
      {
        srcPos := Take(src, srcPos, text0);
        if flush == 0 && p.lookaheadSize < MAX_MATCH_LEN {
          break;
        }
        ParseOne();
      }
      assert src[..srcPos] == src;
    }

    /** Input for one step. */
    method Take(src: seq<nat>, srcPos: nat, ghost text0: seq<nat>) returns (srcPos': nat)
      requires Valid() && srcPos <= |src| && AllBytes(src) && p.d.text == text0 + src[..srcPos]
      modifies p`lookaheadSize, p`dictSize, p.d, p.d.bytes, p.d.next, p.d.hash
      ensures Valid() && srcPos <= srcPos' <= |src| && p.d.text == text0 + src[..srcPos']
      ensures p.lookaheadSize - old(p.lookaheadSize) == srcPos' - srcPos
      ensures p.lookaheadSize == MAX_MATCH_LEN || srcPos' == |src|
      ensures p.d.base == old(p.d.base) && (old(Independent()) ==> Independent())
    {
      hide Window, Chained, Parsed, Near, Buffered, Counted, TotalLength, Bin, ByteBits, Emitted, Slot, U32,
        Encoder.Arrays, Encoder.Shape, TokenBuffer.Valid, Restarts;
      ghost var text, flushed := p.d.text, p.flushed;
      srcPos' := p.Fill(src, srcPos);
      RestartsMore(parts, restart, text, start, flushed, p.d.text);
      assert text0 + src[..srcPos] + src[srcPos..srcPos'] == text0 + src[..srcPos'];
      assert p.d.text[..flushed] == text[..flushed];
    }

    /** One step of the parser, and a block when one is due. */
    method ParseOne()
      requires Valid() && p.lookaheadSize >= 1 && p.tb.pos <= LZ_CODE_BUF_SIZE - 8
      modifies Repr()
      ensures Valid() && p.d.text == old(p.d.text) && p.lookaheadSize < old(p.lookaheadSize)
      ensures p.tb.pos <= LZ_CODE_BUF_SIZE - 8
      ensures old(output) <= output && old(parts) <= parts
      ensures (restart, start, p.d.base) == old((restart, start, p.d.base))
      ensures old(Independent()) ==> Independent()
    {
      hide Window, Chained, Parsed, Near, Buffered, Counted, TotalLength, Bin, ByteBits, Emitted, Slot, U32,
        Encoder.Arrays, Encoder.Shape, Dictionary.Valid, TokenBuffer.Valid, Restarts;
      ghost var dist, len := p.Step();
      var incompressible := p.tb.pos * 115 / 128 >= p.tb.totalBytes;
      if p.tb.pos > LZ_CODE_BUF_SIZE - 8 || (p.tb.totalBytes > 31 * 1024 && (incompressible || p.raw)) {
        FlushBlock(0);
      }
    }

    /** After a full flush the dictionary is empty. */
    method StartOver()
      requires Valid() && p.flushed == |p.d.text| && p.tb.tokens == []
      modifies p`dictSize, p.d`base, p.d`linked, p.d.next, p.d.hash
      ensures Valid() && p.dictSize == 0 && p.d.base == |p.d.text| && p.d.Empty() && p.LooksNear()
    {
      hide Window, Chained, Parsed, Buffered, Counted, TotalLength, Bin, ByteBits, Emitted, Slot, U32,
        Encoder.Arrays, Encoder.Shape, TokenBuffer.Valid;
      ParsedFacts(p.d.text, p.flushed, p.pos, p.tb.tokens, p.savedLit, p.savedDist, p.savedLen);
      p.d.Forget();
      p.dictSize := 0;
    }

    /** A full flush is a point to start from: nothing later needs what is before it. */
    ghost method Mark()
      requires Valid() && p.LooksNear() && p.flushed == p.d.base == |p.d.text|
      modifies this`restart, this`start
      ensures Valid() && Independent() && restart == |parts| && start == |p.d.text|
    {
      hide Window, Chained, Parsed, Near, Buffered, Counted, TotalLength, Bin, ByteBits, Emitted, Slot, U32, Restarts;
      restart, start := |parts|, |p.d.text|;
      NothingSince(parts, p.d.text);
    }

    /** tdefl_compress: 0 is no flush, 2 a sync flush, 3 a full flush. After a sync or full flush the output stands for
        everything that has been passed in, and after a full one nothing before it is looked back on. With FINISH the
        output becomes a complete Deflate stream for everything. */
    method Compress(src: seq<nat>, flush: nat)
      requires Valid() && AllBytes(src) && p.tb.pos <= LZ_CODE_BUF_SIZE - 8 && flush in {0, 2, 3, FINISH}
      modifies Repr()
      ensures flush != FINISH ==> Valid() && p.tb.pos <= LZ_CODE_BUF_SIZE - 8 && p.d.text == old(p.d.text) + src
      ensures flush in {2, 3} ==> p.flushed == |p.d.text| && Synced(output, parts, p.d.text)
      ensures flush == 3 ==> p.dictSize == 0 && p.d.base == |p.d.text| && p.d.Empty()
      ensures flush == FINISH ==> p.d.text == old(p.d.text) + src && AllBytes(output)
      ensures flush == FINISH ==> CompleteOutput(output, parts, p.d.text, |p.d.text|)
      ensures old(output) <= output && old(parts) <= parts
      ensures (restart, start) == old((restart, start)) && (flush == 3 ==> p.LooksNear())
      ensures flush != FINISH && old(Independent()) ==> Independent()
      ensures flush == FINISH && old(Independent()) ==> Restarts(parts, restart, p.d.text, start, |p.d.text|)
    {
      hide Window, Chained, Parsed, Near, Buffered, Counted, TotalLength, Bin, ByteBits, Emitted, Slot, U32,
        Encoder.Arrays, Encoder.Shape, TokenBuffer.Valid, CompleteOutput, Restarts;
      CompressNormal(src, flush);
      if flush != 0 && p.lookaheadSize == 0 {
        ParsedFacts(p.d.text, p.flushed, p.pos, p.tb.tokens, p.savedLit, p.savedDist, p.savedLen);
        FlushBlock(flush);
        if flush != FINISH {
          AllOut(output, w.bitBuffer, w.bitsIn, parts, p.d.text, p.flushed);
        }
        if flush == 3 {
          StartOver();
        }
      }
    }
  }

  /** The last block is an empty stored one. */
  ghost predicate EndsEmpty(parts: seq<Part>) {
    parts != [] && parts[|parts| - 1] == Part(false, Stored([]))
  }

  /** The whole bytes put out are the bits of blocks that stand for the text; the last one is an empty stored block. */
  ghost predicate Synced(output: seq<nat>, parts: seq<Part>, text: seq<nat>) {
    AllBytes(output) && Emitted(ByteBits(output), parts, text) && EndsEmpty(parts)
  }

  lemma AllOut(output: seq<nat>, buffer: nat, bitsIn: nat, parts: seq<Part>, text: seq<nat>, flushed: nat)
    requires flushed == |text| && Emitted(ByteBits(output) + Bin(buffer, bitsIn), parts, text[..flushed]) && bitsIn == 0
    ensures Emitted(ByteBits(output), parts, text)
  {
    hide Emitted, ByteBits;
    NoBits0(ByteBits(output), buffer);
    assert text[..flushed] == text;
  }

  /** The output is a complete stream for the first `done` bytes of the text, padded with zero bits. */
  ghost predicate CompleteOutput(output: seq<nat>, parts: seq<Part>, text: seq<nat>, done: nat) {
    && done <= |text| && GoodParts(parts) && Finished(Stream(parts, 0), parts, text[..done])
    && ByteBits(output) == Stream(parts, 0) + Bin(0, Pad(|Stream(parts, 0)|))
  }

  lemma EmittedRoom(bits0: seq<bool>, bits: seq<bool>, b: Part, base: nat, text: seq<nat>, flushed: nat, done: nat)
    requires EmittedBlock(bits0, bits, b, base, text, flushed, done)
    ensures |bits| + EMPTY_BLOCK_BITS < 8 * (OUT_BUF_SIZE - 16)
  {
  }

  lemma EmittedText(bits0: seq<bool>, bits: seq<bool>, b: Part, base: nat, text: seq<nat>, flushed: nat, done: nat)
    requires EmittedBlock(bits0, bits, b, base, text, flushed, done)
    ensures flushed <= done <= |text| && TextAfter(b.block, text[..flushed]) == text[..done]
  {
  }

  lemma NextSince(p: Parser, b: Part, tried: Part, bits0: seq<bool>, bits: seq<bool>, base: nat, done: nat,
      forceStatic: bool, parts: seq<Part>, restart: nat, start: nat)
    requires EmittedBlock(bits0, bits, b, base, p.d.text, p.flushed, done)
    requires Covers(p.d.text, p.flushed, done, p.tb.tokens, p.tb.totalBytes)
    requires WellChosen(b, tried, p.tb.tokens, p.raw, forceStatic, p.pos - p.flushed <= p.dictSize, p.tb.totalBytes,
               |bits0| + 1, base + |bits0|)
    ensures p.LooksNear() && start <= p.d.base && Restarts(parts, restart, p.d.text, start, p.flushed) ==>
      Restarts(parts + [b], restart, p.d.text, start, done)
  {
    hide EmittedBlock, Covers, WellChosen, Near, Restarts, SinceFlush, TextAfter;
    EmittedText(bits0, bits, b, base, p.d.text, p.flushed, done);
    if p.LooksNear() && start <= p.d.base && Restarts(parts, restart, p.d.text, start, p.flushed) {
      BlockSince(b, tried, p.d.text, p.d.base, p.flushed, done, p.pos, p.tb.tokens, p.tb.totalBytes, p.savedDist,
        p.savedLen, p.raw, forceStatic, p.pos - p.flushed <= p.dictSize, |bits0| + 1, base + |bits0|);
      SinceEarlier(b.block, p.d.text, start, p.d.base, p.flushed, done);
      RestartsPush(parts, restart, p.d.text, start, p.flushed, done, b);
    }
  }

  lemma BlockEmitted(start: seq<bool>, bits0: seq<bool>, bits: seq<bool>, b: Part, parts: seq<Part>, text: seq<nat>,
      flushed: nat, done: nat)
    requires flushed <= |text| && Emitted(start + bits0, parts, text[..flushed])
    requires EmittedBlock(bits0, bits, b, |start|, text, flushed, done)
    ensures done <= |text|
    ensures !b.final ==> Emitted(start + bits, parts + [b], text[..done])
    ensures b.final ==> Finished(start + bits, parts + [b], text[..done])
  {
    hide Emitted, Finished, PartBits, GoodBlock, GoodText, TextAfter;
    EmittedPush(start + bits0, parts, text[..flushed], b);
    assert start + bits0 + PartBits(b, |start + bits0|) == start + bits;
  }

  lemma OutputComplete(start: seq<bool>, bits: seq<bool>, output: seq<nat>, buffer: nat, parts: seq<Part>,
      text: seq<nat>, done: nat)
    requires done <= |text| && Finished(start + bits, parts, text[..done]) && |start| % 8 == 0
    requires ByteBits(output) + Bin(buffer, 0) == start + (bits + Bin(0, Pad(|bits|)))
    ensures CompleteOutput(output, parts, text, done)
  {
    hide Stream, GoodTexts, TextOf, Complete, ByteBits;
    PadShift(|start|, |bits|);
    NoBits0(ByteBits(output), buffer);
    assert start + bits + Bin(0, Pad(|bits|)) == start + (bits + Bin(0, Pad(|bits|)));
  }

  lemma NoBits0(s: seq<bool>, v: nat)
    ensures s + Bin(v, 0) == s
  {
  }

  /** The empty stored block of a sync flush. */
  method WriteEmptyStored(w: BitWriter)
    requires w.Valid() && |w.Written()| + EMPTY_BLOCK_BITS < 8 * w.capacity
    modifies w
    ensures w.Valid() && |w.Written()| < 8 * w.capacity && w.bitsIn == 0
    ensures w.Written()
         == old(w.Written()) + Bin(0, 3) + Bin(0, Pad(|old(w.Written())| + 3)) + Bin(0, 16) + Bin(0xFFFF, 16)
  {
    hide Bin, Pow2, Pad;
    WordRange();
    PadBound(|w.Written()| + 3);
    PutSome(w, 0, 3);
    Align(w);
    PutSome(w, 0, 16);
    PutSome(w, 0xFFFF, 16);
    ByteBitsLength(w.out);
  }

  lemma EmptyStored(p: nat, a: seq<bool>)
    ensures GoodBlock(Stored([]))
    ensures a + Bin(0, 3) + Bin(0, Pad(p + 3)) + Bin(0, 16) + Bin(0xFFFF, 16)
         == a + PartBits(Part(false, Stored([])), p)
  {
    StoredShape([], p + 1);
    var x, y, z := Bin(0, Pad(p + 3)), Bin(0, 16), Bin(0xFFFF, 16);
    assert Bin(0, 3) == [false] + Bin(0, 2);
    hide Bin, Pad, StoredBits;
    Assoc6(a, [false], Bin(0, 2), x, y, z);
  }

  lemma Assoc6(a: seq<bool>, b: seq<bool>, c: seq<bool>, d: seq<bool>, e: seq<bool>, f: seq<bool>)
    ensures a + (b + c) + d + e + f == a + (b + (c + (d + (e + (f + [])))))
  {
    Assoc5(a, b, c, d, e, f);
    assert f + [] == f;
    assert a + (b + c) == a + b + c;
  }

  lemma EmptyBlock(start: seq<bool>, bits: seq<bool>, bits': seq<bool>, parts: seq<Part>, text: seq<nat>)
    requires Emitted(start + bits, parts, text) && |start| % 8 == 0
    requires bits' == bits + Bin(0, 3) + Bin(0, Pad(|bits| + 3)) + Bin(0, 16) + Bin(0xFFFF, 16)
    ensures Emitted(start + bits', parts + [Part(false, Stored([]))], text)
  {
    hide Emitted, PartBits, Bin, Pad;
    var b := Part(false, Stored([]));
    PadShift(|start|, |bits| + 3);
    EmptyStored(|start + bits|, start + bits);
    EmittedPush(start + bits, parts, text, b);
    assert start + bits' == start + bits + Bin(0, 3) + Bin(0, Pad(|bits| + 3)) + Bin(0, 16) + Bin(0xFFFF, 16);
    assert TextAfter(b.block, text) == text;
  }

  lemma ParsedCovers(text: seq<nat>, flushed: nat, pos: nat, ts: seq<Token>, lit: nat, dist: nat, len: nat,
      lits: seq<nat>, dists: seq<nat>)
    requires Parsed(text, flushed, pos, ts, lit, dist, len) && Counted(lits, dists, ts)
    ensures Done(pos, len) >= 0 && Covers(text, flushed, Done(pos, len), ts, TotalLength(ts)) && AllWellFormed(ts)
  {
    ParsedFacts(text, flushed, pos, ts, lit, dist, len);
    hide TotalLength, Expand, Valid, IsMatch;
  }

  lemma NothingEmitted()
    ensures Emitted(ByteBits([]) + Bin(0, 0), [], []) && U32(0) == 0
  {
  }
}
