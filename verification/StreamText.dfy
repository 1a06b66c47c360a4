/** Inflating a stream gives the text of its blocks. */
module StreamText {
  import opened Words
  import opened Sums
  import opened Bits
  import opened CanonicalCode
  import opened CodeLengthPacking
  import opened FixedCodes
  import opened InflateTable
  import opened InflateDecode
  import opened InflateSpec
  import opened BitReader
  import opened LzTokens
  import opened LzBuffer
  import opened BlockWriter
  import opened DynamicHeader
  import opened DynamicBlock
  import opened DeflateBlock
  import opened DeflateStream
  import opened BodyText

  // ---------------------------------------------------------------- the header of a dynamic block

  /** The code sizes read so far are those of the header. */
  ghost predicate SizesRead(code: seq<nat>, sz: seq<nat>, k: nat) {
    |code| == |sz| == 19 && forall s :: 0 <= s < 19 ==> code[s] == if Unswizzle(s) < k then sz[s] else 0
  }

  lemma SizesReadNext(code: seq<nat>, sz: seq<nat>, k: nat)
    requires SizesRead(code, sz, k) && k < 19
    ensures 0 <= SWIZZLE[k] < 19 && SizesRead(code[SWIZZLE[k] := sz[SWIZZLE[k]]], sz, k + 1)
  {
    SwizzleRange(k);
    hide SWIZZLE;
  }

  lemma {:induction false} LengthSizesInflate(sz: seq<nat>, code: seq<nat>, k: nat, n: nat, tail: seq<bool>)
    requires |sz| == 19 && k <= n <= 19 && Below8(sz) && SizesRead(code, sz, k)
    ensures var r := LengthSizesAt(LengthSizesBits(sz, k, n) + tail, code, k, n);
            r.SizeList? && SizesRead(r.sizes, sz, n) && r.rest == tail
    decreases n - k
  {
    hide SizesRead, Bin, Val, SWIZZLE, Pow2;
    SizesReadLength(code, sz, k);
    if k < n {
      SwizzleRange(k);
      var v, t := sz[SWIZZLE[k]], LengthSizesBits(sz, k + 1, n) + tail;
      assert LengthSizesBits(sz, k, n) + tail == Bin(v, 3) + t;
      NumberFirst(v, 3, t);
      SmallPower();
      SizesReadNext(code, sz, k);
      LengthSizesInflate(sz, code[SWIZZLE[k] := v], k + 1, n, tail);
    } else {
      assert LengthSizesBits(sz, k, n) + tail == tail;
    }
  }

  lemma SizesReadLength(code: seq<nat>, sz: seq<nat>, k: nat)
    requires SizesRead(code, sz, k)
    ensures |code| == |sz| == 19
  {
  }

  /** One operation of the packed sizes is read back. */
  lemma OpInflates(code: seq<nat>, op: Op, before: seq<nat>, tail: seq<bool>)
    requires Accepted(code) && ValidOp(op, before) && Sym(op) < |code| && code[Sym(op)] > 0
    ensures MoreSizes(code, OpBits(code, op) + tail, before) == SizeList(ApplyOp(before, op), tail)
  {
    hide Accepted, Word, CodeAt, Bin, Val, Repeat, Pow2;
    ExtraFits(op, before);
    var x, n := Extra(op), ExtraBits(Sym(op));
    var w, b := Word(code, Sym(op)), Bin(x, n);
    assert OpBits(code, op) + tail == w + (b + tail);
    SymbolFirst(code, Sym(op), b + tail);
    NumberFirst(x, n, tail);
    SmallMod(x, Pow2(n));
    if op.Size? {
      assert b + tail == tail;
    }
  }

  lemma SmallMod(x: nat, m: nat)
    requires x < m
    ensures x % m == x
  {
  }

  lemma {:induction false} UnpackedGrows(ops: seq<Op>, k: nat)
    requires ValidOps(ops) && k <= |ops|
    ensures ValidOps(ops[..k]) && |Unpacked(ops[..k])| + (|ops| - k) <= |Unpacked(ops)|
    decreases |ops|
  {
    if k < |ops| {
      UnpackedGrows(ops[..|ops| - 1], k);
      assert ops[..|ops| - 1][..k] == ops[..k];
    } else {
      assert ops[..k] == ops;
    }
  }

  lemma CodedFrom(code: seq<nat>, ops: seq<Op>, k: nat)
    requires CodedOps(code, ops) && k <= |ops|
    ensures CodedOps(code, ops[k..]) && (k < |ops| ==> Sym(ops[k]) < |code| && code[Sym(ops[k])] > 0)
  {
  }

  /** Operation k comes next. */
  lemma NextBits(code: seq<nat>, ops: seq<Op>, k: nat, tail: seq<bool>)
    requires CodedOps(code, ops) && k < |ops|
    ensures CodedOps(code, ops[k..]) && CodedOps(code, ops[k + 1..]) && Sym(ops[k]) < |code| && code[Sym(ops[k])] > 0
    ensures OpsBits(code, ops[k..]) + tail == OpBits(code, ops[k]) + (OpsBits(code, ops[k + 1..]) + tail)
  {
    CodedFrom(code, ops, k);
    CodedFrom(code, ops, k + 1);
    hide *;
    assert ops[k..][1..] == ops[k + 1..] && ops[k..][0] == ops[k];
    FirstBits(code, ops[k..]);
    Associate(OpBits(code, ops[k]), OpsBits(code, ops[k + 1..]), tail);
  }

  lemma FirstBits(code: seq<nat>, ops: seq<Op>)
    requires CodedOps(code, ops) && ops != [] && Sym(ops[0]) < |code| && CodedOps(code, ops[1..])
    ensures OpsBits(code, ops) == OpBits(code, ops[0]) + OpsBits(code, ops[1..])
  {
    hide OpBits, CodedOps;
  }

  lemma Associate(a: seq<bool>, b: seq<bool>, c: seq<bool>)
    ensures a + b + c == a + (b + c)
  {
  }

  lemma NextSizes(ops: seq<Op>, k: nat)
    requires ValidOps(ops) && k < |ops|
    ensures ValidOp(ops[k], Unpacked(ops[..k])) && Unpacked(ops[..k + 1]) == ApplyOp(Unpacked(ops[..k]), ops[k])
  {
    hide Unpacked, ValidOps, ValidOp, ApplyOp;
    UnpackedGrows(ops, k + 1);
    assert ops[..k + 1] == ops[..k] + [ops[k]];
    PushOp(ops[..k], ops[k]);
  }

  lemma {:induction false} OpsInflate(code: seq<nat>, ops: seq<Op>, k: nat, tail: seq<bool>)
    requires Accepted(code) && ValidOps(ops) && CodedOps(code, ops) && k <= |ops|
    ensures CodedOps(code, ops[k..])
    ensures CodeSizesAt(code, OpsBits(code, ops[k..]) + tail, Unpacked(ops[..k]), |Unpacked(ops)|)
         == SizeList(Unpacked(ops), tail)
    decreases |ops| - k
  {
    hide Accepted, MoreSizes, OpBits, OpsBits, CodedOps, Unpacked, ValidOps, ValidOp, ApplyOp;
    UnpackedGrows(ops, k);
    CodedFrom(code, ops, k);
    if k < |ops| {
      NextBits(code, ops, k, tail);
      NextSizes(ops, k);
      OpInflates(code, ops[k], Unpacked(ops[..k]), OpsBits(code, ops[k + 1..]) + tail);
      OpsInflate(code, ops, k + 1, tail);
    } else {
      assert ops[..k] == ops && ops[k..] == [];
      NoOps(code, tail);
    }
  }

  lemma NoOps(code: seq<nat>, tail: seq<bool>)
    ensures CodedOps(code, []) && OpsBits(code, []) + tail == tail
  {
  }

  lemma CountsInflate(a: nat, b: nat, c: nat, tail: seq<bool>)
    requires a < 32 && b < 32 && c < 16
    ensures var bits := Bin(a, 5) + (Bin(b, 5) + (Bin(c, 4) + tail));
            && |bits| >= 14 && NumLit(bits) == 257 + a && NumDist(bits) == 1 + b && NumLengths(bits) == 4 + c
            && bits[14..] == tail
  {
    hide Bin, Val, Pow2;
    SmallPower();
    var t1 := Bin(c, 4) + tail;
    var t0 := Bin(b, 5) + t1;
    var bits := Bin(a, 5) + t0;
    NumberFirst(a, 5, t0);
    NumberFirst(b, 5, t1);
    NumberFirst(c, 4, tail);
    Slices(bits, 5, 5, 0);
    Slices(bits, 10, 4, 0);
  }

  lemma SizesComplete(code: seq<nat>, h: Header)
    requires ValidHeader(h) && SizesRead(code, h.sizes, h.numLengths)
    ensures code == h.sizes && Accepted(code)
  {
    hide Accepted, OpsBits, CodedOps, ValidOps, Unpacked;
    assert forall s :: 0 <= s < 19 ==> code[s] == h.sizes[s];
  }

  lemma HeaderShape(h: Header, rest: seq<bool>)
    requires ValidHeader(h)
    ensures HeaderBits(h) + rest == Bin(h.numLit - 257, 5) + (Bin(h.numDist - 1, 5) + (Bin(h.numLengths - 4, 4) +
                (LengthSizesBits(h.sizes, 0, h.numLengths) + (OpsBits(h.sizes, h.ops) + rest))))
  {
    hide Bin, LengthSizesBits, OpsBits, Accepted, Unpacked, ValidOps, CodedOps;
    Regroup5(Bin(h.numLit - 257, 5), Bin(h.numDist - 1, 5), Bin(h.numLengths - 4, 4),
      LengthSizesBits(h.sizes, 0, h.numLengths), OpsBits(h.sizes, h.ops), rest);
  }

  lemma Regroup5(a: seq<bool>, b: seq<bool>, c: seq<bool>, d: seq<bool>, e: seq<bool>, rest: seq<bool>)
    ensures a + b + c + d + e + rest == a + (b + (c + (d + (e + rest))))
  {
    assert d + e + rest == d + (e + rest);
    assert a + b + c + (d + e + rest) == a + (b + (c + (d + e + rest)));
  }

  lemma NothingRead(sz: seq<nat>)
    requires |sz| == 19
    ensures SizesRead(Repeat(0, 19), sz, 0)
  {
  }

  /** Every header the compressor can write is read back: the sizes it describes, and what follows it. */
  lemma HeaderInflates(h: Header, rest: seq<bool>)
    requires ValidHeader(h)
    ensures HeaderAt(HeaderBits(h) + rest) == Codes(Unpacked(h.ops)[..h.numLit], Unpacked(h.ops)[h.numLit..], rest)
  {
    hide Bin, LengthSizesBits, OpsBits, Accepted, Unpacked, ValidOps, CodedOps, LengthSizesAt, CodeSizesAt, SizesRead,
      HeaderBits, NumLit, NumDist, NumLengths, Repeat, Unswizzle;
    var ops := OpsBits(h.sizes, h.ops) + rest;
    HeaderShape(h, rest);
    HeaderRanges(h);
    CountsInflate(h.numLit - 257, h.numDist - 1, h.numLengths - 4, LengthSizesBits(h.sizes, 0, h.numLengths) + ops);
    NothingRead(h.sizes);
    LengthSizesInflate(h.sizes, Repeat(0, 19), 0, h.numLengths, ops);
    var code := LengthSizesAt(LengthSizesBits(h.sizes, 0, h.numLengths) + ops, Repeat(0, 19), 0, h.numLengths);
    SizesComplete(code.sizes, h);
    OpsInflate(h.sizes, h.ops, 0, rest);
    assert h.ops[0..] == h.ops && h.ops[..0] == [];
    NoSizesYet();
  }

  lemma NoSizesYet()
    ensures Unpacked([]) == []
  {
  }

  // ---------------------------------------------------------------- one block

  ghost function TypeNumber(b: Block): (t: nat)
    ensures t <= 2
  {
    match b
    case Compressed(c, ts) => if c.Fixed? then 1 else 2
    case Stored(bytes) => 0
  }

  /** A block after its type. */
  ghost function BlockRest(b: Block, p: nat): seq<bool>
    requires GoodBlock(b)
  {
    match b
    case Compressed(c, ts) => BlockBits(c, ts)[2..]
    case Stored(bytes) => StoredBits(bytes, p)[2..]
  }

  lemma FixedTail(ts: seq<Token>)
    requires Suitable(Fixed, ts)
    ensures AllCoded(FixedLit(), FixedDist(), ts) && GoodCodes(FixedLit(), FixedDist())
    ensures BlockBits(Fixed, ts) == Bin(1, 2) + BodyBits(FixedLit(), FixedDist(), ts)
    ensures BlockBits(Fixed, ts)[2..] == BodyBits(FixedLit(), FixedDist(), ts)
  {
    hide BodyBits, FixedLit, FixedDist, Bin, Accepted, AllWellFormed;
    assert AllWellFormed(ts);
    FixedExpresses(ts);
    ExpressesSizes(FixedLit(), FixedDist(), ts);
  }

  lemma DynamicTail(c: Coding, ts: seq<Token>)
    requires Suitable(c, ts) && c.Dynamic?
    ensures Expresses(c.l, c.d, ts) && Describes(c.h, c.l, c.d) && ValidHeader(c.h)
    ensures BlockBits(c, ts) == Bin(2, 2) + (HeaderBits(c.h) + BodyBits(c.l, c.d, ts))
    ensures BlockBits(c, ts)[2..] == HeaderBits(c.h) + BodyBits(c.l, c.d, ts)
  {
    hide BodyBits, HeaderBits, Bin;
    assert BlockBits(c, ts) == Bin(2, 2) + HeaderBits(c.h) + BodyBits(c.l, c.d, ts);
  }

  /** What the decoder learns from a header is enough for the tokens of the block. */
  lemma DecoderView(h: Header, l: seq<nat>, d: seq<nat>, ts: seq<Token>)
    requires Expresses(l, d, ts) && Describes(h, l, d)
    ensures ValidHeader(h)
    ensures var l', d' := Unpacked(h.ops)[..h.numLit], Unpacked(h.ops)[h.numLit..];
            AllCoded(l', d', ts) && GoodCodes(l', d') && BodyBits(l', d', ts) == BodyBits(l, d, ts)
  {
    hide BodyBits, AllCoded, Accepted, CanonicalCode.Sizes, ValidHeader, Unused;
    HeaderRanges(h);
    TrimBody(l, d, h.numLit, h.numDist, ts);
    var u := Unpacked(h.ops);
    assert u[..h.numLit] == l[..h.numLit] && u[h.numLit..] == d[..h.numDist];
  }

  lemma CompressedInflates(c: Coding, ts: seq<Token>, p: Place, rest: seq<bool>)
    requires Suitable(c, ts) && p.pos <= |p.out| && Valid(ts, p.out[..p.pos])
    requires p.bits == BlockBits(c, ts)[2..] + rest
    ensures Yields(BlockEnd(if c.Fixed? then 1 else 2, p), Expand(ts, p.out[..p.pos]), rest)
  {
    hide Valid, Expand, Yields, BlockBits, BodyBits, HeaderBits, ValidHeader, Describes, Expresses, AllCoded, FixedLit,
      FixedDist, Accepted, BodyEnd, HeaderAt, GoodCodes, Suitable;
    if c.Fixed? {
      FixedTail(ts);
      BodyInflates(FixedLit(), FixedDist(), ts, p, rest);
    } else {
      DynamicTail(c, ts);
      DecoderView(c.h, c.l, c.d, ts);
      HeaderRanges(c.h);
      ExpressesSizes(c.l, c.d, ts);
      var l, d := Unpacked(c.h.ops)[..c.h.numLit], Unpacked(c.h.ops)[c.h.numLit..];
      var body := BodyBits(c.l, c.d, ts) + rest;
      assert p.bits == HeaderBits(c.h) + body;
      HeaderInflates(c.h, body);
      BodyInflates(l, d, ts, Place(body, p.out, p.pos), rest);
    }
  }

  lemma {:induction false} BytesInflate(bytes: seq<nat>, p: Place, rest: seq<bool>)
    requires AllBytes(bytes) && p.pos <= |p.out| && p.bits == ByteBits(bytes) + rest
    ensures Yields(BytesEnd(p, |bytes|), p.out[..p.pos] + bytes, rest)
    decreases |bytes|
  {
    hide Bin, Val, Pow2;
    if bytes != [] {
      var t := ByteBits(bytes[1..]) + rest;
      assert p.bits == Bin(bytes[0], 8) + t;
      NumberFirst(bytes[0], 8, t);
      ByteRange();
      if p.pos < |p.out| {
        var q := Place(t, p.out[p.pos := bytes[0]], p.pos + 1);
        BytesInflate(bytes[1..], q, rest);
        assert q.out[..q.pos] + bytes[1..] == p.out[..p.pos] + bytes;
      } else {
        assert (p.out[..p.pos] + bytes)[..|p.out|] == p.out;
      }
    } else {
      assert ByteBits([]) + rest == rest && p.out[..p.pos] + [] == p.out[..p.pos];
    }
  }

  lemma StoredParts(bytes: seq<nat>, p: nat, rest: seq<bool>)
    requires |bytes| <= 0xFFFF
    ensures StoredBits(bytes, p)[2..] + rest
         == Bin(0, Pad(p + 2)) + (Bin(|bytes|, 16) + (Bin(0xFFFF - |bytes|, 16) + (ByteBits(bytes) + rest)))
  {
    hide *;
    var t, a, b, c, d := Bin(0, 2), Bin(0, Pad(p + 2)), Bin(|bytes|, 16), Bin(0xFFFF - |bytes|, 16), ByteBits(bytes);
    StoredShape(bytes, p);
    assert (t + (a + (b + (c + d))))[2..] == a + (b + (c + d));
    Assoc(a, b, c, d, rest);
  }

  lemma Assoc(a: seq<bool>, b: seq<bool>, c: seq<bool>, d: seq<bool>, e: seq<bool>)
    ensures a + (b + (c + d)) + e == a + (b + (c + (d + e)))
  {
    assert c + d + e == c + (d + e);
    assert b + (c + d) + e == b + (c + (d + e));
  }

  /** The padding is what is left of the byte. */
  lemma PadIs(p: nat, k: nat)
    requires (p + k) % 8 == 0
    ensures k % 8 == Pad(p)
  {
  }

  lemma WordPower()
    ensures Pow2(16) == 0x10000
  {
    assert Pow2(5) == 32 && Pow2(10) == 1024 && Pow2(15) == 0x8000;
  }

  lemma StoredInflates(bytes: seq<nat>, at: nat, p: Place, rest: seq<bool>)
    requires |bytes| <= 0xFFFF && AllBytes(bytes) && p.pos <= |p.out|
    requires p.bits == StoredBits(bytes, at)[2..] + rest && (at + 2 + |p.bits|) % 8 == 0
    ensures Yields(StoredEnd(p), p.out[..p.pos] + bytes, rest)
  {
    hide Yields, StoredBits, ByteBits, Bin, Val, Pow2, Pad, BytesEnd, AllBytes;
    var n, body := |bytes|, ByteBits(bytes) + rest;
    var tail := Bin(0xFFFF - n, 16) + body;
    var b := p.bits[|p.bits| % 8..];
    StoredParts(bytes, at, rest);
    PadIs(at + 2, |p.bits|);
    assert b == Bin(n, 16) + tail;
    WordPower();
    NumberFirst(n, 16, tail);
    NumberFirst(0xFFFF - n, 16, body);
    assert b[16..32] == b[16..][..16] && b[32..] == b[16..][16..];
    BytesInflate(bytes, Place(body, p.out, p.pos), rest);
  }

  /** Inflating one block appends its text. */
  lemma BlockInflates(b: Block, at: nat, p: Place, rest: seq<bool>)
    requires GoodBlock(b) && p.pos <= |p.out| && GoodText(b, p.out[..p.pos])
    requires p.bits == BlockRest(b, at) + rest && (at + 2 + |p.bits|) % 8 == 0
    ensures Yields(BlockEnd(TypeNumber(b), p), TextAfter(b, p.out[..p.pos]), rest)
  {
    hide Valid, Expand, Yields, StoredBits, BlockBits, Suitable, AllBytes, StoredEnd, CodesOf, BodyEnd;
    match b
    case Compressed(c, ts) => CompressedInflates(c, ts, p, rest);
    case Stored(bytes) => StoredInflates(bytes, at, p, rest);
  }

  // ---------------------------------------------------------------- all blocks

  lemma PartShape(b: Part, p: nat)
    requires GoodBlock(b.block)
    ensures PartBits(b, p) == [b.final] + (Bin(TypeNumber(b.block), 2) + BlockRest(b.block, p + 1))
  {
    hide Bin, Pad, ByteBits, BlockBits, Suitable, BodyBits, HeaderBits, FixedLit, FixedDist, Describes, Expresses;
    match b.block
    case Compressed(c, ts) =>
      if c.Fixed? {
        FixedTail(ts);
      } else {
        DynamicTail(c, ts);
      }
    case Stored(bytes) =>
      StoredShape(bytes, p + 1);
      assert StoredBits(bytes, p + 1) == Bin(0, 2) + StoredBits(bytes, p + 1)[2..];
  }

  lemma ThreeBits(f: bool, t: nat)
    requires t < 4
    ensures Val([f] + Bin(t, 2)) == B(f) + 2 * t
  {
    assert Pow2(2) == 4;
    ValBin(t, 2);
    assert ([f] + Bin(t, 2))[1..] == Bin(t, 2);
  }

  /** The bits of a part tell whether it is the last and of which type. */
  lemma PartStarts(b: Part, at: nat, rest: seq<bool>)
    requires GoodBlock(b.block)
    ensures var bits := PartBits(b, at) + rest;
            && |bits| >= 3 && FinalAt(bits) == b.final && TypeAt(bits) == TypeNumber(b.block)
            && bits[3..] == BlockRest(b.block, at + 1) + rest
  {
    hide Bin, Val, PartBits, BlockRest, GoodBlock;
    PartShape(b, at);
    ThreeBits(b.final, TypeNumber(b.block));
    var three, tail := [b.final] + Bin(TypeNumber(b.block), 2), BlockRest(b.block, at + 1);
    assert PartBits(b, at) + rest == three + (tail + rest);
    assert (PartBits(b, at) + rest)[..3] == three;
  }

  lemma FirstPart(bs: seq<Part>, at: nat, rest: seq<bool>)
    requires GoodParts(bs) && bs != []
    ensures GoodBlock(bs[0].block) && GoodParts(bs[1..])
    ensures Stream(bs, at) + rest == PartBits(bs[0], at) + (Stream(bs[1..], at + |PartBits(bs[0], at)|) + rest)
  {
    hide PartBits, GoodBlock;
  }

  lemma LaterText(bs: seq<Part>, before: seq<nat>)
    requires bs != [] && GoodTexts(bs, before)
    ensures GoodText(bs[0].block, before) && TextAfter(bs[0].block, before) <= TextOf(bs, before)
    ensures GoodTexts(bs[1..], TextAfter(bs[0].block, before))
    ensures TextOf(bs, before) == TextOf(bs[1..], TextAfter(bs[0].block, before))
    ensures |bs| == 1 ==> TextOf(bs, before) == TextAfter(bs[0].block, before)
  {
    hide TextAfter, GoodText;
    TextGrows(bs[1..], TextAfter(bs[0].block, before));
  }

  /** A text that does not fit fills the buffer, whatever would follow it. */
  lemma Longer(e: End, text: seq<nat>, rest: seq<bool>, text': seq<nat>, rest': seq<bool>)
    requires Yields(e, text, rest) && text <= text' && |text| > |e.place.out|
    ensures Yields(e, text', rest')
  {
  }

  lemma Yielded(e: End, text: seq<nat>, rest: seq<bool>, n: nat)
    requires Yields(e, text, rest) && |e.place.out| == n
    ensures if |text| <= n then e == End(Done, Place(rest, e.place.out, |text|)) && e.place.out[..|text|] == text
            else e.status == HasMoreOutput
  {
  }

  lemma OnePart(bs: seq<Part>)
    requires Complete(bs)
    ensures bs != [] && (bs[0].final <==> |bs| == 1)
    ensures |bs| > 1 ==> Complete(bs[1..])
  {
  }

  /** Inflating a complete stream that is followed by anything gives the text of its blocks and leaves what follows; a
      buffer that is too small receives the beginning of the text. */
  lemma {:induction false} StreamInflates(bs: seq<Part>, at: nat, p: Place, rest: seq<bool>)
    requires GoodParts(bs) && Complete(bs) && p.pos <= |p.out| && GoodTexts(bs, p.out[..p.pos])
    requires p.bits == Stream(bs, at) + rest && (at + |p.bits|) % 8 == 0
    ensures Yields(Inflated(p), TextOf(bs, p.out[..p.pos]), rest)
    decreases |bs|
  {
    hide GoodBlock, GoodText, TextAfter, GoodTexts, TextOf, Stream, PartBits, BlockRest, BlockEnd, Complete, Yields,
      TypeAt, FinalAt, TypeNumber;
    OnePart(bs);
    var b, before := bs[0], p.out[..p.pos];
    var at' := at + |PartBits(b, at)|;
    var tail := Stream(bs[1..], at') + rest;
    FirstPart(bs, at, rest);
    PartStarts(b, at, tail);
    LaterText(bs, before);
    var q := Contents(p);
    BlockInflates(b.block, at + 1, q, tail);
    var e, text := BlockEnd(TypeAt(p.bits), q), TextAfter(b.block, before);
    Yielded(e, text, tail, |p.out|);
    if |text| > |p.out| {
      Longer(e, text, tail, TextOf(bs, before), rest);
    } else if |bs| == 1 {
      LastTail(bs[1..], at', rest);
    } else {
      StreamInflates(bs[1..], at', e.place, rest);
    }
  }

  lemma LastTail(bs: seq<Part>, at: nat, rest: seq<bool>)
    requires bs == []
    ensures GoodParts(bs) && Stream(bs, at) + rest == rest
  {
  }

  /** Inflating blocks of which none is the last gives their text too, and then asks for more input. */
  lemma {:induction false} PrefixInflates(bs: seq<Part>, at: nat, p: Place)
    requires GoodParts(bs) && (forall i :: 0 <= i < |bs| ==> !bs[i].final) && p.pos <= |p.out|
    requires GoodTexts(bs, p.out[..p.pos]) && p.bits == Stream(bs, at) && (at + |p.bits|) % 8 == 0
    requires |TextOf(bs, p.out[..p.pos])| <= |p.out|
    ensures var e, text := Inflated(p), TextOf(bs, p.out[..p.pos]);
            e.status == NeedsInput && e.place.pos == |text| && e.place.out[..|text|] == text
    decreases |bs|
  {
    hide GoodBlock, GoodText, TextAfter, GoodTexts, TextOf, Stream, PartBits, BlockRest, BlockEnd, Yields, TypeAt,
      FinalAt, TypeNumber;
    var before := p.out[..p.pos];
    if bs == [] {
      NoParts(at, before);
    } else {
      var b := bs[0];
      var at' := at + |PartBits(b, at)|;
      var tail := Stream(bs[1..], at');
      FirstPart(bs, at, []);
      assert tail + [] == tail && Stream(bs, at) + [] == Stream(bs, at);
      PartStarts(b, at, tail);
      LaterText(bs, before);
      var q := Contents(p);
      BlockInflates(b.block, at + 1, q, tail);
      var e, text := BlockEnd(TypeAt(p.bits), q), TextAfter(b.block, before);
      Yielded(e, text, tail, |p.out|);
      PrefixInflates(bs[1..], at', e.place);
    }
  }

  lemma NoParts(at: nat, before: seq<nat>)
    ensures Stream([], at) == [] && TextOf([], before) == before
  {
  }
}
