/** Three streams and the texts they are known to stand for, bit by bit: a stored block, a static block with the longest
    codes, and a dynamic block that uses every kind of run in its header. */
module KnownStreams {
  import opened Words
  import opened Sums
  import opened Bits
  import opened CanonicalCode
  import opened CodeLengthPacking
  import opened FixedCodes
  import opened InflateTable
  import opened InflateSpec
  import opened BitReader
  import opened LzTokens
  import opened LzBuffer
  import opened BlockWriter
  import opened DynamicHeader
  import opened DynamicBlock
  import opened DeflateBlock
  import opened DeflateStream
  import opened BodyText
  import opened StreamText

  const T := true
  const F := false

  /** Inflating gives this text, and is done, exactly if the buffer is large enough. */
  ghost predicate StandsFor(bits: seq<bool>, text: seq<nat>) {
    forall out: seq<nat> :: |out| >= |text| ==>
      var e := Inflated(Place(bits, out, 0)); e.status == Done && e.place.pos == |text| && e.place.out[..|text|] == text
  }

  lemma StreamStands(parts: seq<Part>, bits: seq<bool>, rest: seq<bool>, text: seq<nat>)
    requires GoodParts(parts) && Complete(parts) && GoodTexts(parts, []) && TextOf(parts, []) == text
    requires bits == Stream(parts, 0) + rest && |bits| % 8 == 0
    ensures StandsFor(bits, text)
  {
    hide GoodParts, Complete, GoodTexts, TextOf, Stream, Inflated;
    forall out: seq<nat> | |out| >= |text|
      ensures var e := Inflated(Place(bits, out, 0));
              e.status == Done && e.place.pos == |text| && e.place.out[..|text|] == text
    {
      assert out[..0] == [];
      StreamInflates(parts, 0, Place(bits, out, 0), rest);
    }
  }

  lemma SinglePart(b: Part, rest: seq<bool>)
    requires GoodBlock(b.block) && GoodText(b.block, []) && b.final
    ensures GoodParts([b]) && Complete([b]) && GoodTexts([b], []) && TextOf([b], []) == TextAfter(b.block, [])
    ensures Stream([b], 0) + rest == PartBits(b, 0) + rest
  {
    hide GoodBlock, GoodText, PartBits, TextAfter;
    assert [b][1..] == [];
    assert Stream([b], 0) == PartBits(b, 0) + [];
  }

  lemma ThreeBytes(a: nat, b: nat, c: nat)
    ensures ByteBits([a, b, c]) == Bin(a, 8) + (Bin(b, 8) + Bin(c, 8))
  {
    hide Bin;
    assert [a, b, c][1..] == [b, c] && [b, c][1..] == [c] && [c][1..] == [];
    assert ByteBits([c]) == Bin(c, 8) + [];
  }

  // ---------------------------------------------------------------- a stored block

  const STORED: seq<nat> := [0x01, 0x01, 0x00, 0xFE, 0xFF, 0x61]

  lemma FirstByte()
    ensures Bin(0x01, 8) == [T] + (Bin(0, 2) + Bin(0, 5)) && Bin(0, 5) == [F, F, F, F, F]
  {
    hide Bin;
    ByteNibbles(0x01);
    Nibbles();
    Zeros();
  }

  lemma Zeros()
    ensures Bin(0, 2) == [F, F] && Bin(0, 5) == [F, F, F, F, F]
  {
    assert Bin(0, 3) == [F, F, F];
  }

  /** A byte is its low half and then its high half. */
  lemma ByteNibbles(v: nat)
    requires v < 256
    ensures Bin(v, 8) == Bin(v % 16, 4) + Bin(v / 16, 4)
  {
    var s := Bin(v % 16, 4) + Bin(v / 16, 4);
    SmallPower();
    ValBin(v % 16, 4);
    ValBin(v / 16, 4);
    ValAppend(Bin(v % 16, 4), Bin(v / 16, 4));
    BinVal(s, 8);
  }

  lemma Nibbles()
    ensures Bin(0x0, 4) == [F, F, F, F] && Bin(0x1, 4) == [T, F, F, F] && Bin(0xB, 4) == [T, T, F, T]
    ensures Bin(0xF, 4) == [T, T, T, T]
  {
  }

  lemma LengthWords()
    ensures Bin(0x01, 16) == Bin(0x01, 8) + Bin(0x00, 8) && Bin(0xFFFE, 16) == Bin(0xFE, 8) + Bin(0xFF, 8)
  {
    hide Bin;
    TwoHalves(0x01);
    TwoHalves(0xFFFE);
  }

  lemma TwoHalves(v: nat)
    requires v <= 0xFFFF
    ensures Bin(v, 16) == Bin(v % 256, 8) + Bin(v / 256, 8)
  {
    var s := Bin(v % 256, 8) + Bin(v / 256, 8);
    ByteRange();
    WordPower();
    ValBin(v % 256, 8);
    ValBin(v / 256, 8);
    ValAppend(Bin(v % 256, 8), Bin(v / 256, 8));
    BinVal(s, 16);
  }

  lemma StoredBytes()
    ensures ByteBits(STORED)
         == Bin(0x01, 8) + (Bin(0x01, 8) + Bin(0x00, 8) + (Bin(0xFE, 8) + Bin(0xFF, 8) + Bin(0x61, 8)))
  {
    hide Bin;
    ThreeBytes(0xFE, 0xFF, 0x61);
    ThreeBytes(0x01, 0x01, 0x00);
    assert STORED == [0x01, 0x01, 0x00] + [0xFE, 0xFF, 0x61];
    ByteBitsJoin([0x01, 0x01, 0x00], [0xFE, 0xFF, 0x61]);
  }

  lemma {:induction false} ByteBitsJoin(a: seq<nat>, b: seq<nat>)
    ensures ByteBits(a + b) == ByteBits(a) + ByteBits(b)
  {
    hide Bin;
    if a == [] {
      assert a + b == b;
    } else {
      assert (a + b)[1..] == a[1..] + b;
      ByteBitsJoin(a[1..], b);
    }
  }

  lemma StoredStands()
    ensures StandsFor(ByteBits(STORED), [0x61])
  {
    hide Bin, ByteBits, StandsFor, Pad;
    var b := Part(true, Stored([0x61]));
    StoredShape([0x61], 1);
    NoPadding();
    FirstByte();
    LengthWords();
    StoredBytes();
    LastByteBits();
    SinglePart(b, []);
    assert PartBits(b, 0) == [T] + (Bin(0, 2) + (Bin(0, 5) + (Bin(1, 16) + (Bin(0xFFFE, 16) + Bin(0x61, 8)))));
    assert ByteBits(STORED) == PartBits(b, 0);
    ByteBitsLength(STORED);
    StreamStands([b], ByteBits(STORED), [], [0x61]);
  }

  lemma NoPadding()
    ensures Pad(3) == 5
  {
  }

  lemma LastByteBits()
    ensures ByteBits([0x61]) == Bin(0x61, 8)
  {
    hide Bin;
    assert [0x61][1..] == [];
    assert Bin(0x61, 8) + [] == Bin(0x61, 8);
  }

  // ---------------------------------------------------------------- a static block

  const STATIC: seq<nat> := [0xFB, 0x0F, 0x00]

  lemma StaticBytes()
    ensures Bin(0xFB, 8) == [T, T, F, T, T, T, T, T] && Bin(0x0F, 8) == [T, T, T, T, F, F, F, F]
    ensures Bin(0x00, 8) == [F, F, F, F, F, F, F, F]
  {
    hide Bin;
    Nibbles();
    ByteNibbles(0xFB);
    ByteNibbles(0x0F);
    ByteNibbles(0x00);
  }

  lemma StaticWords()
    ensures Word(FixedLit(), 255) == [T, T, T, T, T, T, T, T, T] && Word(FixedLit(), 256) == [F, F, F, F, F, F, F]
  {
    hide Msb, Word, FixedLit;
    FixedLitWord(255);
    FixedLitWord(256);
    LongestCode();
  }

  lemma LongestCode()
    ensures Msb(511, 9) == [T, T, T, T, T, T, T, T, T] && Msb(0, 7) == [F, F, F, F, F, F, F]
  {
    AllOnes();
    AllZeros();
    hide Msb;
    MsbStep(511, 9);
    MsbStep(255, 8);
    MsbStep(127, 7);
    MsbStep(63, 6);
    MsbStep(0, 7);
    MsbStep(0, 6);
    MsbStep(0, 5);
  }

  lemma AllOnes()
    ensures Msb(31, 5) == [T, T, T, T, T]
  {
  }

  lemma AllZeros()
    ensures Msb(0, 4) == [F, F, F, F]
  {
  }

  lemma MsbStep(c: nat, n: nat)
    requires n > 0
    ensures Msb(c, n) == Msb(c / 2, n - 1) + [c % 2 == 1]
  {
  }

  lemma StaticStands()
    ensures StandsFor(ByteBits(STATIC), [255])
  {
    hide Bin, ByteBits, StandsFor, Word, FixedLit, FixedDist, TokensBits, PartBits;
    var ts := [Literal(255)];
    var b := Part(true, Compressed(Fixed, ts));
    FixedTail(ts);
    OneLiteral();
    OneToken(FixedLit(), FixedDist(), Literal(255));
    SinglePart(b, [F, F, F, F, F]);
    StaticPart(b, ts);
    ByteBitsLength(STATIC);
    StreamStands([b], ByteBits(STATIC), [F, F, F, F, F], [255]);
  }

  lemma StaticPart(b: Part, ts: seq<Token>)
    requires Suitable(Fixed, ts) && b == Part(true, Compressed(Fixed, ts)) && ts == [Literal(255)]
    requires AllCoded(FixedLit(), FixedDist(), ts)
    requires TokensBits(FixedLit(), FixedDist(), ts) == Word(FixedLit(), 255)
    ensures GoodBlock(b.block) && ByteBits(STATIC) == PartBits(b, 0) + [F, F, F, F, F]
  {
    hide Bin, ByteBits, Word, FixedLit, FixedDist, TokensBits, Suitable, STATIC;
    FixedTail(ts);
    StaticWords();
    StaticBits();
    TypeBits();
    assert PartBits(b, 0) == [T] + ([T, F] + ([T, T, T, T, T, T, T, T, T] + [F, F, F, F, F, F, F]));
  }

  lemma StaticBits()
    ensures ByteBits(STATIC)
         == [T] + ([T, F] + ([T, T, T, T, T, T, T, T, T] + [F, F, F, F, F, F, F])) + [F, F, F, F, F]
  {
    hide Bin, ByteBits;
    StaticBytes();
    ThreeBytes(0xFB, 0x0F, 0x00);
  }

  lemma TypeBits()
    ensures Bin(1, 2) == [T, F] && Bin(2, 2) == [F, T]
  {
  }

  lemma OneLiteral()
    ensures Valid([Literal(255)], []) && Expand([Literal(255)], []) == [255]
  {
    assert [Literal(255)] == [] + [Literal(255)];
    PushToken([], Literal(255), []);
  }

  lemma OneToken(l: seq<nat>, d: seq<nat>, t: Token)
    requires AllCoded(l, d, [t])
    ensures Coded(l, d, t) && TokensBits(l, d, [t]) == TokenBits(l, d, t)
  {
    assert [t][0] == t;
    hide TokenBits, Coded;
    NoTokens(l, d);
    assert [t] == [] + [t];
    TokensBitsPush(l, d, [], t);
  }

  // ---------------------------------------------------------------- blocks that are refused

  lemma TypeOf(f: bool, t: nat, rest: seq<bool>)
    requires t < 4
    ensures var bits := [f] + Bin(t, 2) + rest; |bits| >= 3 && TypeAt(bits) == t && bits[3..] == rest
  {
    hide Bin, Val;
    StreamText.ThreeBits(f, t);
    assert ([f] + Bin(t, 2) + rest)[..3] == [f] + Bin(t, 2);
  }

  /** There is no block of type 3. */
  lemma ReservedTypeFails(f: bool, rest: seq<bool>, out: seq<nat>)
    ensures Inflated(Place([f] + Bin(3, 2) + rest, out, 0)) == End(Failed, Place(rest, out, 0))
  {
    hide Bin, Val, TypeAt;
    TypeOf(f, 3, rest);
  }

  lemma LengthsDiffer(p: Place, pad: seq<bool>, n: nat, m: nat, rest: seq<bool>)
    requires n <= 0xFFFF && m <= 0xFFFF && n + m != 0xFFFF && |pad| == 5 && |rest| % 8 == 0 && p.pos <= |p.out|
    requires p.bits == pad + (Bin(n, 16) + (Bin(m, 16) + rest))
    ensures StoredEnd(p) == End(Failed, p)
  {
    hide Bin, Val, Pow2, BytesEnd;
    var tail := Bin(m, 16) + rest;
    WordPower();
    NumberFirst(n, 16, tail);
    NumberFirst(m, 16, rest);
    var b := p.bits[|p.bits| % 8..];
    assert b == Bin(n, 16) + tail;
    assert b[..16] == Bin(n, 16) && b[16..32] == tail[..16];
  }

  /** The length of a stored block has to agree with its complement. */
  lemma WrongLengthFails(f: bool, pad: seq<bool>, n: nat, m: nat, rest: seq<bool>, out: seq<nat>)
    requires n <= 0xFFFF && m <= 0xFFFF && n + m != 0xFFFF && |pad| == 5 && |rest| % 8 == 0
    ensures var bits := [f] + Bin(0, 2) + (pad + (Bin(n, 16) + (Bin(m, 16) + rest)));
            Inflated(Place(bits, out, 0)) == End(Failed, Place(bits[3..], out, 0))
  {
    hide Bin, Val, TypeAt, StoredEnd;
    var body := pad + (Bin(n, 16) + (Bin(m, 16) + rest));
    TypeOf(f, 0, body);
    LengthsDiffer(Place(body, out, 0), pad, n, m, rest);
  }
}
