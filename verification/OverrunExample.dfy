/** Three bytes that lead the decompressor out of a short output buffer. */
module OverrunExample {
  import opened Bits
  import opened CanonicalCode
  import opened FixedCodes
  import opened InflateTable
  import opened InflateDecode
  import opened InflateSpec
  import opened BitReader
  import opened BodyText

  /** A last block with fixed codes: the literal 'a', length symbol 286, distance symbol 0; then the input ends. */
  const INPUT: seq<nat> := [0x4B, 0x1C, 0x03]

  const T := true
  const F := false

  lemma FirstByte()
    ensures Bin(0x4B, 8) == [T, T, F, T, F, F, T, F]
  {
    assert Bin(0x4, 4) == [F, F, T, F];
  }

  lemma SecondByte()
    ensures Bin(0x1C, 8) == [F, F, T, T, T, F, F, F]
  {
    assert Bin(0x1, 4) == [T, F, F, F];
  }

  lemma ThirdByte()
    ensures Bin(0x03, 8) == [T, T, F, F, F, F, F, F]
  {
    assert Bin(0, 4) == [F, F, F, F];
  }

  lemma CodeOfA()
    ensures Msb(145, 8) == [T, F, F, T, F, F, F, T]
  {
    assert Msb(9, 4) == [T, F, F, T];
  }

  lemma CodeOf286()
    ensures Msb(198, 8) == [T, T, F, F, F, T, T, F]
  {
    assert Msb(12, 4) == [T, T, F, F];
  }

  lemma Words()
    ensures Word(FixedLit(), 97) == [T, F, F, T, F, F, F, T]
    ensures Word(FixedLit(), 286) == [T, T, F, F, F, T, T, F]
    ensures Word(FixedDist(), 0) == [F, F, F, F, F]
  {
    hide Msb, Word, FixedLit, FixedDist;
    FixedLitWord(97);
    FixedLitWord(286);
    FixedDistWord(0);
    CodeOfA();
    CodeOf286();
    CodeOfZero();
  }

  lemma CodeOfZero()
    ensures Msb(0, 5) == [F, F, F, F, F]
  {
  }

  /** The block after its type. */
  ghost function Body(): seq<bool> {
    Word(FixedLit(), 97) + (Word(FixedLit(), 286) + (Word(FixedDist(), 0) + []))
  }

  lemma Input()
    ensures |ByteBits(INPUT)| == 24 && ByteBits(INPUT)[..3] == [T, T, F] && ByteBits(INPUT)[3..] == Body()
  {
    hide Bin, Word;
    FirstByte();
    SecondByte();
    ThirdByte();
    Words();
    assert INPUT[1..] == [0x1C, 0x03] && INPUT[1..][1..] == [0x03] && [0x03][1..] == [];
    assert ByteBits(INPUT) == Bin(0x4B, 8) + (Bin(0x1C, 8) + (Bin(0x03, 8) + []));
  }

  lemma FixedGood()
    ensures GoodCodes(FixedLit(), FixedDist()) && FixedLit()[97] > 0 && FixedLit()[286] > 0 && FixedDist()[0] > 0
  {
    hide First;
    FixedFull();
  }

  /** The two steps of the body. */
  lemma Steps(l: seq<nat>, d: seq<nat>)
    requires l == FixedLit() && d == FixedDist()
    ensures GoodCodes(l, d)
    ensures var tail := Word(l, 286) + (Word(d, 0) + []);
            && NextStep(l, d, Body()) == PutByte(97, tail) && NextStep(l, d, tail) == CopyBack(286, 0, 1, [])
            && NextStep(l, d, []) == NoStep
  {
    hide Word, CodeAt, Accepted, First, FixedLit, FixedDist;
    FixedGood();
    SymbolFirst(l, 97, Word(l, 286) + (Word(d, 0) + []));
    SymbolFirst(l, 286, Word(d, 0) + []);
    SymbolFirst(d, 0, []);
    NothingThere(l);
    NothingRead(Word(d, 0) + []);
    NothingRead([]);
    Bases();
  }

  lemma Bases()
    ensures LengthBase(286) == 0 && LengthExtra(286) == 0 && DistanceBase(0) == 1 && DistanceExtra(0) == 0
  {
  }

  lemma NothingRead(bits: seq<bool>)
    ensures Val(bits[..0]) == 0 && bits[0..] == bits
  {
  }

  lemma NothingThere(l: seq<nat>)
    ensures CodeAt(l, []) == NoCode
  {
    forall s: nat ensures !Starts(l, s, []) {
      if Starts(l, s, []) {
        WordSize(l, s);
      }
    }
  }

  lemma TypeIsFixed(bits: seq<bool>)
    requires |bits| >= 3 && bits[..3] == [T, T, F]
    ensures TypeAt(bits) == 1 && FinalAt(bits)
  {
    var s := bits[..3];
    assert s[1..] == [T, F] && s[1..][1..] == [F] && s[1..][1..][1..] == [];
    assert Val(s[1..][1..]) == 0;
    assert Val(s[1..]) == 1;
    assert Val(s) == 3;
  }

  /** With room for one to three bytes the next write is outside the buffer; with more room the length symbol copies
      three bytes, and then the input ends. */
  lemma RunsOut(out: seq<nat>)
    ensures var e := Inflated(Place(ByteBits(INPUT), out, 0));
            && (e.status == Overrun <==> 1 <= |out| <= 3)
            && (e.status == HasMoreOutput <==> |out| == 0)
            && (|out| >= 4 ==> e.status == NeedsInput && e.place.pos == 4 && e.place.out[..4] == [97, 97, 97, 97])
  {
    hide Word, NextStep, BodyEnd, Accepted, FixedLit, FixedDist, ByteBits, Body, CopyIn;
    var l, d := FixedLit(), FixedDist();
    var p := Place(Body(), out, 0);
    Input();
    Steps(l, d);
    TypeIsFixed(ByteBits(INPUT));
    StepBody(l, d, p);
    if |out| > 0 {
      var q := Take(NextStep(l, d, p.bits), p);
      StepBody(l, d, q);
      if |out| >= 4 {
        var s := NextStep(l, d, q.bits);
        CopyThrice(q.out);
        StepBody(l, d, Take(s, q));
      }
    }
  }

  lemma CopyThrice(out: seq<nat>)
    requires |out| >= 4 && out[0] == 97
    ensures CopyIn(out, 1, 1, 3)[..4] == [97, 97, 97, 97]
  {
    assert CopyIn(out, 1, 1, 1) == out[1 := 97];
    assert CopyIn(out, 1, 1, 2) == out[1 := 97][2 := 97];
  }
}
