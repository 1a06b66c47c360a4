/** A dynamic block and the text it is known to stand for, bit by bit. Its header uses every kind of run. */
module KnownDynamic {
  import opened Sums
  import opened Bits
  import opened CanonicalCode
  import opened CodeLengthPacking
  import opened FixedCodes
  import opened InflateTable
  import opened InflateSpec
  import opened LzTokens
  import opened LzBuffer
  import opened BlockWriter
  import opened DynamicHeader
  import opened DynamicBlock
  import opened DeflateBlock
  import opened DeflateStream
  import opened StreamText
  import opened KnownStreams

  /** 258 literal and length codes, 1 distance code, 18 code-length codes. */
  const COUNTS: seq<bool> := [T, F, F, F, F] + [F, F, F, F, F] + [F, T, T, T]

  /** Sizes of the codes for 16, 17, 18, 0, 8, 7, 9, 6, 10, 5, 11, 4, 12, 3, 13, 2, 14 and 1, three bits each. */
  const LENGTHS: seq<nat> := [3, 3, 2, 0, 0, 0, 0, 0, 0, 0, 0, 0, 0, 3, 0, 2, 0, 3]

  function InThrees(sizes: seq<nat>): (s: seq<bool>)
    ensures |s| == 3 * |sizes|
  {
    if sizes == [] then [] else
      [sizes[0] % 2 == 1, sizes[0] / 2 % 2 == 1, sizes[0] / 4 % 2 == 1] + InThrees(sizes[1..])
  }

  /** 97 zeros, 3, three times the same, 138, 10 and 7 zeros, 2, 2; and 1 for the distance. */
  function RunBits(k: nat): seq<bool>
    requires k < 9
  {
    match k
    case 0 => [F, T] + [F, T, T, F, T, F, T]
    case 1 => [T, F, T]
    case 2 => [T, T, F] + [F, F]
    case 3 => [F, T] + [T, T, T, T, T, T, T]
    case 4 => [T, T, T] + [T, T, T]
    case 5 => [T, T, T] + [F, F, T]
    case 6 => [F, F]
    case 7 => [F, F]
    case 8 => [T, F, F]
  }

  function RunsFrom(k: nat): seq<bool>
    requires k <= 9
    decreases 9 - k
  {
    if k == 9 then [] else RunBits(k) + RunsFrom(k + 1)
  }

  const TEXT: seq<nat> := [97, 98, 98, 98, 98, 99, 100]

  // ---------------------------------------------------------------- the three codes

  function LitSize(i: nat): nat {
    if 97 <= i <= 100 then 3 else if 256 <= i <= 257 then 2 else 0
  }

  ghost function Lit(): (l: seq<nat>)
    ensures |l| == 288 && forall i :: 0 <= i < 288 ==> l[i] == LitSize(i)
  {
    seq(288, i requires 0 <= i => LitSize(i))
  }

  ghost function Dist(): (d: seq<nat>)
    ensures |d| == 32 && forall i :: 0 <= i < 32 ==> d[i] == if i == 0 then 1 else 0
  {
    seq(32, i => if i == 0 then 1 else 0)
  }

  ghost function Len(): (c: seq<nat>)
    ensures |c| == 19 && forall i :: 0 <= i < 19 ==> c[i] == LenSize(i)
  {
    seq(19, i requires 0 <= i => LenSize(i))
  }

  function LenSize(i: nat): nat {
    if i == 1 || i == 3 || i == 16 || i == 17 then 3 else if i == 2 || i == 18 then 2 else 0
  }

  lemma LitCnt(k: nat)
    ensures k > 0 ==> Cnt(Lit(), k) == if k == 2 then 2 else if k == 3 then 4 else 0
    ensures Cnt(Lit()[..97], 3) == 0 && Cnt(Lit()[..256], 2) == 0
  {
    var l := Lit();
    assert l[..0] == [] && l[..288] == l;
    hide Lit;
    CntRun(l, k, 0, 97, 0);
    CntRun(l, k, 97, 101, 3);
    CntRun(l, k, 101, 256, 0);
    CntRun(l, k, 256, 258, 2);
    CntRun(l, k, 258, 288, 0);
    CntRun(l, 3, 0, 97, 0);
    CntRun(l, 2, 0, 97, 0);
    CntRun(l, 2, 97, 101, 3);
    CntRun(l, 2, 101, 256, 0);
  }

  lemma LenCnt(k: nat)
    ensures k > 0 ==> Cnt(Len(), k) == if k == 2 then 2 else if k == 3 then 4 else 0
    ensures Cnt(Len()[..1], 3) == 0 && Cnt(Len()[..2], 2) == 0 && Cnt(Len()[..3], 3) == 1 && Cnt(Len()[..16], 3) == 2
    ensures Cnt(Len()[..17], 3) == 3 && Cnt(Len()[..18], 2) == 1
  {
    var l := Len();
    assert l[..0] == [] && l[..19] == l;
    hide Len;
    LenRuns(l, k);
    LenRuns(l, 2);
    LenRuns(l, 3);
  }

  lemma LenRuns(l: seq<nat>, k: nat)
    requires |l| == 19 && l[..0] == [] && l[..19] == l && forall i :: 0 <= i < 19 ==> l[i] == LenSize(i)
    ensures k > 0 ==> Cnt(l[..1], k) == 0
    ensures k > 0 ==> Cnt(l[..2], k) == if k == 3 then 1 else 0
    ensures k > 0 ==> Cnt(l[..3], k) == if k == 3 || k == 2 then 1 else 0
    ensures k > 0 ==> Cnt(l[..16], k) == if k == 3 then 2 else if k == 2 then 1 else 0
    ensures k > 0 ==> Cnt(l[..17], k) == if k == 3 then 3 else if k == 2 then 1 else 0
    ensures k > 0 ==> Cnt(l[..18], k) == if k == 3 then 4 else if k == 2 then 1 else 0
    ensures k > 0 ==> Cnt(l, k) == if k == 3 then 4 else if k == 2 then 2 else 0
  {
    CntRun(l, k, 0, 1, 0);
    CntRun(l, k, 1, 2, 3);
    CntRun(l, k, 2, 3, 2);
    CntRun(l, k, 3, 4, 3);
    CntRun(l, k, 4, 16, 0);
    CntRun(l, k, 16, 17, 3);
    CntRun(l, k, 17, 18, 3);
    CntRun(l, k, 18, 19, 2);
  }

  /** Two codes of two bits and four of three use up the code space. */
  lemma TwoAndFour(sz: seq<nat>)
    requires Sizes(sz) && forall k :: k > 0 ==> Cnt(sz, k) == if k == 2 then 2 else if k == 3 then 4 else 0
    ensures Accepted(sz) && First(sz, 2) == 0 && First(sz, 3) == 4
  {
    FirstShort(sz, 2);
    assert First(sz, 3) == 4 && First(sz, 4) == 16;
    FirstDoubles(sz, 4, 12);
    assert Pow2(5) == 32 && Pow2(10) == 1024 && Pow2(12) == 4096;
  }

  lemma CodesAccepted()
    ensures Accepted(Lit()) && First(Lit(), 2) == 0 && First(Lit(), 3) == 4
    ensures Accepted(Len()) && First(Len(), 2) == 0 && First(Len(), 3) == 4
    ensures Accepted(Dist())
  {
    hide First, Cnt;
    forall k: nat | k > 0 ensures Cnt(Lit(), k) == if k == 2 then 2 else if k == 3 then 4 else 0 {
      LitCnt(k);
    }
    forall k: nat | k > 0 ensures Cnt(Len(), k) == if k == 2 then 2 else if k == 3 then 4 else 0 {
      LenCnt(k);
    }
    TwoAndFour(Lit());
    TwoAndFour(Len());
  }

  lemma Fours()
    ensures Msb(4, 3) == [T, F, F] && Msb(5, 3) == [T, F, T] && Msb(6, 3) == [T, T, F] && Msb(7, 3) == [T, T, T]
    ensures Msb(0, 2) == [F, F] && Msb(1, 2) == [F, T] && Msb(0, 1) == [F]
  {
  }

  lemma LenWords()
    ensures Word(Len(), 1) == [T, F, F] && Word(Len(), 2) == [F, F] && Word(Len(), 3) == [T, F, T]
    ensures Word(Len(), 16) == [T, T, F] && Word(Len(), 17) == [T, T, T] && Word(Len(), 18) == [F, T]
  {
    hide First, Cnt, Msb, Word, Accepted;
    CodesAccepted();
    LenCnt(1);
    Fours();
    CodeIs(Len(), 1, 4, 0);
    CodeIs(Len(), 2, 0, 0);
    CodeIs(Len(), 3, 4, 1);
    CodeIs(Len(), 16, 4, 2);
    CodeIs(Len(), 17, 4, 3);
    CodeIs(Len(), 18, 0, 1);
  }

  lemma LitWords()
    ensures Word(Lit(), 97) == [T, F, F] && Word(Lit(), 98) == [T, F, T] && Word(Lit(), 99) == [T, T, F]
    ensures Word(Lit(), 100) == [T, T, T] && Word(Lit(), 256) == [F, F] && Word(Lit(), 257) == [F, T]
    ensures Word(Dist(), 0) == [F]
  {
    hide First, Cnt, Msb, Word, Accepted;
    CodesAccepted();
    LitCnt(1);
    Fours();
    var l := Lit();
    CntRun(l, 3, 97, 98, 3);
    CntRun(l, 3, 97, 99, 3);
    CntRun(l, 3, 97, 100, 3);
    CntRun(l, 2, 256, 257, 2);
    CodeIs(l, 97, 4, 0);
    CodeIs(l, 98, 4, 1);
    CodeIs(l, 99, 4, 2);
    CodeIs(l, 100, 4, 3);
    CodeIs(l, 256, 0, 0);
    CodeIs(l, 257, 0, 1);
    FirstDistance();
    CodeIs(Dist(), 0, 0, 0);
  }

  lemma FirstDistance()
    ensures First(Dist(), 1) == 0 && Cnt(Dist()[..0], 1) == 0
  {
  }

  // ---------------------------------------------------------------- the header

  const OPS: seq<Op> := [Zeros(97), Size(3), Op.Copy(3), Zeros(138), Zeros(10), Zeros(7), Size(2), Size(2), Size(1)]

  ghost function Head(): Header {
    Header(258, 1, 18, Len(), OPS)
  }

  ghost function After(k: nat): seq<nat>
    requires k <= 9
  {
    if k == 0 then [] else if k == 1 then Lit()[..97] else if k == 2 then Lit()[..98] else if k == 3 then Lit()[..101]
    else if k == 4 then Lit()[..239] else if k == 5 then Lit()[..249] else if k == 6 then Lit()[..256]
    else if k == 7 then Lit()[..257] else if k == 8 then Lit()[..258] else Lit()[..258] + Dist()[..1]
  }

  lemma AfterNext(k: nat)
    requires k < 9
    ensures ValidOp(OPS[k], After(k)) && ApplyOp(After(k), OPS[k]) == After(k + 1)
  {
    hide Lit, Dist;
    var l, d := Lit(), Dist();
    assert d[..1] == [1];
    assert ApplyOp(After(k), OPS[k]) == After(k + 1);
  }

  lemma {:induction false} Unpacks(k: nat)
    requires k <= 9
    ensures ValidOps(OPS[..k]) && Unpacked(OPS[..k]) == After(k)
  {
    hide OPS, After, ApplyOp, ValidOp;
    OpsSize();
    if k > 0 {
      Unpacks(k - 1);
      AfterNext(k - 1);
      assert OPS[..k] == OPS[..k - 1] + [OPS[k - 1]];
      PushOp(OPS[..k - 1], OPS[k - 1]);
    } else {
      assert OPS[..0] == [];
    }
  }

  lemma OpsSize()
    ensures |OPS| == 9 && After(0) == [] && After(9) == Lit()[..258] + Dist()[..1]
  {
  }

  lemma OpsAreCoded()
    ensures CodedOps(Len(), OPS)
  {
    hide Len;
  }
  lemma LengthAt(k: nat)
    requires k < 18
    ensures |LENGTHS| == 18 && |SWIZZLE| == 19 && 0 <= SWIZZLE[k] < 19 && LENGTHS[k] == LenSize(SWIZZLE[k]) < 4
  {
  }

  lemma ThreeBits(v: nat)
    requires v < 4
    ensures Bin(v, 3) == [v % 2 == 1, v / 2 % 2 == 1, v / 4 % 2 == 1]
  {
    assert v == 0 || v == 1 || v == 2 || v == 3;
  }

  lemma {:induction false} LengthsWritten(k: nat)
    requires k <= |LENGTHS| == 18
    ensures LengthSizesBits(Len(), k, 18) == InThrees(LENGTHS[k..])
    decreases 18 - k
  {
    hide Len, LenSize, Bin, SWIZZLE, LENGTHS;
    if k < 18 {
      LengthAt(k);
      ThreeBits(LENGTHS[k]);
      LengthsWritten(k + 1);
      assert LENGTHS[k..][1..] == LENGTHS[k + 1..];
    }
  }

  lemma Extras()
    ensures Bin(0, 0) == [] && Bin(0, 2) == [F, F] && Bin(7, 3) == [T, T, T] && Bin(4, 3) == [F, F, T]
    ensures Bin(86, 7) == [F, T, T, F, T, F, T] && Bin(127, 7) == [T, T, T, T, T, T, T]
  {
    ShortExtras();
    Fives();
    hide Bin;
    BinStep(86, 7);
    BinStep(43, 6);
    BinStep(21, 5);
    BinStep(127, 7);
    BinStep(63, 6);
    BinStep(31, 5);
  }

  lemma ShortExtras()
    ensures Bin(0, 0) == [] && Bin(0, 2) == [F, F] && Bin(7, 3) == [T, T, T] && Bin(4, 3) == [F, F, T]
  {
  }

  lemma Fives()
    ensures Bin(10, 4) == [F, T, F, T] && Bin(15, 4) == [T, T, T, T]
  {
  }

  lemma BinStep(v: nat, n: nat)
    requires n > 0
    ensures Bin(v, n) == [v % 2 == 1] + Bin(v / 2, n - 1)
  {
  }

  lemma RunAt(k: nat)
    requires k < 9
    ensures |OPS| == 9 && CodedOps(Len(), OPS) && OpBits(Len(), OPS[k]) == RunBits(k)
  {
    hide Len, Word, Bin;
    OpsAreCoded();
    LenWords();
    Extras();
  }

  lemma {:induction false} RunsWritten(k: nat)
    requires k <= |OPS| == 9 && CodedOps(Len(), OPS)
    ensures CodedOps(Len(), OPS[k..]) && OpsBits(Len(), OPS[k..]) == RunsFrom(k)
    decreases 9 - k
  {
    hide Len, OPS, OpBits, RunBits, CodedOps;
    OpsSuffix(k);
    if k < 9 {
      RunAt(k);
      RunsWritten(k + 1);
      assert OPS[k..][1..] == OPS[k + 1..];
    }
  }

  lemma OpsSuffix(k: nat)
    requires k <= |OPS| == 9 && CodedOps(Len(), OPS)
    ensures CodedOps(Len(), OPS[k..])
  {
    hide Len, OPS;
  }

  lemma HeadSizes()
    ensures forall i :: 0 <= i < 19 ==> Len()[i] <= 7 && (Unswizzle(i) >= 18 ==> Len()[i] == 0)
  {
    hide Len;
    forall i | 0 <= i < 19 ensures Len()[i] <= 7 && (Unswizzle(i) >= 18 ==> Len()[i] == 0) {
      assert i == 15 || Unswizzle(i) < 18;
    }
  }

  lemma HeadDescribes()
    ensures Describes(Head(), Lit(), Dist())
  {
    hide Lit, Dist, Len, Accepted, ValidOps, Unpacked, CodedOps, OPS;
    var h := Head();
    HeadSizes();
    CodesAccepted();
    OpsSize();
    OpsAreCoded();
    Unpacks(9);
    assert OPS[..9] == OPS;
    LastSymbols();
    DescribesAll(h, Lit(), Dist());
  }

  lemma LastSymbols()
    ensures Unused(Lit(), 258) && Unused(Dist(), 1)
  {
    hide Lit, Dist;
  }

  lemma Counts()
    ensures Bin(1, 5) + Bin(0, 5) + Bin(14, 4) == COUNTS
  {
    assert Bin(1, 5) == [T, F, F, F, F] && Bin(0, 5) == [F, F, F, F, F] && Bin(14, 4) == [F, T, T, T];
  }

  lemma HeadWritten()
    requires ValidHeader(Head())
    ensures HeaderBits(Head()) == COUNTS + InThrees(LENGTHS) + RunsFrom(0)
  {
    hide Len, OPS, LENGTHS, COUNTS, Bin, InThrees, RunsFrom, OpsBits, LengthSizesBits, ValidHeader, CodedOps;
    OpsSize();
    OpsAreCoded();
    LengthAt(0);
    LengthsWritten(0);
    assert LENGTHS[0..] == LENGTHS && OPS[0..] == OPS;
    RunsWritten(0);
    Counts();
  }

  // ---------------------------------------------------------------- the tokens

  const TOKENS: seq<Token> := [Literal(97), Literal(98), Match(3, 1), Literal(99), Literal(100)]

  /** The text after k tokens. */
  function TextAt(k: nat): seq<nat>
    requires k <= 5
  {
    if k == 0 then [] else if k == 1 then [97] else if k == 2 then [97, 98] else if k == 3 then [97, 98, 98, 98, 98]
    else if k == 4 then [97, 98, 98, 98, 98, 99] else TEXT
  }

  /** The literals a and b, a match of length 3 at distance 1, the literals c and d. */
  function TokenWord(k: nat): seq<bool>
    requires k < 5
  {
    match k
    case 0 => [T, F, F]
    case 1 => [T, F, T]
    case 2 => [F, T] + [F]
    case 3 => [T, T, F]
    case 4 => [T, T, T]
  }

  function WordsTo(k: nat): seq<bool>
    requires k <= 5
  {
    if k == 0 then [] else WordsTo(k - 1) + TokenWord(k - 1)
  }

  lemma TokenApplies(k: nat)
    requires k < 5
    ensures |TOKENS| == 5 && Applies(TOKENS[k], TextAt(k)) && Apply(TextAt(k), TOKENS[k]) == TextAt(k + 1)
  {
    if k == 2 {
      assert LzTokens.Copy([97, 98], 1, 1) == [97, 98, 98];
      assert LzTokens.Copy([97, 98], 1, 2) == [97, 98, 98, 98];
    }
  }

  lemma TokenCoded(k: nat)
    requires k < 5
    ensures |TOKENS| == 5 && Coded(Lit(), Dist(), TOKENS[k]) && TokenBits(Lit(), Dist(), TOKENS[k]) == TokenWord(k)
  {
    hide Lit, Dist, Word;
    LitWords();
    assert Bin(0, 0) == [];
  }

  lemma {:induction false} Spelled(k: nat)
    requires k <= |TOKENS| == 5
    ensures Valid(TOKENS[..k], []) && Expand(TOKENS[..k], []) == TextAt(k)
    ensures AllCoded(Lit(), Dist(), TOKENS[..k]) && TokensBits(Lit(), Dist(), TOKENS[..k]) == WordsTo(k)
  {
    hide Lit, Dist, TOKENS, TextAt, TokenWord, Coded, TokenBits, Applies, Apply;
    if k == 0 {
      NothingSpelled();
    } else {
      Spelled(k - 1);
      TokenApplies(k - 1);
      TokenCoded(k - 1);
      assert TOKENS[..k] == TOKENS[..k - 1] + [TOKENS[k - 1]];
      PushToken(TOKENS[..k - 1], TOKENS[k - 1], []);
      TokensBitsPush(Lit(), Dist(), TOKENS[..k - 1], TOKENS[k - 1]);
    }
  }

  lemma NothingSpelled()
    ensures TOKENS[..0] == [] && TextAt(0) == [] && Expand([], []) == [] && Valid([], [])
    ensures AllCoded(Lit(), Dist(), []) && TokensBits(Lit(), Dist(), []) == []
  {
    NoTokens(Lit(), Dist());
  }

  lemma AllSpelled()
    ensures Valid(TOKENS, []) && Expand(TOKENS, []) == TEXT && AllCoded(Lit(), Dist(), TOKENS)
    ensures |TOKENS| == 5 && BodyBits(Lit(), Dist(), TOKENS) == WordsTo(5) + [F, F]
  {
    hide Lit, Dist, Word, WordsTo;
    assert |TOKENS| == 5 && TOKENS[..5] == TOKENS && TextAt(5) == TEXT;
    hide TOKENS, TEXT, TextAt, TokensBits, Expand, Valid, AllCoded;
    Spelled(5);
    LitWords();
  }

  // ---------------------------------------------------------------- the block

  /** The last block, with dynamic codes; then three bits up to the byte boundary. */
  ghost function Block(): seq<bool> {
    [T] + [F, T] + (COUNTS + InThrees(LENGTHS) + RunsFrom(0) + (WordsTo(5) + [F, F])) + [F, F, F]
  }

  lemma Expressed()
    ensures Suitable(Dynamic(Head(), Lit(), Dist()), TOKENS)
  {
    hide Lit, Dist, Accepted, Head, TOKENS, TEXT, AllCoded, Describes, Valid, Expand, TokensBits;
    HeadDescribes();
    AllSpelled();
    CodesAccepted();
    EndIsCoded();
    SizesOf();
  }

  lemma EndIsCoded()
    ensures |Lit()| == 288 && |Dist()| == 32 && Lit()[256] > 0
  {
    hide Lit, Dist;
  }

  lemma SizesOf()
    requires Accepted(Lit()) && Accepted(Dist())
    ensures CanonicalCode.Sizes(Lit()) && CanonicalCode.Sizes(Dist())
  {
    hide Lit, Dist, First;
  }

  lemma BlockWritten(c: Coding, b: Part)
    requires c == Dynamic(Head(), Lit(), Dist()) && b == Part(true, Compressed(c, TOKENS)) && Suitable(c, TOKENS)
    ensures GoodBlock(b.block) && Block() == PartBits(b, 0) + [F, F, F]
  {
    hide Lit, Dist, Accepted, Head, TOKENS, TEXT, AllCoded, Describes, Valid, Expand, TokensBits, Bin, COUNTS, LENGTHS,
      InThrees, RunsFrom, WordsTo, HeaderBits, BodyBits, ValidHeader, Expresses, Suitable;
    DynamicTail(c, TOKENS);
    HeadWritten();
    AllSpelled();
    TypeBits();
  }

  lemma BlockSize()
    ensures |Block()| == 136
  {
    hide InThrees;
    assert |LENGTHS| == 18;
    hide LENGTHS, RunsFrom, WordsTo;
    RunsSize();
  }

  lemma RunsSize()
    ensures |RunsFrom(0)| == 45 && |WordsTo(5)| == 15
  {
    assert |RunsFrom(4)| == 19 && |WordsTo(2)| == 6;
    assert |RunsFrom(2)| == 33 && |WordsTo(4)| == 12;
  }

  /** The block stands for abbbbcd. */
  lemma DynamicStands()
    ensures StandsFor(Block(), TEXT)
  {
    hide StandsFor, Lit, Dist, Head, TOKENS, TEXT, PartBits, Accepted, Block, Valid, Expand, AllCoded, BodyBits,
      WordsTo, Suitable;
    var c := Dynamic(Head(), Lit(), Dist());
    var b := Part(true, Compressed(c, TOKENS));
    Expressed();
    AllSpelled();
    BlockWritten(c, b);
    BlockSize();
    SinglePart(b, [F, F, F]);
    StreamStands([b], Block(), [F, F, F], TEXT);
  }
}
