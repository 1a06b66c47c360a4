/** Strings whose length reads as negative: where the reader goes, and nine bytes at which it stands still. */
module MessageExample {
  import opened Words
  import opened LittleEndian
  import opened Messages

  /** After a string in the newer format the position is behind its length field, except exactly if the length reads as
      -k with k no larger than that position: then the field is accepted as empty and the position is k further back. */
  lemma WhenStr2GoesBack(data: seq<bv8>, pos: nat)
    requires pos <= |data| < Half(8)
    ensures var n, v, g := VarSize(data[pos..]), Signed(VarValue(data[pos..]), 8), GetStr2(data, pos);
            && (g.Ok? && g.pos < pos + n <==> n > 0 && v < 0 && 0 <= pos + n + v)
            && (g.Ok? && v < 0 ==> g.value == Str2([]) && g.pos == pos + n + v)
            && (g.pos < pos <==> n > 0 && n + v < 0 && 0 <= pos + n + v)
  {
    hide VarSize, VarValue, Range;
    Ranges();
    ValueRange(data[pos..]);
    SizeRange(data[pos..]);
  }

  lemma ValueRange(p: seq<bv8>)
    ensures VarValue(p) < Range(8)
  {
    var n := VarSize(p);
    if n > 0 {
      hide VarSize, Varint.Value, Number, Range;
      NumberBound(Split(Varint.Value(p, n), 8));
    }
  }

  lemma SizeRange(p: seq<bv8>)
    ensures VarSize(p) <= |p|
  {
  }

  /** -9 as a variable-length number. */
  const MINUS_NINE: seq<bv8> := [0xFF, 0xFF, 0xFF, 0xFF, 0xFF, 0xFF, 0xFF, 0xFF, 0xF7]

  const ALL_BUT_EIGHT: bv64 := 0xFFFF_FFFF_FFFF_FFF7

  lemma FoldOnes(p: seq<bv8>)
    requires |p| >= 8 && forall i :: 0 <= i < 8 ==> p[i] == 0xFF
    ensures Varint.Fold(p, 8) == 0xFF_FFFF_FFFF_FFFF
  {
    hide Varint.Joined;
    Ones();
    assert Varint.Fold(p, 0) == 0;
    assert Varint.Fold(p, 1) == 0x7F;
    assert Varint.Fold(p, 2) == 0x3FFF;
    assert Varint.Fold(p, 3) == 0x1F_FFFF;
    assert Varint.Fold(p, 4) == 0xFFF_FFFF;
    assert Varint.Fold(p, 5) == 0x7_FFFF_FFFF;
    assert Varint.Fold(p, 6) == 0x3FF_FFFF_FFFF;
    assert Varint.Fold(p, 7) == 0x1_FFFF_FFFF_FFFF;
  }

  lemma Ones()
    ensures Varint.Joined(0, 0xFF) == 0x7F && Varint.Joined(0x7F, 0xFF) == 0x3FFF
    ensures Varint.Joined(0x3FFF, 0xFF) == 0x1F_FFFF && Varint.Joined(0x1F_FFFF, 0xFF) == 0xFFF_FFFF
    ensures Varint.Joined(0xFFF_FFFF, 0xFF) == 0x7_FFFF_FFFF && Varint.Joined(0x7_FFFF_FFFF, 0xFF) == 0x3FF_FFFF_FFFF
    ensures Varint.Joined(0x3FF_FFFF_FFFF, 0xFF) == 0x1_FFFF_FFFF_FFFF
    ensures Varint.Joined(0x1_FFFF_FFFF_FFFF, 0xFF) == 0xFF_FFFF_FFFF_FFFF
  {
  }

  lemma WholeByte()
    ensures Varint.JoinedWhole(0xFF_FFFF_FFFF_FFFF, 0xF7) == ALL_BUT_EIGHT
  {
  }

  lemma ByteValues()
    ensures OfByte(0xF7) == 0xF7 && OfByte(0xFF) == 0xFF
  {
  }

  lemma HighOnes()
    ensures LowByte(ALL_BUT_EIGHT) == 0xF7 && HighBytes(ALL_BUT_EIGHT) == 0xFF_FFFF_FFFF_FFFF
    ensures LowByte(0xFF_FFFF_FFFF_FFFF) == 0xFF && HighBytes(0xFF_FFFF_FFFF_FFFF) == 0xFFFF_FFFF_FFFF
    ensures LowByte(0xFFFF_FFFF_FFFF) == 0xFF && HighBytes(0xFFFF_FFFF_FFFF) == 0xFF_FFFF_FFFF
    ensures LowByte(0xFF_FFFF_FFFF) == 0xFF && HighBytes(0xFF_FFFF_FFFF) == 0xFFFF_FFFF
    ensures LowByte(0xFFFF_FFFF) == 0xFF && HighBytes(0xFFFF_FFFF) == 0xFF_FFFF
    ensures LowByte(0xFF_FFFF) == 0xFF && HighBytes(0xFF_FFFF) == 0xFFFF
    ensures LowByte(0xFFFF) == 0xFF && HighBytes(0xFFFF) == 0xFF
    ensures LowByte(0xFF) == 0xFF && HighBytes(0xFF) == 0
  {
  }

  lemma NextByte(v: bv64, k: nat)
    requires k > 0
    ensures Number(Split(v, k)) == OfByte(LowByte(v)) + 256 * Number(Split(HighBytes(v), k - 1))
  {
    hide LowByte, HighBytes, OfByte;
    assert Split(v, k)[1..] == Split(HighBytes(v), k - 1);
  }

  lemma MinusNineWord()
    ensures OfWord(ALL_BUT_EIGHT) == WORD64 - 9
  {
    hide LowByte, HighBytes, OfByte, Split;
    HighOnes();
    ByteValues();
    NextByte(ALL_BUT_EIGHT, 8);
    NextByte(0xFF_FFFF_FFFF_FFFF, 7);
    NextByte(0xFFFF_FFFF_FFFF, 6);
    NextByte(0xFF_FFFF_FFFF, 5);
    NextByte(0xFFFF_FFFF, 4);
    NextByte(0xFF_FFFF, 3);
    NextByte(0xFFFF, 2);
    NextByte(0xFF, 1);
    NoBytes();
  }

  lemma NoBytes()
    ensures Number(Split(0, 0)) == 0
  {
  }

  lemma MarkedBytes()
    ensures Varint.More(0xFF)
  {
  }

  /** The nine bytes stand for -9, wherever they are. */
  lemma MinusNine(p: seq<bv8>)
    requires MINUS_NINE <= p
    ensures VarSize(p) == 9 && Signed(VarValue(p), 8) == -9
  {
    hide Varint.More, Varint.Fold, Varint.JoinedWhole, Range;
    MarkedBytes();
    assert Varint.Ends(p, |p|, 9);
    assert VarSize(p) == 9 by {
      Varint.OneReading(p, |p|, VarSize(p), |p|, 9);
    }
    FoldOnes(p);
    WholeByte();
    MinusNineWord();
    Ranges();
  }

  /** At these bytes getStr2 succeeds and stays where it is, so that a loop over fields reads the same one for ever. */
  lemma {:induction false} StandsStill(data: seq<bv8>, pos: nat, kinds: seq<Kind>)
    requires pos + 9 <= |data| < Half(8) && data[pos..pos + 9] == MINUS_NINE
    requires forall i :: 0 <= i < |kinds| ==> kinds[i] == AStr2
    ensures GetStr2(data, pos) == Ok(Str2([]), pos)
    ensures var r := ReadAll(kinds, data, pos); r.ok && r.pos == pos && |r.values| == |kinds|
    decreases |kinds|
  {
    hide VarSize, VarValue, MINUS_NINE, Range, GetStr2;
    assert data[pos..pos + 9] <= data[pos..];
    MinusNine(data[pos..]);
    Ranges();
    assert GetStr2(data, pos) == Ok(Str2([]), pos) by {
      WhenStr2GoesBack(data, pos);
    }
    if kinds != [] {
      StandsStill(data, pos, kinds[1..]);
    }
  }

  // ---------------------------------------------------------------- known fields

  lemma BytesAre(n: nat, s: seq<bv8>)
    requires forall i :: 0 <= i < |s| ==> s[i] as int == n / Range(i) % 256
    ensures Bytes(n, |s|) == s
  {
    hide Range;
    forall i | 0 <= i < |s| ensures Bytes(n, |s|)[i] == s[i] {
      BytesAt(n, |s|, i);
      SameByte(Bytes(n, |s|)[i], s[i]);
    }
  }

  lemma SameByte(a: bv8, b: bv8)
    ensures a as int == b as int ==> a == b
  {
  }

  lemma Weights()
    ensures Range(0) == 1 && Range(1) == 256 && Range(2) == 0x1_0000 && Range(3) == 0x100_0000
  {
  }

  lemma KnownNumbers()
    ensures Bytes(0xFFFF_FFFE, 4) == [0xFE, 0xFF, 0xFF, 0xFF] && Bytes(0x0102_0304, 4) == [0x04, 0x03, 0x02, 0x01]
  {
    hide Range, Bytes;
    Weights();
    BytesAre(0xFFFF_FFFE, [0xFE, 0xFF, 0xFF, 0xFF]);
    BytesAre(0x0102_0304, [0x04, 0x03, 0x02, 0x01]);
  }

  lemma KnownSmallNumbers()
    ensures Bytes(2, 4) == [0x02, 0x00, 0x00, 0x00] && Bytes(0x1234, 2) == [0x34, 0x12]
  {
    hide Range, Bytes;
    Weights();
    BytesAre(2, [0x02, 0x00, 0x00, 0x00]);
    BytesAre(0x1234, [0x34, 0x12]);
  }

  /** Numbers stand in two, four or eight bytes, the lowest first, and negative ones as two's complements; a string
      follows its length. */
  lemma KnownImages()
    ensures Image(Int(-2)) == [0xFE, 0xFF, 0xFF, 0xFF] && Image(UInt(0x0102_0304)) == [0x04, 0x03, 0x02, 0x01]
    ensures Image(Str([0x61, 0x62])) == [0x02, 0x00, 0x00, 0x00, 0x61, 0x62] && Image(Char(0x61)) == [0x61]
    ensures Image(UShort(0x1234)) == [0x34, 0x12] && forall i :: Fits(i, 8) ==> |Image(Int64(i))| == 8
  {
    hide Bytes;
    Ranges();
    KnownNumbers();
    KnownSmallNumbers();
  }
}
