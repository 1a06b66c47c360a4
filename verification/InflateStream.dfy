/** The decompressor: all blocks of a stream. */
module InflateStream {
  import opened Sums
  import opened Bits
  import opened CanonicalCode
  import opened FixedCodes
  import opened InflateTable
  import opened InflateSpec
  import opened InflateBlock
  import opened BitReader
  import opened DynamicHeader

  /** tinfl_decompressor: three tables and the size list. */
  class Inflater {
    const lit: HuffTable
    const dist: HuffTable
    const len: HuffTable
    const lenCodes: array<nat>

    ghost predicate Shape() {
      Separate(lit, dist, len, lenCodes)
    }

    ghost function Repr(): set<object> {
      {lenCodes, lit, lit.codeSize, lit.lookUp, lit.tree, dist, dist.codeSize, dist.lookUp, dist.tree,
       len, len.codeSize, len.lookUp, len.tree}
    }

    constructor ()
      ensures Shape() && fresh(Repr())
    {
      lit := new HuffTable();
      dist := new HuffTable();
      len := new HuffTable();
      lenCodes := new nat[457](_ => 0);
    }
  }

  /** The tables of a static block. */
  method BuildFixed(inf: Inflater)
    requires inf.Shape()
    modifies inf.lit, inf.lit.codeSize, inf.lit.lookUp, inf.lit.tree, inf.dist, inf.dist.codeSize, inf.dist.lookUp,
      inf.dist.tree
    ensures inf.lit.Ready() && inf.dist.Ready() && inf.lit.sz == FixedLit() && inf.dist.sz == FixedDist()
    ensures |inf.lit.sz| == 288 && |inf.dist.sz| == 32
  {
    hide FixedLit, FixedDist, InflateDecode.Table, Accepted, Full, CanonicalCode.Sizes;
    SetFixed(inf.lit.codeSize, inf.dist.codeSize);
    FixedFull();
    FullSizes(FixedLit());
    FullSizes(FixedDist());
    var ok := inf.dist.Build(32);
    ok := inf.lit.Build(288);
  }

  lemma FullSizes(sz: seq<nat>)
    requires Full(sz)
    ensures CanonicalCode.Sizes(sz) && Accepted(sz)
  {
  }

  /** A compressed block of either kind, after its type. */
  method InflateCompressed(r: BitReader, inf: Inflater, out: array<nat>, pos0: nat, blockType: nat)
    returns (status: Status, pos: nat)
    requires r.Valid() && inf.Shape() && out !in inf.Repr() && pos0 <= out.Length && blockType in {1, 2}
    modifies r, out, inf.Repr()
    ensures r.Valid()
    ensures var p := Place(old(r.Remaining()), old(out[..]), pos0);
            Ended(BlockEnd(blockType, p), status, r.Remaining(), out[..], pos)
  {
    hide InflateDecode.Table, BodyEnd, HeaderAt, FixedLit, FixedDist;
    status, pos := Done, pos0;
    if blockType == 1 {
      BuildFixed(inf);
    } else {
      status := InflateDynamic(r, inf.lit, inf.dist, inf.len, inf.lenCodes);
    }
    if status == Done {
      status, pos := InflateBody(r, inf.lit, inf.dist, out, pos0);
    }
  }

  /** Status, bits left, output and position are those of e; the bits matter only after success. */
  ghost predicate Ended(e: End, status: Status, bits: seq<bool>, out: seq<nat>, pos: nat) {
    status == e.status && out == e.place.out && pos == e.place.pos && (status == Done ==> bits == e.place.bits)
  }

  // ---------------------------------------------------------------- stored blocks

  lemma TwoBytes(bits: seq<bool>)
    requires |bits| >= 16
    ensures Val(bits[..16]) == Val(bits[..8]) + 256 * Val(bits[8..][..8]) && bits[8..][8..] == bits[16..]
  {
    assert bits[..16] == bits[..8] + bits[8..][..8];
    ValAppend(bits[..8], bits[8..][..8]);
    assert Pow2(3) == 8;
  }

  /** Two bytes, low byte first. */
  method TakeWord(r: BitReader) returns (ok: bool, b: nat)
    requires r.Valid()
    modifies r
    ensures r.Valid()
    ensures ok <==> |old(r.Remaining())| >= 16
    ensures ok ==> b == Val(old(r.Remaining())[..16]) && r.Remaining() == old(r.Remaining())[16..]
    ensures b <= 0xFFFF
  {
    hide Val, Bin;
    ghost var bits := r.Remaining();
    b := 0;
    var lo, hi;
    ok, lo := r.GetByte();
    if !ok {
      return;
    }
    ok, hi := r.GetByte();
    if ok {
      TwoBytes(bits);
      b := lo + 256 * hi;
    }
  }

  /** Copies bytes while the bit buffer still holds whole bytes (all = false) or until the end. */
  method CopyBytes(r: BitReader, out: array<nat>, pos0: nat, counter0: nat, all: bool)
    returns (status: Status, pos: nat, counter: nat)
    requires r.Valid() && pos0 <= out.Length
    modifies r, out
    ensures r.Valid() && pos <= out.Length && (status == Done && all ==> counter == 0)
    ensures var e := BytesEnd(Place(old(r.Remaining()), old(out[..]), pos0), counter0);
            if status == Done then e == BytesEnd(Place(r.Remaining(), out[..], pos), counter)
            else Ended(e, status, r.Remaining(), out[..], pos)
  {
    hide Bin, Val;
    status, pos, counter := Done, pos0, counter0;
    ghost var e := BytesEnd(Place(r.Remaining(), out[..], pos), counter);
    while counter > 0 && (all || r.numBits != 0)
      invariant r.Valid() && pos <= out.Length && e == BytesEnd(Place(r.Remaining(), out[..], pos), counter)
      decreases counter
    {
      if pos >= out.Length {
        status := HasMoreOutput;
        return;
      }
      var ok, b := r.GetByte();
      if !ok {
        status := NeedsInput;
        return;
      }
      out[pos] := b;
      pos := pos + 1;
      counter := counter - 1;
    }
  }

  /** Empties the bit buffer first, then copies directly. */
  method CopyStored(r: BitReader, out: array<nat>, pos0: nat, len: nat) returns (status: Status, pos: nat)
    requires r.Valid() && pos0 <= out.Length
    modifies r, out
    ensures r.Valid()
    ensures Ended(BytesEnd(Place(old(r.Remaining()), old(out[..]), pos0), len), status, r.Remaining(), out[..], pos)
  {
    hide Bin, Val, BytesEnd;
    var counter;
    status, pos, counter := CopyBytes(r, out, pos0, len, false);
    if status == Done {
      status, pos, counter := CopyBytes(r, out, pos, counter, true);
      NoBytes(Place(r.Remaining(), out[..], pos));
    }
  }

  /** The two words before the bytes. */
  method ReadLengths(r: BitReader) returns (ok: bool, len: nat, inverse: nat)
    requires r.Valid()
    modifies r
    ensures r.Valid() && inverse <= 0xFFFF
    ensures var b := old(r.Remaining());
            && (ok <==> |b| >= 32)
            && (ok ==> len == Val(b[..16]) && inverse == Val(b[16..32]) && r.Remaining() == b[32..])
  {
    hide Bin, Val;
    ghost var b := r.Remaining();
    inverse := 0;
    ok, len := TakeWord(r);
    if !ok {
      return;
    }
    ok, inverse := TakeWord(r);
    if ok {
      assert b[16..][..16] == b[16..32] && b[16..][16..] == b[32..];
    }
  }

  lemma StoredCases(p: Place, b: seq<bool>)
    requires p.pos <= |p.out| && b == p.bits[|p.bits| % 8..]
    ensures |b| < 32 ==> StoredEnd(p) == End(NeedsInput, p)
    ensures |b| >= 32 && Val(b[..16]) != 0xFFFF - Val(b[16..32]) ==> StoredEnd(p) == End(Failed, p)
    ensures |b| >= 32 && Val(b[..16]) == 0xFFFF - Val(b[16..32]) ==>
      StoredEnd(p) == BytesEnd(Place(b[32..], p.out, p.pos), Val(b[..16]))
  {
    hide Val, BytesEnd;
  }

  /** A stored block after its type: skips to the byte boundary, reads the length and its complement, and copies. */
  method InflateStored(r: BitReader, out: array<nat>, pos0: nat) returns (status: Status, pos: nat)
    requires r.Valid() && pos0 <= out.Length
    modifies r, out
    ensures r.Valid()
    ensures Ended(StoredEnd(Place(old(r.Remaining()), old(out[..]), pos0)), status, r.Remaining(), out[..], pos)
  {
    hide Bin, Val, BytesEnd, StoredEnd;
    pos := pos0;
    ghost var p := Place(r.Remaining(), out[..], pos);
    BufferedPart(r);
    r.Drop(r.numBits % 8);
    StoredCases(p, r.Remaining());
    var ok, len, inverse := ReadLengths(r);
    if !ok {
      status := NeedsInput;
      return;
    }
    if len != 0xFFFF - inverse {
      status := Failed;
      return;
    }
    status, pos := CopyStored(r, out, pos0, len);
  }

  lemma BufferedPart(r: BitReader)
    requires r.Valid()
    ensures r.numBits % 8 == |r.Remaining()| % 8
  {
    r.RemainingSize();
  }

  lemma NoBytes(p: Place)
    requires p.pos <= |p.out|
    ensures BytesEnd(p, 0) == End(Done, p)
  {
  }

  // ---------------------------------------------------------------- all blocks

  /** One block of any type. */
  method InflateOne(r: BitReader, inf: Inflater, out: array<nat>, pos0: nat, blockType: nat)
    returns (status: Status, pos: nat)
    requires r.Valid() && inf.Shape() && out !in inf.Repr() && pos0 <= out.Length && blockType < 4
    modifies r, out, inf.Repr()
    ensures r.Valid()
    ensures var p := Place(old(r.Remaining()), old(out[..]), pos0);
            Ended(BlockEnd(blockType, p), status, r.Remaining(), out[..], pos)
  {
    hide CodesOf, BodyEnd, StoredEnd;
    pos := pos0;
    if blockType == 0 {
      status, pos := InflateStored(r, out, pos0);
    } else if blockType == 3 {
      status := Failed;
    } else {
      status, pos := InflateCompressed(r, inf, out, pos0, blockType);
    }
  }

  /** The blocks of a stream. On any bits it ends, and status, output buffer, output position and the bits left are
      those of the specification. */
  method Inflate(r: BitReader, inf: Inflater, out: array<nat>) returns (status: Status, pos: nat)
    requires r.Valid() && inf.Shape() && out !in inf.Repr()
    modifies r, out, inf.Repr()
    ensures r.Valid()
    ensures Ended(Inflated(Place(old(r.Remaining()), old(out[..]), 0)), status, r.Remaining(), out[..], pos)
  {
    hide BlockEnd, Separate, Val;
    pos := 0;
    ghost var e := Inflated(Place(r.Remaining(), out[..], pos));
    while true
      invariant r.Valid() && pos <= out.Length && e == Inflated(Place(r.Remaining(), out[..], pos))
      decreases |r.Remaining()|
    {
      ghost var bits := r.Remaining();
      var ok, x := r.GetBits(3);
      if !ok {
        status := NeedsInput;
        return;
      }
      TypeRange(bits);
      var final, blockType := x % 2 == 1, x / 2;
      status, pos := InflateOne(r, inf, out, pos, blockType);
      if status != Done || final {
        return;
      }
    }
  }

  /** A whole call of tinfl_decompress, on any input. When it is done, exactly the bytes that hold the consumed bits
      have been taken. */
  method Decompress(r: BitReader, inf: Inflater, out: array<nat>) returns (status: Status, pos: nat)
    requires r.Valid() && inf.Shape() && out !in inf.Repr() && r.Remaining() == ByteBits(r.input)
    modifies r, out, inf.Repr()
    ensures r.Valid()
    ensures var e := Inflated(Place(ByteBits(r.input), old(out[..]), 0));
            && status == e.status && out[..] == e.place.out && pos == e.place.pos
            && (status == Done ==> 0 <= 8 * r.cur - (8 * |r.input| - |e.place.bits|) < 8)
    ensures status == Done ==> r.numBits == 0 && r.Remaining() == ByteBits(r.input[r.cur..])
  {
    hide Inflated, Bin, ByteBits;
    ByteBitsLength(r.input);
    r.RemainingSize();
    status, pos := Inflate(r, inf, out);
    if status == Done {
      r.RemainingSize();
      r.PutBack();
    }
  }
}
