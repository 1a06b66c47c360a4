/** The compressor's output: bits are collected low end first and leave as bytes. */
module BitWriter {
  import opened Sums
  import opened Bits
  import opened BitReader

  lemma {:induction false} ByteBitsAppend(a: seq<nat>, b: seq<nat>)
    ensures ByteBits(a + b) == ByteBits(a) + ByteBits(b)
  {
    hide Bin;
    if a == [] {
      assert a + b == b;
    } else {
      ByteBitsAppend(a[1..], b);
      assert (a + b)[1..] == a[1..] + b;
    }
  }

  lemma OneByte(x: nat)
    ensures ByteBits([x]) == Bin(x, 8)
  {
    assert [x][1..] == [];
  }

  lemma {:induction false} LowBitsBound(v: nat, k: nat)
    ensures LowBits(v, k) < Pow2(k)
  {
    if k > 0 {
      LowBitsBound(v / 2, k - 1);
    }
  }

  /** Emitting the low byte of the bit buffer keeps the bits written. */
  lemma EmitByte(out: seq<nat>, v: nat, n: nat)
    requires 8 <= n && v < Pow2(n)
    ensures LowBits(v, 8) < 256 && Shr(v, 8) < Pow2(n - 8)
    ensures ByteBits(out + [LowBits(v, 8)]) + Bin(Shr(v, 8), n - 8) == ByteBits(out) + Bin(v, n)
  {
    ByteRange();
    hide Pow2, Bin, Shr, LowBits, ByteBits, Val;
    LowBitsBound(v, 8);
    BinDrop(v, n, 8);
    ByteBitsAppend(out, [LowBits(v, 8)]);
    OneByte(LowBits(v, 8));
    BinVal(Bin(v, n)[..8], 8);
    var s := Bin(v, n);
    assert s == s[..8] + s[8..];
    assert ByteBits(out) + s[..8] + s[8..] == ByteBits(out) + (s[..8] + s[8..]);
  }

  class BitWriter {
    const capacity: nat
    var out: seq<nat>
    var bitBuffer: nat
    var bitsIn: nat

    ghost predicate Valid()
      reads this
    {
      && bitsIn < 8 && bitBuffer < Pow2(bitsIn) && |out| <= capacity
      && forall i :: 0 <= i < |out| ==> out[i] < 256
    }

    /** All bits put so far, unless the output buffer filled up. */
    ghost function Written(): seq<bool>
      reads this
    {
      ByteBits(out) + Bin(bitBuffer, bitsIn)
    }

    constructor (cap: nat)
      ensures Valid() && Written() == [] && capacity == cap && out == []
    {
      capacity := cap;
      out, bitBuffer, bitsIn := [], 0, 0;
    }

    /** TDEFL_PUT_BITS: appends the `len` low bits of `bits`. Bytes that do not fit the buffer are dropped,
        after which the buffer stays full. */
    method PutBits(bits: nat, len: nat)
      requires Valid() && len <= 16 && bits < Pow2(len)
      modifies this
      ensures Valid() && old(|out|) <= |out|
      ensures |out| < capacity ==> Written() == old(Written()) + Bin(bits, len)
      ensures |old(Written())| + len < 8 * (capacity + 1) ==> Written() == old(Written()) + Bin(bits, len)
      ensures |Written()| <= |old(Written())| + len
    {
      hide Pow2, Bin, ShiftLeft, Shr, LowBits, ByteBits;
      ByteBitsLength(out);
      BinConcat(bitBuffer, bitsIn, bits, len);
      ghost var target := old(Written()) + Bin(bits, len);
      assert ByteBits(out) + (Bin(bitBuffer, bitsIn) + Bin(bits, len)) == target;
      bitBuffer := bitBuffer + ShiftLeft(bits, bitsIn);
      bitsIn := bitsIn + len;
      while bitsIn >= 8
        invariant bitsIn <= 23 && bitBuffer < Pow2(bitsIn) && old(|out|) <= |out| <= capacity
        invariant forall i :: 0 <= i < |out| ==> out[i] < 256
        invariant |out| < capacity || Written() == target || |out| == capacity
        invariant |out| < capacity ==> Written() == target
        invariant |out| * 8 + bitsIn <= |target|
        invariant |target| < 8 * (capacity + 1) ==> Written() == target
      {
        EmitByte(out, bitBuffer, bitsIn);
        if |out| < capacity {
          out := out + [LowBits(bitBuffer, 8)];
        }
        bitBuffer := Shr(bitBuffer, 8);
        bitsIn := bitsIn - 8;
      }
      ByteBitsLength(out);
    }

    /** Output space that is not used up cannot have been exceeded. */
    lemma Fits()
      requires Valid() && |Written()| < 8 * capacity
      ensures |out| < capacity
    {
      ByteBitsLength(out);
    }

    /** Starts a new output buffer; bits that do not fill a byte are carried over. */
    method Restart()
      requires Valid() && capacity > 0
      modifies this`out
      ensures Valid() && out == [] && |Written()| < 8 && Written() == Bin(bitBuffer, bitsIn)
    {
      out := [];
    }

    /** Goes back to an earlier state of the output. */
    method Restore(o: seq<nat>, buffer: nat, bits: nat)
      requires |o| <= capacity && bits < 8 && buffer < Pow2(bits) && forall i :: 0 <= i < |o| ==> o[i] < 256
      modifies this
      ensures Valid() && out == o && bitBuffer == buffer && bitsIn == bits
    {
      out, bitBuffer, bitsIn := o, buffer, bits;
    }
  }
}
