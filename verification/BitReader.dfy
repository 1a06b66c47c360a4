/** The decoder's view of its input: a bit buffer that is refilled a byte at a time, low bits first. */
module BitReader {
  import opened Sums
  import opened Bits

  const BUFFER_BITS := 32

  ghost function ByteBits(bs: seq<nat>): seq<bool> {
    if bs == [] then [] else Bin(bs[0], 8) + ByteBits(bs[1..])
  }

  lemma BinConcat(a: nat, n: nat, b: nat, m: nat)
    requires a < Pow2(n) && b < Pow2(m)
    ensures Bin(a + ShiftLeft(b, n), n + m) == Bin(a, n) + Bin(b, m)
    ensures a + ShiftLeft(b, n) < Pow2(n + m)
  {
    var s := Bin(a, n) + Bin(b, m);
    ValAppend(Bin(a, n), Bin(b, m));
    ValBin(a, n);
    ValBin(b, m);
    BinVal(s, n + m);
    ValBound(s);
  }

  lemma BinDrop(v: nat, n: nat, k: nat)
    requires v < Pow2(n) && k <= n
    ensures Bin(Shr(v, k), n - k) == Bin(v, n)[k..] && Shr(v, k) < Pow2(n - k)
    ensures LowBits(v, k) == Val(Bin(v, n)[..k])
  {
    ShrBin(v, n, k);
    ShrBound(v, n, k);
    LowBitsBin(v, n, k);
  }

  /** Bits above the value are zero. */
  lemma {:induction false} BinExtend(v: nat, n: nat, m: nat)
    requires n <= m
    ensures Bin(v, m)[..n] == Bin(v, n)
  {
    if n > 0 {
      BinExtend(v / 2, n - 1, m - 1);
      assert Bin(v, m)[..n] == [v % 2 == 1] + Bin(v / 2, m - 1)[..n - 1];
    }
  }

  lemma MoveByte(v: nat, n: nat, bs: seq<nat>)
    requires v < Pow2(n) && bs != [] && bs[0] < 256
    ensures Bin(v + ShiftLeft(bs[0], n), n + 8) + ByteBits(bs[1..]) == Bin(v, n) + ByteBits(bs)
    ensures Bin(v + ShiftLeft(bs[0], n), n + 8)[..n] == Bin(v, n) && v + ShiftLeft(bs[0], n) < Pow2(n + 8)
  {
    hide Pow2, Bin, ShiftLeft;
    ByteRange();
    BinConcat(v, n, bs[0], 8);
  }

  lemma ByteRange()
    ensures Pow2(8) == 256
  {
    assert Pow2(3) == 8;
  }

  lemma DropFront(s: seq<bool>, t: seq<bool>, n: nat)
    requires n <= |s|
    ensures (s + t)[n..] == s[n..] + t
  {
  }

  class BitReader {
    const input: seq<nat>
    var cur: nat
    var bitBuf: nat
    var numBits: nat

    ghost predicate Valid()
      reads this
    {
      && cur <= |input| && numBits <= BUFFER_BITS && bitBuf < Pow2(numBits)
      && forall i :: 0 <= i < |input| ==> input[i] < 256
    }

    /** The bits not yet consumed. */
    ghost function Remaining(): seq<bool>
      reads this
      requires cur <= |input|
    {
      Bin(bitBuf, numBits) + ByteBits(input[cur..])
    }

    /** How many bits are left. */
    ghost function Left(): nat
      reads this
      requires cur <= |input|
    {
      numBits + 8 * (|input| - cur)
    }

    constructor (bytes: seq<nat>)
      requires forall i :: 0 <= i < |bytes| ==> bytes[i] < 256
      ensures Valid() && Remaining() == ByteBits(bytes) && input == bytes && numBits == 0
    {
      input := bytes;
      cur, bitBuf, numBits := 0, 0, 0;
      new;
      assert bytes[0..] == bytes;
    }

    /** Moves one input byte into the bit buffer. */
    method TakeByte()
      requires Valid() && cur < |input| && numBits + 8 <= BUFFER_BITS
      modifies this
      ensures Valid() && Remaining() == old(Remaining())
      ensures numBits == old(numBits) + 8 && cur == old(cur) + 1
      ensures Bin(bitBuf, numBits)[..old(numBits)] == old(Bin(bitBuf, numBits))
    {
      hide Pow2, Bin, ByteBits, ShiftLeft, Shr;
      MoveByte(bitBuf, numBits, input[cur..]);
      assert input[cur..][1..] == input[cur + 1..];
      bitBuf := bitBuf + ShiftLeft(input[cur], numBits);
      numBits := numBits + 8;
      cur := cur + 1;
    }

    /** Drops `n` bits that are in the buffer. */
    method Drop(n: nat)
      requires Valid() && n <= numBits
      modifies this
      ensures Valid() && Remaining() == old(Remaining())[n..]
      ensures numBits == old(numBits) - n && cur == old(cur)
    {
      hide Pow2, Bin, ByteBits, ShiftLeft, Shr;
      BinDrop(bitBuf, numBits, n);
      DropFront(Bin(bitBuf, numBits), ByteBits(input[cur..]), n);
      bitBuf := Shr(bitBuf, n);
      numBits := numBits - n;
    }

    /** TINFL_GET_BITS: reads an n-bit number, or reports that the input ends before it. */
    method GetBits(n: nat) returns (ok: bool, b: nat)
      requires Valid() && n <= 16
      modifies this
      ensures Valid()
      ensures ok <==> n <= |old(Remaining())|
      ensures ok ==> b == Val(old(Remaining())[..n]) && Remaining() == old(Remaining())[n..]
      ensures !ok ==> Remaining() == old(Remaining())
      ensures Left() == if ok then old(Left()) - n else old(Left())
    {
      hide Pow2, Bin, LowBits;
      b := 0;
      while numBits < n
        invariant Valid() && Remaining() == old(Remaining()) && Left() == old(Left())
        decreases |input| - cur
      {
        if cur >= |input| {
          assert |Remaining()| == numBits;
          ok := false;
          return;
        }
        TakeByte();
      }
      ok := true;
      BinDrop(bitBuf, numBits, n);
      assert Remaining()[..n] == Bin(bitBuf, numBits)[..n];
      b := LowBits(bitBuf, n);
      Drop(n);
    }

    /** The length of what remains, in terms of the buffer. */
    lemma RemainingSize()
      requires Valid()
      ensures |Remaining()| == Left() == numBits + 8 * (|input| - cur)
    {
      ByteBitsLength(input[cur..]);
    }

    /** Reads a byte on a byte boundary: through the bit buffer if it holds bits, else directly. */
    method GetByte() returns (ok: bool, b: nat)
      requires Valid()
      modifies this
      ensures Valid()
      ensures ok <==> 8 <= |old(Remaining())|
      ensures ok ==> b == Val(old(Remaining())[..8]) && b < 256 && Remaining() == old(Remaining())[8..]
      ensures !ok ==> Remaining() == old(Remaining())
      ensures old(numBits) % 8 == 0 && ok ==> numBits % 8 == 0
      ensures old(numBits) == 0 ==> numBits == 0
      ensures Left() == if ok then old(Left()) - 8 else old(Left())
    {
      hide Pow2, Bin, Val, ByteBits;
      RemainingSize();
      ByteRange();
      if 8 <= |Remaining()| {
        ValBound(Remaining()[..8]);
      }
      if numBits != 0 {
        ghost var size, n := |Remaining()|, numBits;
        ok, b := GetBits(8);
        RemainingSize();
      } else {
        b := 0;
        ok := cur < |input|;
        if ok {
          NextByte(bitBuf, input[cur..]);
          assert input[cur..][1..] == input[cur + 1..];
          b := input[cur];
          cur := cur + 1;
        }
      }
    }

    /** The end of tinfl_decompress: skips to a byte boundary and puts the whole bytes that were read ahead back, so
        that exactly the bytes that hold the consumed bits have been taken. */
    method PutBack()
      requires Valid() && Left() <= 8 * |input|
      modifies this
      ensures Valid() && numBits == 0 && Remaining() == ByteBits(input[cur..])
      ensures 8 * |input| - old(Left()) <= 8 * cur < 8 * |input| - old(Left()) + 8
    {
      hide Bin, ByteBits, LowBits, Shr, Pow2;
      Drop(numBits % 8);
      ghost var taken := 8 * cur - numBits;
      while cur > 0 && numBits >= 8
        invariant 0 <= cur <= |input| && 0 <= numBits && 8 * cur - numBits == taken >= 0 && numBits % 8 == 0
        decreases cur
      {
        cur := cur - 1;
        numBits := numBits - 8;
      }
      assert numBits == 0;
      NothingBuffered(bitBuf, input, cur);
      bitBuf := LowBits(bitBuf, numBits);
    }
  }

  lemma {:induction false} ByteBitsLength(bs: seq<nat>)
    ensures |ByteBits(bs)| == 8 * |bs|
  {
    if bs != [] {
      ByteBitsLength(bs[1..]);
    }
  }

  lemma NothingBuffered(v: nat, bs: seq<nat>, k: nat)
    requires k <= |bs|
    ensures LowBits(v, 0) == 0 < Pow2(0) && Bin(LowBits(v, 0), 0) + ByteBits(bs[k..]) == ByteBits(bs[k..])
  {
  }

  lemma NextByte(v: nat, bs: seq<nat>)
    requires bs != [] && bs[0] < 256
    ensures |Bin(v, 0) + ByteBits(bs)| >= 8 && bs[0] == Val((Bin(v, 0) + ByteBits(bs))[..8])
    ensures (Bin(v, 0) + ByteBits(bs))[8..] == Bin(v, 0) + ByteBits(bs[1..])
  {
    ByteRange();
    ValBin(bs[0], 8);
    hide Val, Pow2;
    var s, t := Bin(bs[0], 8), ByteBits(bs[1..]);
    assert Bin(v, 0) == [];
    hide Bin;
    assert ByteBits(bs) == s + t;
    assert Bin(v, 0) + ByteBits(bs) == s + t;
    assert (s + t)[..8] == s;
  }
}
