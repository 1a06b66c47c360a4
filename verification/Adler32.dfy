/** Three implementations of the checksum that put off the remainders, each in unsigned words of 32 bits. */
module Adler32 {
  import opened Words
  import opened AdlerSums

  /** How far the sums can have grown, k bytes after both were reduced. */
  predicate Grown(s1: nat, s2: nat, k: nat) {
    s1 <= BASE - 1 + 255 * k && s2 <= Bound(k)
  }

  /** A run of bytes added without a remainder, as the unrolled macros and loops do. */
  method AddBytes(data: seq<Byte>, from: nat, count: nat, a: nat, b: nat, ghost s: Sums, ghost k: nat)
    returns (s1: nat, s2: nat)
    requires from + count <= |data| && Stands(a, b, Fold(s, data[..from])) && Grown(a, b, k) && k + count <= NMAX
    ensures Stands(s1, s2, Fold(s, data[..from + count])) && Grown(s1, s2, k + count) && s1 < WORD32 && s2 < WORD32
  {
    hide Stands, Fold, Step;
    s1, s2 := a, b;
    NmaxIsLargest(k);
    for i := 0 to count
      invariant Stands(s1, s2, Fold(s, data[..from + i])) && Grown(s1, s2, k + i) && s1 < WORD32 && s2 < WORD32
    {
      StandsStep(s1, s2, Fold(s, data[..from + i]), data[from + i]);
      FoldOne(s, data, from + i);
      NmaxIsLargest(k + i + 1);
      s1 := s1 + data[from + i];
      assert s1 < WORD32;
      s2 := s2 + s1;
      assert s2 < WORD32;
    }
  }

  lemma Reduce(s1: nat, s2: nat, s: Sums)
    requires Stands(s1, s2, s)
    ensures Stands(s1 % BASE, s2 % BASE, s) && Sums(s1 % BASE, s2 % BASE) == s && Grown(s1 % BASE, s2 % BASE, 0)
  {
  }

  /** Unsigned subtraction instead of the remainder. */
  lemma SubtractOnce(x: nat)
    requires x < 2 * BASE
    ensures (if x >= BASE then x - BASE else x) == x % BASE
  {
  }

  /** urb_adler32 */
  method UrbAdler32(adler: nat, data: seq<Byte>) returns (r: nat)
    requires Reduced(Unpacked(adler)) && |data| < WORD32
    ensures r == Packed(Fold(Unpacked(adler), data)) && r < WORD32
  {
    hide Fold, Stands, Bound;
    ghost var start := Unpacked(adler);
    FoldReduced(start, data);
    FoldNothing(start, data);
    var s1: nat, s2: nat := adler % 0x1_0000, adler / 0x1_0000;
    StandsReduced(start);
    assert data[..|data|] == data;
    if |data| == 1 {
      s1, s2 := AddOne(data[0], s1, s2);
      FoldOne(start, data, 0);
      return Packed(Sums(s1, s2));
    }
    if |data| < 16 {
      s1, s2 := AddBytes(data, 0, |data|, s1, s2, start, 0);
      Reduce(s1, s2, Fold(start, data));
      SubtractOnce(s1);
      if s1 >= BASE {
        s1 := s1 - BASE;
      }
      s2 := s2 % BASE;
      return Packed(Sums(s1, s2));
    }
    var pos: nat := 0;
    while |data| - pos >= NMAX
      invariant pos <= |data| && Stands(s1, s2, Fold(start, data[..pos])) && Grown(s1, s2, 0)
    {
      var n: nat := NMAX / 16;
      ghost var from: nat := pos;
      while n > 0
        invariant n <= NMAX / 16 && pos == from + NMAX - 16 * n
        invariant Stands(s1, s2, Fold(start, data[..pos])) && Grown(s1, s2, pos - from)
      {
        s1, s2 := AddBytes(data, pos, 16, s1, s2, start, pos - from);
        pos := pos + 16;
        n := n - 1;
      }
      Reduce(s1, s2, Fold(start, data[..pos]));
      s1, s2 := s1 % BASE, s2 % BASE;
    }
    if pos < |data| {
      ghost var from: nat := pos;
      while |data| - pos >= 16
        invariant from <= pos <= |data| && pos - from <= NMAX
        invariant Stands(s1, s2, Fold(start, data[..pos])) && Grown(s1, s2, pos - from)
      {
        s1, s2 := AddBytes(data, pos, 16, s1, s2, start, pos - from);
        pos := pos + 16;
      }
      s1, s2 := AddBytes(data, pos, |data| - pos, s1, s2, start, pos - from);
      Reduce(s1, s2, Fold(start, data));
      s1, s2 := s1 % BASE, s2 % BASE;
      return Packed(Sums(s1, s2));
    }
    GrownZero(s1, s2, Fold(start, data));
    return Packed(Sums(s1, s2));
  }

  lemma FoldNothing(s: Sums, data: seq<Byte>)
    ensures Fold(s, data[..0]) == s
  {
  }

  lemma StandsReduced(s: Sums)
    requires Reduced(s)
    ensures Stands(s.s1, s.s2, s) && Grown(s.s1, s.s2, 0)
  {
  }

  lemma GrownZero(s1: nat, s2: nat, s: Sums)
    requires Stands(s1, s2, s) && Grown(s1, s2, 0)
    ensures s == Sums(s1, s2)
  {
  }

  /** The shortcut for a single byte. */
  method AddOne(x: Byte, a: nat, b: nat) returns (s1: nat, s2: nat)
    requires Reduced(Sums(a, b))
    ensures Sums(s1, s2) == Step(Sums(a, b), x)
  {
    s1 := a + x;
    if s1 >= BASE {
      s1 := s1 - BASE;
    }
    s2 := b + s1;
    if s2 >= BASE {
      s2 := s2 - BASE;
    }
  }

  /** urb_adler32_combine; the sums fit 32 bits throughout. */
  method UrbAdler32Combine(adler1: nat, adler2: nat, len2: nat) returns (r: nat)
    requires Reduced(Unpacked(adler1)) && Reduced(Unpacked(adler2)) && len2 < WORD32
    ensures r == Packed(Combined(Unpacked(adler1), Unpacked(adler2), len2))
  {
    hide Packed;
    var rem: nat := len2 % BASE;
    var sum1: nat := adler1 % 0x1_0000;
    ProductFits(rem, sum1);
    var sum2: nat := rem * sum1;
    assert sum2 < WORD32;
    sum2 := sum2 % BASE;
    sum1 := sum1 + (adler2 % 0x1_0000 + BASE - 1);
    sum2 := sum2 + (adler1 / 0x1_0000 + adler2 / 0x1_0000 + BASE - rem);
    r := Packed(Sums(Reduced3(sum1), Reduced4(sum2)));
  }

  /** The subtractions that replace the remainder of a sum below 3 * BASE... */
  function Reduced3(sum: nat): (r: nat)
    requires sum < 3 * BASE
    ensures r == sum % BASE
  {
    var once := if sum >= BASE then sum - BASE else sum;
    if once >= BASE then once - BASE else once
  }

  /** ... and below 4 * BASE. */
  function Reduced4(sum: nat): (r: nat)
    requires sum < 4 * BASE
    ensures r == sum % BASE
  {
    var once := if sum >= 2 * BASE then sum - 2 * BASE else sum;
    if once >= BASE then once - BASE else once
  }

  lemma ProductFits(x: nat, y: nat)
    requires x < BASE && y < BASE
    ensures 0 <= x * y < WORD32
  {
    ProductBound(x, y, BASE - 1);
    ProductBound(y, BASE - 1, BASE - 1);
  }

  lemma ProductBound(x: nat, y: nat, c: nat)
    requires x <= c
    ensures 0 <= x * y <= c * y
  {
  }

  /** The checksums of two byte strings, computed apart and combined, make the checksum of both together. */
  method ChecksumOfParts(x: seq<Byte>, y: seq<Byte>) returns (r: nat)
    requires |x| < WORD32 && |y| < WORD32
    ensures r == Packed(Fold(START, x + y))
  {
    assert Unpacked(1) == START;
    FoldReduced(START, x);
    FoldReduced(START, y);
    CombineIsAppend(x, y);
    hide Fold, Combined;
    var a := UrbAdler32(1, x);
    var b := UrbAdler32(1, y);
    UnpackedPacked(Fold(START, x));
    UnpackedPacked(Fold(START, y));
    r := UrbAdler32Combine(a, b, |y|);
  }

  lemma UnpackedPacked(s: Sums)
    requires Reduced(s)
    ensures Unpacked(Packed(s)) == s
  {
  }

  /** mz_adler32: the odd-sized block first, then blocks of 5552 bytes. */
  method MzAdler32(adler: nat, data: seq<Byte>) returns (r: nat)
    requires Reduced(Unpacked(adler))
    ensures r == Packed(Fold(Unpacked(adler), data))
  {
    hide Fold, Stands, Bound;
    ghost var start := Unpacked(adler);
    FoldNothing(start, data);
    var s1: nat, s2: nat := adler % 0x1_0000, adler / 0x1_0000;
    StandsReduced(start);
    assert data[..|data|] == data;
    var bufLen: nat := |data|;
    var blockLen: nat := bufLen % 5552;
    while bufLen > 0
      invariant bufLen <= |data| && Stands(s1, s2, Fold(start, data[..|data| - bufLen])) && Grown(s1, s2, 0)
      invariant blockLen == bufLen % 5552 || (blockLen == 5552 && bufLen % 5552 == 0)
      decreases bufLen, 5552 - blockLen
    {
      var pos: nat, i: nat := |data| - bufLen, 0;
      assert blockLen <= bufLen;
      while i + 7 < blockLen
        invariant i <= blockLen && Stands(s1, s2, Fold(start, data[..pos + i])) && Grown(s1, s2, i)
      {
        s1, s2 := AddBytes(data, pos + i, 8, s1, s2, start, i);
        i := i + 8;
      }
      s1, s2 := AddBytes(data, pos + i, blockLen - i, s1, s2, start, i);
      Reduce(s1, s2, Fold(start, data[..pos + blockLen]));
      s1, s2 := s1 % BASE, s2 % BASE;
      bufLen := bufLen - blockLen;
      blockLen := 5552;
    }
    GrownZero(s1, s2, Fold(start, data));
    r := Packed(Sums(s1, s2));
  }

  // ---------------------------------------------------------------- the hash class

  /** At most this much is added to the second sum by a byte, while the first one is below BASE every eight bytes. */
  const MOST: nat := BASE - 1 + 8 * 255

  /** Between two remainders of the second sum lie at most 0x8000 bytes. */
  predicate Bounded(s1: nat, s2: nat, length: nat) {
    s1 < BASE && if length % 0x8000 == 0 then s2 < BASE else s2 <= BASE - 1 + MOST * (0x8000 - length % 0x8000)
  }

  class Adler32Hash {
    var m_s1: nat
    var m_s2: nat

    ghost predicate Valid()
      reads this
    {
      Reduced(Sums(m_s1, m_s2))
    }

    constructor ()
      ensures Valid() && Sums(m_s1, m_s2) == START
    {
      m_s1, m_s2 := 1, 0;
    }

    /** The odd bytes first, then eight at a time. */
    method Update(input: seq<Byte>)
      requires Valid()
      modifies this
      ensures Valid() && Sums(m_s1, m_s2) == Fold(old(Sums(m_s1, m_s2)), input)
    {
      hide Fold, Stands, Bound, Bounded;
      ghost var start := Sums(m_s1, m_s2);
      var s1: nat, s2: nat := m_s1, m_s2;
      var pos: nat := 0;
      var length: nat := |input|;
      FoldNothing(start, input);
      StandsReduced(start);
      assert input[..|input|] == input;
      if length % 8 != 0 {
        pos := length % 8;
        length := length - pos;
        s1, s2 := AddBytes(input, 0, pos, s1, s2, start, 0);
        SubtractOnce(s1);
        Reduce(s1, s2, Fold(start, input[..pos]));
        if s1 >= BASE {
          s1 := s1 - BASE;
        }
        s2 := s2 % BASE;
      }
      StartBounded(s1, s2, length);
      while length > 0
        invariant pos + length == |input| && length % 8 == 0
        invariant Stands(s1, s2, Fold(start, input[..pos])) && Bounded(s1, s2, length)
      {
        s1, s2 := AddEight(input, pos, s1, s2, start, length);
        length := length - 8;
        pos := pos + 8;
      }
      EndBounded(s1, s2);
      StandsAll(s1, s2, Fold(start, input));
      m_s1, m_s2 := s1, s2;
    }
  }

  lemma StartBounded(s1: nat, s2: nat, length: nat)
    requires s1 < BASE && s2 < BASE
    ensures Bounded(s1, s2, length)
  {
  }

  lemma EndBounded(s1: nat, s2: nat)
    requires Bounded(s1, s2, 0)
    ensures s1 < BASE && s2 < BASE
  {
  }

  lemma StandsAll(s1: nat, s2: nat, s: Sums)
    requires Stands(s1, s2, s) && s1 < BASE && s2 < BASE
    ensures Sums(s1, s2) == s
  {
  }

  /** Eight bytes of the main loop, and the two remainders after them. */
  method AddEight(input: seq<Byte>, from: nat, a: nat, b: nat, ghost s: Sums, length: nat) returns (s1: nat, s2: nat)
    requires from + 8 <= |input| && 8 <= length && length % 8 == 0
    requires Stands(a, b, Fold(s, input[..from])) && Bounded(a, b, length)
    ensures Stands(s1, s2, Fold(s, input[..from + 8])) && Bounded(s1, s2, length - 8)
  {
    hide Stands, Fold, Step;
    s1, s2 := a, b;
    BoundedFits(a, b, length);
    for i := 0 to 8
      invariant Stands(s1, s2, Fold(s, input[..from + i])) && s1 <= a + 255 * i && s2 <= b + MOST * i
      invariant s1 < WORD32 && s2 < WORD32
    {
      StandsStep(s1, s2, Fold(s, input[..from + i]), input[from + i]);
      FoldOne(s, input, from + i);
      s1 := s1 + input[from + i];
      s2 := s2 + s1;
      assert s1 < WORD32 && s2 < WORD32;
    }
    SubtractOnce(s1);
    ghost var t := Fold(s, input[..from + 8]);
    Reduce(s1, s2, t);
    ReduceFirst(s1, s2, t);
    if s1 >= BASE {
      s1 := s1 - BASE;
    }
    if (length - 8) % 0x8000 == 0 {
      s2 := s2 % BASE;
    }
  }

  lemma BoundedFits(s1: nat, s2: nat, length: nat)
    requires Bounded(s1, s2, length) && length >= 8 && length % 8 == 0
    ensures s1 < BASE && s2 + 8 * MOST < WORD32
    ensures (length - 8) % 0x8000 != 0 ==> s2 + 8 * MOST <= BASE - 1 + MOST * (0x8000 - (length - 8) % 0x8000)
  {
  }

  lemma ReduceFirst(s1: nat, s2: nat, s: Sums)
    requires Stands(s1, s2, s)
    ensures Stands(s1 % BASE, s2, s)
  {
  }
}
