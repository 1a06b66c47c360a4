/** Bit strings in transmission order, and the integers that hold them. */
module Bits {
  import opened Sums

  function B(b: bool): (n: nat)
    ensures n <= 1
  {
    if b then 1 else 0
  }

  /** First bit least significant, as in the bit buffers. */
  function Val(s: seq<bool>): nat {
    if s == [] then 0 else B(s[0]) + 2 * Val(s[1..])
  }

  /** The n low bits of v, least significant first. */
  function Bin(v: nat, n: nat): (s: seq<bool>)
    ensures |s| == n
  {
    if n == 0 then [] else [v % 2 == 1] + Bin(v / 2, n - 1)
  }

  /** The n low bits of c, most significant first: the order in which a Huffman code is sent. */
  function Msb(c: nat, n: nat): (s: seq<bool>)
    ensures |s| == n
  {
    if n == 0 then [] else Msb(c / 2, n - 1) + [c % 2 == 1]
  }

  /** v << n */
  function ShiftLeft(v: nat, n: nat): nat {
    Pow2(n) * v
  }

  /** v & ((1 << n) - 1) */
  function LowBits(v: nat, n: nat): nat {
    if n == 0 then 0 else v % 2 + 2 * LowBits(v / 2, n - 1)
  }

  lemma {:induction false} ValBound(s: seq<bool>)
    ensures Val(s) < Pow2(|s|)
  {
    if s != [] {
      ValBound(s[1..]);
    }
  }

  lemma {:induction false} ValBin(v: nat, n: nat)
    requires v < Pow2(n)
    ensures Val(Bin(v, n)) == v
  {
    if n > 0 {
      ValBin(v / 2, n - 1);
      assert Bin(v, n)[1..] == Bin(v / 2, n - 1);
    }
  }

  lemma {:induction false} BinVal(s: seq<bool>, n: nat)
    requires n == |s|
    ensures Bin(Val(s), n) == s
  {
    if s != [] {
      BinVal(s[1..], n - 1);
      assert Val(s) / 2 == Val(s[1..]) && Val(s) % 2 == B(s[0]);
      assert s == [s[0]] + s[1..];
    }
  }

  lemma {:induction false} ValAppend(s: seq<bool>, t: seq<bool>)
    ensures Val(s + t) == Val(s) + Pow2(|s|) * Val(t)
  {
    if s == [] {
      assert s + t == t;
    } else {
      ValAppend(s[1..], t);
      assert (s + t)[1..] == s[1..] + t;
      DoubleProduct(Pow2(|s| - 1), Val(t));
    }
  }

  lemma DoubleProduct(p: nat, v: nat)
    ensures 2 * (p * v) == 2 * p * v
  {
  }

  lemma Twice(x: nat, e: nat)
    ensures x * Pow2(e + 1) == 2 * (x * Pow2(e))
  {
    DoubleProduct(x, Pow2(e));
  }

  /** A value splits into its low bits and the rest. */
  lemma {:induction false} ValSplit(s: seq<bool>, k: nat)
    requires k <= |s|
    ensures Val(s) % Pow2(k) == Val(s[..k]) && Val(s) / Pow2(k) == Val(s[k..])
  {
    assert s == s[..k] + s[k..];
    ValAppend(s[..k], s[k..]);
    ValBound(s[..k]);
    DivModUnique(Val(s), Pow2(k), Val(s[k..]), Val(s[..k]));
  }

  lemma DivModUnique(x: nat, d: nat, q: nat, r: nat)
    requires d > 0 && x == r + d * q && r < d
    ensures x / d == q && x % d == r
  {
    var q', r' := x / d, x % d;
    assert x == q' * d + r';
    if q' < q {
      MulStep(q', q, d);
    } else if q < q' {
      MulStep(q, q', d);
    }
  }

  lemma MulStep(a: nat, b: nat, d: nat)
    requires a < b
    ensures a * d + d <= b * d
  {
    assert (b - a - 1) * d >= 0;
    assert b * d == (b - a - 1) * d + a * d + d;
  }

  lemma {:induction false} ValInjective(s: seq<bool>, t: seq<bool>)
    requires |s| == |t| && Val(s) == Val(t)
    ensures s == t
  {
    BinVal(s, |s|);
    BinVal(t, |t|);
  }

  /** c >> k */
  function Shr(c: nat, k: nat): nat {
    if k == 0 then c else Shr(c / 2, k - 1)
  }

  lemma {:induction false} MsbPrefix(c: nat, n: nat, k: nat)
    requires k <= n
    ensures Msb(c, n)[..n - k] == Msb(Shr(c, k), n - k)
    decreases k
  {
    if k > 0 {
      MsbPrefix(c / 2, n - 1, k - 1);
      assert Msb(c, n)[..n - 1] == Msb(c / 2, n - 1);
      assert Msb(c, n)[..n - k] == Msb(c, n)[..n - 1][..n - k];
    }
  }

  lemma {:induction false} MsbInjective(a: nat, b: nat, n: nat)
    requires a < Pow2(n) && b < Pow2(n) && Msb(a, n) == Msb(b, n)
    ensures a == b
  {
    if n > 0 {
      var s, t := Msb(a, n), Msb(b, n);
      assert s[..n - 1] == Msb(a / 2, n - 1) && t[..n - 1] == Msb(b / 2, n - 1);
      assert s[n - 1] == (a % 2 == 1) && t[n - 1] == (b % 2 == 1);
      MsbInjective(a / 2, b / 2, n - 1);
    }
  }

  lemma {:induction false} ShrBound(c: nat, n: nat, k: nat)
    requires k <= n && c < Pow2(n)
    ensures Shr(c, k) < Pow2(n - k)
    decreases k
  {
    if k > 0 {
      ShrBound(c / 2, n - 1, k - 1);
    }
  }

  lemma {:induction false} ShrBin(v: nat, n: nat, k: nat)
    requires k <= n
    ensures Bin(Shr(v, k), n - k) == Bin(v, n)[k..]
    decreases k
  {
    if k > 0 {
      ShrBin(v / 2, n - 1, k - 1);
      assert Bin(v, n)[k..] == Bin(v / 2, n - 1)[k - 1..];
    }
  }

  lemma {:induction false} LowBitsBin(v: nat, n: nat, k: nat)
    requires k <= n
    ensures LowBits(v, k) == Val(Bin(v, n)[..k])
    decreases k
  {
    if k > 0 {
      LowBitsBin(v / 2, n - 1, k - 1);
      assert Bin(v, n)[..k][1..] == Bin(v / 2, n - 1)[..k - 1];
    }
  }

  /** (v >> k) & 1 is bit k. */
  lemma {:induction false} ShrBit(v: nat, n: nat, k: nat)
    requires k < n
    ensures Shr(v, k) % 2 == B(Bin(v, n)[k])
    decreases k
  {
    if k > 0 {
      ShrBit(v / 2, n - 1, k - 1);
    }
  }

  lemma DivMod(x: nat, d: nat) returns (q: nat, r: nat)
    requires d > 0
    ensures x == d * q + r && r < d && r == x % d
  {
    q, r := x / d, x % d;
  }

  lemma HalfMod(v: nat, m: nat)
    requires m > 0
    ensures v % (2 * m) == v % 2 + 2 * (v / 2 % m)
  {
    var t, r := DivMod(v / 2, m);
    DoubleProduct(m, t);
    DivModUnique(v, 2 * m, t, 2 * r + v % 2);
  }

  lemma {:induction false} LowBitsMod(v: nat, n: nat)
    ensures LowBits(v, n) == v % Pow2(n)
  {
    if n == 0 {
      assert Pow2(0) == 1;
    } else {
      LowBitsMod(v / 2, n - 1);
      HalfMod(v, Pow2(n - 1));
    }
  }
}
