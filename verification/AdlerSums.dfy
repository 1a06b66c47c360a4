/** The Adler-32 checksum, byte by byte (section 8.2 of RFC 1950), and what putting off the remainders changes. */
module AdlerSums {
  import opened Words

  const BASE: nat := 65521
  const WORD32: nat := 0x1_0000_0000

  datatype Sums = Sums(s1: nat, s2: nat)

  predicate Reduced(s: Sums) {
    s.s1 < BASE && s.s2 < BASE
  }

  function Packed(s: Sums): nat {
    s.s2 * 0x1_0000 + s.s1
  }

  function Unpacked(adler: nat): Sums {
    Sums(adler % 0x1_0000, adler / 0x1_0000)
  }

  /** One byte, both sums reduced. */
  function Step(s: Sums, x: Byte): Sums {
    Sums((s.s1 + x) % BASE, (s.s2 + (s.s1 + x) % BASE) % BASE)
  }

  /** The definition: every byte in turn. */
  function Fold(s: Sums, data: seq<Byte>): Sums {
    if data == [] then s else Step(Fold(s, data[..|data| - 1]), data[|data| - 1])
  }

  lemma {:induction false} FoldReduced(s: Sums, data: seq<Byte>)
    requires Reduced(s)
    ensures Reduced(Fold(s, data))
  {
    if data != [] {
      FoldReduced(s, data[..|data| - 1]);
    }
  }

  lemma {:induction false} FoldAppend(s: Sums, a: seq<Byte>, b: seq<Byte>)
    ensures Fold(s, a + b) == Fold(Fold(s, a), b)
  {
    hide Step;
    if b == [] {
      assert a + b == a;
    } else {
      assert (a + b)[..|a + b| - 1] == a + b[..|b| - 1];
      FoldAppend(s, a, b[..|b| - 1]);
    }
  }

  lemma FoldOne(s: Sums, data: seq<Byte>, i: nat)
    requires i < |data|
    ensures Fold(s, data[..i + 1]) == Step(Fold(s, data[..i]), data[i])
  {
    assert data[..i + 1][..i] == data[..i];
  }

  // ---------------------------------------------------------------- sums not yet reduced

  /** Unreduced sums that stand for these. */
  predicate Stands(s1: nat, s2: nat, s: Sums) {
    s1 % BASE == s.s1 && s2 % BASE == s.s2
  }

  lemma Plus(a: nat, b: nat)
    ensures (a % BASE + b) % BASE == (a + b) % BASE
    ensures (a + b % BASE) % BASE == (a + b) % BASE
  {
  }

  lemma StandsStep(s1: nat, s2: nat, s: Sums, x: Byte)
    requires Stands(s1, s2, s)
    ensures Stands(s1 + x, s2 + (s1 + x), Step(s, x))
  {
    Plus(s1, x);
    Plus(s2, s1 + x);
    Plus(s2 % BASE, s1 + x);
  }

  /** The largest the second sum can be after k bytes that follow a reduction. */
  function Bound(k: nat): nat {
    if k == 0 then BASE - 1 else Bound(k - 1) + (BASE - 1 + 255 * k)
  }

  lemma {:induction false} BoundMonotone(j: nat, k: nat)
    requires j <= k
    ensures Bound(j) <= Bound(k)
  {
    if j < k {
      BoundMonotone(j, k - 1);
    }
  }

  lemma {:induction false} BoundClosed(k: nat)
    ensures 2 * Bound(k) == 2 * (BASE - 1) * (k + 1) + 255 * k * (k + 1)
  {
    if k > 0 {
      BoundClosed(k - 1);
    }
  }

  const NMAX: nat := 5552

  /** NMAX is the largest number of bytes for which the sums of 32 bits cannot overflow. */
  lemma NmaxIsLargest(k: nat)
    ensures Bound(k) < WORD32 <==> k <= NMAX
    ensures k <= NMAX ==> BASE - 1 + 255 * k < WORD32
  {
    BoundClosed(NMAX);
    BoundClosed(NMAX + 1);
    if k <= NMAX {
      BoundMonotone(k, NMAX);
    } else {
      BoundMonotone(NMAX + 1, k);
    }
  }

  // ---------------------------------------------------------------- concatenation

  function Total(data: seq<Byte>): nat {
    if data == [] then 0 else Total(data[..|data| - 1]) + data[|data| - 1]
  }

  /** The sum of the first sums, from 0, without reduction. */
  function Running(data: seq<Byte>): nat {
    if data == [] then 0 else Running(data[..|data| - 1]) + Total(data)
  }

  /** x and y leave the same remainder. */
  predicate Same(x: int, y: int) {
    x % BASE == y % BASE
  }

  lemma SameSum(x: int, y: int, z: int)
    requires Same(x, y)
    ensures Same(x + z, y + z)
  {
  }

  lemma SameMultiple(x: int, q: int)
    ensures Same(x + BASE * q, x)
  {
  }

  lemma SameRemainder(n: nat)
    ensures Same(n % BASE, n)
  {
  }

  lemma {:induction false} FoldTotals(s: Sums, data: seq<Byte>)
    requires Reduced(s)
    ensures Same(Fold(s, data).s1, s.s1 + Total(data))
    ensures Same(Fold(s, data).s2, s.s2 + |data| * s.s1 + Running(data))
  {
    hide Same;
    if data == [] {
      SameRefl(s.s1);
      SameRefl(s.s2);
    } else {
      var init, x, n := data[..|data| - 1], data[|data| - 1], |data|;
      var f := Fold(s, init);
      FoldTotals(s, init);
      SameSum(f.s1, s.s1 + Total(init), x);
      SameRemainder(f.s1 + x);
      SameTrans((f.s1 + x) % BASE, f.s1 + x, s.s1 + Total(data));
      var g := Fold(s, data);
      assert g == Step(f, x);
      SameRemainder(f.s2 + g.s1);
      SameAdd(f.s2, s.s2 + (n - 1) * s.s1 + Running(init), g.s1, s.s1 + Total(data));
      SameTrans(g.s2, f.s2 + g.s1, s.s2 + (n - 1) * s.s1 + Running(init) + (s.s1 + Total(data)));
      Distribute(n, s.s1);
    }
  }

  lemma Distribute(n: nat, x: nat)
    ensures (n - 1) * x + x == n * x
  {
  }

  lemma SameRefl(x: int)
    ensures Same(x, x)
  {
  }

  lemma SameTrans(x: int, y: int, z: int)
    requires Same(x, y) && Same(y, z)
    ensures Same(x, z)
  {
  }

  lemma SameAdd(x: int, y: int, u: int, v: int)
    requires Same(x, y) && Same(u, v)
    ensures Same(x + u, y + v)
  {
    SameSum(x, y, u);
    SameSum(u, v, y);
  }

  const START: Sums := Sums(1, 0)

  /** The sums of a concatenation, from those of the parts and the length of the second. */
  function Combined(a: Sums, b: Sums, length: nat): Sums {
    var rem := length % BASE;
    Sums((a.s1 + b.s1 + (BASE - 1)) % BASE, (rem * a.s1 % BASE + (a.s2 + b.s2 + BASE - rem)) % BASE)
  }

  lemma CombinedFirst(a: Sums, t: int, b1: int)
    requires Same(b1, 1 + t)
    ensures Same(a.s1 + b1 + (BASE - 1), a.s1 + t)
  {
    SameSum(b1, 1 + t, a.s1 + (BASE - 1));
    SameMultiple(a.s1 + t, 1);
  }

  lemma TimesRemainder(n: nat, x: nat)
    ensures Same(n % BASE * x % BASE, n * x)
  {
    var q, r := n / BASE, n % BASE;
    assert n == BASE * q + r;
    assert n * x == r * x + BASE * (q * x);
    SameMultiple(r * x, q * x);
  }

  lemma CombinedSecond(a: Sums, t: int, b2: int, n: nat)
    requires Same(b2, n + t)
    ensures Same(n % BASE * a.s1 % BASE + (a.s2 + b2 + BASE - n % BASE), a.s2 + n * a.s1 + t)
  {
    hide Same;
    var m, rem := n % BASE * a.s1 % BASE, n % BASE;
    TimesRemainder(n, a.s1);
    SameSum(b2, n + t, BASE - rem);
    SameMultiple(t, n / BASE + 1);
    assert n + t + (BASE - rem) == t + BASE * (n / BASE + 1);
    SameTrans(b2 + (BASE - rem), n + t + (BASE - rem), t);
    SameAdd(m, n * a.s1, b2 + (BASE - rem), t);
    SameSum(m + (b2 + (BASE - rem)), n * a.s1 + t, a.s2);
  }

  /** Combining the checksums of two byte strings gives the checksum of the two together. */
  lemma CombineIsAppend(x: seq<Byte>, y: seq<Byte>)
    ensures Combined(Fold(START, x), Fold(START, y), |y|) == Fold(START, x + y)
  {
    hide Fold, Same;
    var a, b, whole := Fold(START, x), Fold(START, y), Fold(START, x + y);
    FoldReduced(START, x);
    FoldReduced(a, y);
    FoldAppend(START, x, y);
    FoldTotals(a, y);
    FoldTotals(START, y);
    CombinedFirst(a, Total(y), b.s1);
    CombinedSecond(a, Running(y), b.s2, |y|);
    SameReduced(a.s1 + b.s1 + (BASE - 1), a.s1 + Total(y), whole.s1);
    SameReduced(|y| % BASE * a.s1 % BASE + (a.s2 + b.s2 + BASE - |y| % BASE), a.s2 + |y| * a.s1 + Running(y), whole.s2);
  }

  lemma SameReduced(x: int, y: int, r: nat)
    requires Same(x, y) && Same(r, y) && r < BASE
    ensures x % BASE == r
  {
  }
}
