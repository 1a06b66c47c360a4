/** The modulus of Adler-32, and checksums known as numbers. */
module AdlerModulus {
  import opened Words
  import opened AdlerSums

  predicate Divides(d: nat, n: nat) {
    d > 0 && n % d == 0
  }

  ghost predicate Prime(n: nat) {
    n > 1 && forall d: nat :: 1 < d < n ==> !Divides(d, n)
  }

  /** None of the eight numbers from d on divides n. */
  predicate NoneOfEight(n: nat, d: nat) {
    && !Divides(d, n) && !Divides(d + 1, n) && !Divides(d + 2, n) && !Divides(d + 3, n) && !Divides(d + 4, n)
    && !Divides(d + 5, n) && !Divides(d + 6, n) && !Divides(d + 7, n)
  }

  /** Nor does any in this many groups of eight. */
  predicate NoDivisor(n: nat, from: nat, groups: nat)
    decreases groups
  {
    groups == 0 || (NoneOfEight(n, from) && NoDivisor(n, from + 8, groups - 1))
  }

  lemma {:induction false} NoDivisorAt(n: nat, from: nat, groups: nat, d: nat)
    requires NoDivisor(n, from, groups) && from <= d < from + 8 * groups
    ensures !Divides(d, n)
    decreases groups
  {
    hide Divides;
    if d < from + 8 {
      var k := d - from;
      assert k == 0 || k == 1 || k == 2 || k == 3 || k == 4 || k == 5 || k == 6 || k == 7;
    } else {
      NoDivisorAt(n, from + 8, groups - 1, d);
    }
  }

  lemma Below66()
    ensures NoDivisor(65521, 2, 8)
  {
  }

  lemma Below130()
    ensures NoDivisor(65521, 66, 8)
  {
  }

  lemma Below194()
    ensures NoDivisor(65521, 130, 8)
  {
  }

  lemma Below258()
    ensures NoDivisor(65521, 194, 8)
  {
  }

  lemma UpToRoot(d: nat)
    requires 1 < d < 256
    ensures !Divides(d, BASE)
  {
    hide NoDivisor, Divides;
    if d < 66 {
      Below66();
      NoDivisorAt(BASE, 2, 8, d);
    } else if d < 130 {
      Below130();
      NoDivisorAt(BASE, 66, 8, d);
    } else if d < 194 {
      Below194();
      NoDivisorAt(BASE, 130, 8, d);
    } else {
      Below258();
      NoDivisorAt(BASE, 194, 8, d);
    }
  }

  /** Of a divisor and the quotient, one is below the root. */
  lemma Cofactor(n: nat, d: nat)
    requires 256 <= d < n < 0x1_0000 && Divides(d, n)
    ensures 1 < n / d < 256 && Divides(n / d, n)
  {
    var q: nat := n / d;
    assert n == q * d by {
      Quotient(n, d);
    }
    if q >= 256 {
      ProductAtLeast(q, d);
    }
    MultipleOf(q, d);
  }

  lemma Quotient(n: nat, d: nat)
    requires Divides(d, n)
    ensures n == n / d * d && (d < n ==> n / d > 1)
  {
  }

  lemma ProductAtLeast(q: nat, d: nat)
    requires q >= 256 && d >= 256
    ensures q * d >= 0x1_0000
  {
    assert q * d >= 256 * d;
  }

  lemma MultipleOf(q: int, d: int)
    requires q > 0 && d >= 0
    ensures q * d >= 0 && Divides(q, q * d)
  {
    Zeroes(q, d);
    var k, r := q * d / q, q * d % q;
    assert q * (d - k) == r;
    AtLeastOnce(q, d - k);
  }

  lemma Zeroes(q: int, d: int)
    requires q >= 0 && d >= 0
    ensures q * d >= 0
  {
  }

  lemma AtLeastOnce(q: int, x: int)
    requires q >= 0
    ensures (x >= 1 ==> q * x >= q) && (x <= -1 ==> q * x <= -q)
  {
  }

  lemma NoProperDivisor(d: nat)
    requires 1 < d < BASE
    ensures !Divides(d, BASE)
  {
    hide Divides;
    if d < 256 {
      UpToRoot(d);
    } else if Divides(d, BASE) {
      Cofactor(BASE, d);
      UpToRoot(BASE / d);
    }
  }

  lemma HasDivisor(n: nat)
    requires BASE < n < 0x1_0000
    ensures Divides(2, n) || Divides(3, n) || Divides(5, n) || Divides(7, n) || Divides(13, n) || Divides(19, n)
  {
  }

  /** The modulus is the largest prime below 2^16. */
  lemma BaseIsLargestPrime(n: nat)
    requires n < 0x1_0000
    ensures Prime(BASE) && (Prime(n) ==> n <= BASE)
  {
    hide Divides;
    forall d: nat | 1 < d < BASE ensures !Divides(d, BASE) {
      NoProperDivisor(d);
    }
    if n > BASE {
      HasDivisor(n);
    }
  }

  // ---------------------------------------------------------------- known sums

  /** n times the byte c. */
  function Run(c: Byte, n: nat): (data: seq<Byte>)
    ensures |data| == n
  {
    if n == 0 then [] else Run(c, n - 1) + [c]
  }

  function Triangle(n: nat): nat {
    if n == 0 then 0 else Triangle(n - 1) + n
  }

  lemma {:induction false} TriangleClosed(n: nat)
    ensures 2 * Triangle(n) == n * (n + 1)
  {
    if n > 0 {
      TriangleClosed(n - 1);
    }
  }

  lemma {:induction false} RunTotals(c: Byte, n: nat)
    ensures Total(Run(c, n)) == n * c && Running(Run(c, n)) == Triangle(n) * c
  {
    if n > 0 {
      var data := Run(c, n);
      RunTotals(c, n - 1);
      assert data[..n - 1] == Run(c, n - 1) && data[n - 1] == c;
      assert Total(data) == (n - 1) * c + c == n * c;
      assert Running(data) == Triangle(n - 1) * c + n * c == (Triangle(n - 1) + n) * c;
    }
  }

  /** The sums of n equal bytes. */
  lemma RunSums(c: Byte, n: nat)
    ensures Fold(START, Run(c, n)) == Sums((1 + n * c) % BASE, (n + Triangle(n) * c) % BASE)
  {
    hide Fold, Run, Triangle, Total, Running;
    var data := Run(c, n);
    RunTotals(c, n);
    FoldReduced(START, data);
    FoldTotals(START, data);
  }

  /** 257 bytes of 255 make the first sum exceed the modulus. */
  lemma KnownSums()
    ensures Packed(Fold(START, Run(255, 257))) == 0x080F_000F
  {
    hide Fold, Run, Triangle;
    RunSums(255, 257);
    TriangleClosed(257);
    assert Triangle(257) == 33153;
  }
}
