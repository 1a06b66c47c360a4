/** The Euclidean algorithm and the inverse in a quotient ring, over the integers. */
module Euclid {

  ghost predicate Divides(d: int, x: int) {
    exists k :: Multiple(d, k, x)
  }

  ghost predicate Multiple(d: int, k: int, x: int) {
    d * k == x
  }

  /** The two pairs have the same common divisors. */
  ghost predicate SameDivisors(x: int, y: int, a: int, b: int) {
    forall d :: Common(d, x, y) <==> Common(d, a, b)
  }

  ghost predicate Common(d: int, x: int, y: int) {
    Divides(d, x) && Divides(d, y)
  }

  /** A common divisor that every common divisor divides. */
  ghost predicate IsGcd(g: int, a: int, b: int) {
    Common(g, a, b) && forall d :: Common(d, a, b) ==> Divides(d, g)
  }

  ghost predicate Coprime(a: int, b: int) {
    forall d :: Common(d, a, b) ==> d == 1 || d == -1
  }

  lemma DividesCombination(d: int, x: int, y: int, q: int)
    requires Divides(d, x) && Divides(d, y)
    ensures Divides(d, x + q * y)
  {
    var k :| Multiple(d, k, x);
    var l :| Multiple(d, l, y);
    assert d * (k + q * l) == d * k + q * (d * l);
    assert Multiple(d, k + q * l, x + q * y);
  }

  /** One division keeps the common divisors. */
  lemma StepDivisors(x: int, y: int, a: int, b: int)
    requires SameDivisors(x, y, a, b) && y != 0
    ensures SameDivisors(y, x % y, a, b)
  {
    var q := x / y;
    assert x % y == x + (-q) * y && x == x % y + q * y;
    forall d ensures Common(d, y, x % y) <==> Common(d, x, y) {
      if Common(d, x, y) {
        DividesCombination(d, x, y, -q);
      }
      if Common(d, y, x % y) {
        DividesCombination(d, x % y, y, q);
      }
    }
  }

  lemma SelfDivides(x: int)
    ensures Divides(x, x) && Divides(x, 0)
  {
    assert Multiple(x, 1, x) && Multiple(x, 0, 0);
  }

  lemma LastIsGcd(g: int, a: int, b: int)
    requires SameDivisors(g, 0, a, b)
    ensures IsGcd(g, a, b)
  {
    SelfDivides(g);
    assert Common(g, g, 0);
  }

  function Abs(x: int): nat {
    if x < 0 then -x else x
  }

  /** AbstractEuclideanDomain::Gcd: three cells used in turn. */
  method Gcd(a: int, b: int) returns (r: int)
    ensures IsGcd(r, a, b)
  {
    hide Common, IsGcd;
    var g := new int[3] [b, a, 0];
    var i0, i1, i2 := 0, 1, 2;
    assert SameDivisors(b, a, a, b) by { Swapped(a, b); }
    while g[i1] != 0
      invariant {i0, i1, i2} == {0, 1, 2} && i0 != i1 && i1 != i2 && i0 != i2 && SameDivisors(g[i0], g[i1], a, b)
      decreases Abs(g[i1])
    {
      StepDivisors(g[i0], g[i1], a, b);
      g[i2] := g[i0] % g[i1];
      i0, i1, i2 := i1, i2, i0;
    }
    LastIsGcd(g[i0], a, b);
    r := g[i0];
  }

  lemma Swapped(a: int, b: int)
    ensures SameDivisors(b, a, a, b)
  {
  }

  /** x is v times a, up to a multiple of m. */
  ghost predicate Represents(x: int, v: int, a: int, m: int) {
    exists u :: Sum(x, v, a, u, m)
  }

  ghost predicate Sum(x: int, v: int, a: int, u: int, m: int) {
    x == v * a + u * m
  }

  lemma StepRepresents(x: int, v: int, y: int, w: int, q: int, a: int, m: int)
    requires Represents(x, v, a, m) && Represents(y, w, a, m)
    ensures Represents(x - y * q, v - w * q, a, m)
  {
    var u :| Sum(x, v, a, u, m);
    var t :| Sum(y, w, a, t, m);
    assert (w * a + t * m) * q == w * q * a + t * q * m;
    assert (v - w * q) * a == v * a - w * q * a && (u - t * q) * m == u * m - t * q * m;
    assert Sum(x - y * q, v - w * q, a, u - t * q, m);
  }

  /** QuotientRing::MultiplicativeInverse: an inverse modulo m if there is one, otherwise 0. */
  method MultiplicativeInverse(a: int, m: int) returns (r: int)
    ensures Coprime(a, m) ==> Represents(1, r, a, m)
    ensures !Coprime(a, m) ==> r == 0
  {
    hide Represents, SameDivisors, Coprime;
    var g := new int[3] [m, a, 0];
    var v := new int[3] [0, 1, 0];
    var i0, i1, i2 := 0, 1, 2;
    Swapped(a, m);
    StartRepresents(a, m);
    while g[i1] != 0
      invariant {i0, i1, i2} == {0, 1, 2} && i0 != i1 && i1 != i2 && i0 != i2 && SameDivisors(g[i0], g[i1], a, m)
      invariant Represents(g[i0], v[i0], a, m) && Represents(g[i1], v[i1], a, m)
      decreases Abs(g[i1])
    {
      StepDivisors(g[i0], g[i1], a, m);
      var y := g[i0] / g[i1];
      StepRepresents(g[i0], v[i0], g[i1], v[i1], y, a, m);
      g[i2] := g[i0] % g[i1];
      v[i2] := v[i0] - v[i1] * y;
      i0, i1, i2 := i1, i2, i0;
    }
    UnitIffCoprime(g[i0], a, m);
    if g[i0] == 1 || g[i0] == -1 {
      UnitInverse(g[i0], v[i0], a, m);
      r := v[i0] / g[i0];
    } else {
      r := 0;
    }
  }

  lemma StartRepresents(a: int, m: int)
    ensures Represents(m, 0, a, m) && Represents(a, 1, a, m)
  {
    assert Sum(m, 0, a, 1, m) && Sum(a, 1, a, 0, m);
  }

  lemma UnitIffCoprime(g: int, a: int, m: int)
    requires SameDivisors(g, 0, a, m)
    ensures Coprime(a, m) <==> g == 1 || g == -1
  {
    LastIsGcd(g, a, m);
    if g == 1 || g == -1 {
      forall d | Common(d, a, m) ensures d == 1 || d == -1 {
        var k :| Multiple(d, k, g);
        UnitDivisor(d, k);
      }
    }
  }

  lemma UnitDivisor(d: int, k: int)
    requires d * k == 1 || d * k == -1
    ensures d == 1 || d == -1
  {
    if d > 1 || d < -1 {
      LargeProduct(d, k);
    }
  }

  lemma LargeProduct(d: int, k: int)
    requires d > 1 || d < -1
    ensures d * k != 1 && d * k != -1
  {
    if k != 0 {
      AtLeastTwo(Abs(d), Abs(k));
      Signs(d, k);
    }
  }

  lemma AtLeastTwo(d: nat, k: nat)
    requires d >= 2 && k >= 1
    ensures d * k >= 2
  {
    assert d * k == 2 * k + (d - 2) * k;
  }

  lemma Signs(d: int, k: int)
    ensures Abs(d) * Abs(k) == d * k || Abs(d) * Abs(k) == -(d * k)
  {
    assert (-d) * k == -(d * k) && d * (-k) == -(d * k) && (-d) * (-k) == d * k;
  }

  lemma UnitInverse(g: int, v: int, a: int, m: int)
    requires Represents(g, v, a, m) && (g == 1 || g == -1)
    ensures Represents(1, v / g, a, m)
  {
    var u :| Sum(g, v, a, u, m);
    if g == 1 {
      assert Sum(1, v / 1, a, u, m);
    } else {
      assert v / -1 == -v;
      assert (-v) * a == -(v * a) && (-u) * m == -(u * m);
      assert Sum(1, v / -1, a, -u, m);
    }
  }
}
