/** Commutative groups and scalar multiples. */
module AbelianGroup {

  /** A group by its identity, its addition and its inverse. */
  datatype Group<!T> = Group(zero: T, add: (T, T) -> T, neg: T -> T)

  ghost predicate Laws<T(!new)>(g: Group<T>) {
    && (forall a, b, c :: g.add(g.add(a, b), c) == g.add(a, g.add(b, c)))
    && (forall a, b :: g.add(a, b) == g.add(b, a))
    && (forall a :: g.add(a, g.zero) == a)
    && (forall a :: g.add(a, g.neg(a)) == g.zero)
  }

  lemma Assoc<T(!new)>(g: Group<T>, a: T, b: T, c: T)
    requires Laws(g)
    ensures g.add(g.add(a, b), c) == g.add(a, g.add(b, c))
  {
  }

  lemma Comm<T(!new)>(g: Group<T>, a: T, b: T)
    requires Laws(g)
    ensures g.add(a, b) == g.add(b, a)
  {
  }

  lemma Zero<T(!new)>(g: Group<T>, a: T)
    requires Laws(g)
    ensures g.add(a, g.zero) == a && g.add(g.zero, a) == a
  {
  }

  lemma Inverse<T(!new)>(g: Group<T>, a: T)
    requires Laws(g)
    ensures g.add(a, g.neg(a)) == g.zero && g.add(g.neg(a), a) == g.zero
  {
  }

  /** (a + b) + (c + d) == (a + c) + (b + d) */
  lemma Exchange<T(!new)>(g: Group<T>, a: T, b: T, c: T, d: T)
    requires Laws(g)
    ensures g.add(g.add(a, b), g.add(c, d)) == g.add(g.add(a, c), g.add(b, d))
  {
    hide Laws;
    calc {
      g.add(g.add(a, b), g.add(c, d));
      { Assoc(g, a, b, g.add(c, d)); }
      g.add(a, g.add(b, g.add(c, d)));
      { Assoc(g, b, c, d); }
      g.add(a, g.add(g.add(b, c), d));
      { Comm(g, b, c); }
      g.add(a, g.add(g.add(c, b), d));
      { Assoc(g, c, b, d); }
      g.add(a, g.add(c, g.add(b, d)));
      { Assoc(g, a, c, g.add(b, d)); }
      g.add(g.add(a, c), g.add(b, d));
    }
  }

  /** n times x, for any integer n. */
  ghost function Times<T(!new)>(g: Group<T>, n: int, x: T): T
    decreases if n < 0 then -n else n
  {
    if n == 0 then g.zero else if n > 0 then g.add(Times(g, n - 1, x), x) else g.add(Times(g, n + 1, x), g.neg(x))
  }

  lemma Next<T(!new)>(g: Group<T>, n: int, x: T)
    requires Laws(g)
    ensures Times(g, n + 1, x) == g.add(Times(g, n, x), x)
  {
    hide Laws;
    if n < 0 {
      var t := Times(g, n + 1, x);
      assert Times(g, n, x) == g.add(t, g.neg(x));
      Assoc(g, t, g.neg(x), x);
      Inverse(g, x);
      Zero(g, t);
    }
  }

  lemma {:induction false} Plus<T(!new)>(g: Group<T>, m: int, n: int, x: T)
    requires Laws(g)
    ensures Times(g, m + n, x) == g.add(Times(g, m, x), Times(g, n, x))
    decreases if n < 0 then -n else n
  {
    hide Laws;
    if n == 0 {
      Zero(g, Times(g, m, x));
    } else if n > 0 {
      Plus(g, m, n - 1, x);
      Next(g, m + n - 1, x);
      Next(g, n - 1, x);
      Assoc(g, Times(g, m, x), Times(g, n - 1, x), x);
    } else {
      Plus(g, m, n + 1, x);
      Next(g, m + n, x);
      Next(g, n, x);
      Assoc(g, Times(g, m, x), Times(g, n, x), x);
      Cancel(g, Times(g, m + n, x), g.add(Times(g, m, x), Times(g, n, x)), x);
    }
  }

  lemma Cancel<T(!new)>(g: Group<T>, a: T, b: T, c: T)
    requires Laws(g) && g.add(a, c) == g.add(b, c)
    ensures a == b
  {
    hide Laws;
    Assoc(g, a, c, g.neg(c));
    Assoc(g, b, c, g.neg(c));
    Inverse(g, c);
    Zero(g, a);
    Zero(g, b);
  }

  lemma {:induction false} OfZero<T(!new)>(g: Group<T>, n: int)
    requires Laws(g)
    ensures Times(g, n, g.zero) == g.zero
    decreases if n < 0 then -n else n
  {
    hide Laws;
    if n > 0 {
      OfZero(g, n - 1);
      Zero(g, g.zero);
    } else if n < 0 {
      OfZero(g, n + 1);
      Next(g, n, g.zero);
      Zero(g, Times(g, n, g.zero));
    }
  }

  lemma {:induction false} OfSum<T(!new)>(g: Group<T>, n: int, x: T, y: T)
    requires Laws(g)
    ensures Times(g, n, g.add(x, y)) == g.add(Times(g, n, x), Times(g, n, y))
    decreases if n < 0 then -n else n
  {
    hide Laws;
    if n == 0 {
      Zero(g, g.zero);
    } else if n > 0 {
      OfSum(g, n - 1, x, y);
      Exchange(g, Times(g, n - 1, x), Times(g, n - 1, y), x, y);
    } else {
      OfSum(g, n + 1, x, y);
      Next(g, n, x);
      Next(g, n, y);
      Next(g, n, g.add(x, y));
      Exchange(g, Times(g, n, x), Times(g, n, y), x, y);
      Cancel(g, Times(g, n, g.add(x, y)), g.add(Times(g, n, x), Times(g, n, y)), g.add(x, y));
    }
  }

  lemma {:induction false} OfMultiple<T(!new)>(g: Group<T>, m: int, n: int, x: T)
    requires Laws(g)
    ensures Times(g, m, Times(g, n, x)) == Times(g, m * n, x)
    decreases if m < 0 then -m else m
  {
    hide Laws;
    if m == 0 {
    } else if m > 0 {
      OfMultiple(g, m - 1, n, x);
      Plus(g, (m - 1) * n, n, x);
      assert (m - 1) * n + n == m * n;
    } else {
      OfMultiple(g, m + 1, n, x);
      Next(g, m, Times(g, n, x));
      Plus(g, m * n, n, x);
      assert m * n + n == (m + 1) * n;
      Cancel(g, Times(g, m, Times(g, n, x)), Times(g, m * n, x), Times(g, n, x));
    }
  }

  lemma One<T(!new)>(g: Group<T>, x: T)
    requires Laws(g)
    ensures Times(g, 1, x) == x && Times(g, 2, x) == g.add(x, x) && Times(g, 0, x) == g.zero
    ensures Times(g, -1, x) == g.neg(x)
  {
    hide Laws;
    Zero(g, x);
    Zero(g, g.neg(x));
    assert Times(g, 0, x) == g.zero;
    assert Times(g, 1, x) == g.add(Times(g, 0, x), x);
    assert Times(g, 2, x) == g.add(Times(g, 1, x), x);
    assert Times(g, -1, x) == g.add(Times(g, 0, x), g.neg(x));
  }

  /** Doubling doubles the multiplier. */
  lemma Doubled<T(!new)>(g: Group<T>, n: int, x: T)
    requires Laws(g)
    ensures g.add(Times(g, n, x), Times(g, n, x)) == Times(g, 2 * n, x)
  {
    hide Laws, Times;
    Plus(g, n, n, x);
    assert n + n == 2 * n;
  }
}
