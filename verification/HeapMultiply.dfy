/** The product of many powers by repeated division of the two largest exponents
    (GeneralCascadeMultiplication). */
module HeapMultiply {
  import opened Permutations
  import opened AbelianGroup
  import opened SlidingWindow
  import opened Cascade

  /** BaseAndExponent, ordered by its exponent. */
  datatype Power<T> = Power(base: T, exponent: nat)

  ghost function Value<T(!new)>(g: Group<T>, p: Power<T>): T {
    Times(g, p.exponent, p.base)
  }

  /** The sum of exponent times base. */
  ghost function Total<T(!new)>(g: Group<T>, s: seq<Power<T>>): T {
    if s == [] then g.zero else g.add(Total(g, s[..|s| - 1]), Value(g, s[|s| - 1]))
  }

  ghost function Exponents<T>(s: seq<Power<T>>): nat {
    if s == [] then 0 else Exponents(s[..|s| - 1]) + s[|s| - 1].exponent
  }

  lemma TotalPush<T(!new)>(g: Group<T>, s: seq<Power<T>>, p: Power<T>)
    ensures Total(g, s + [p]) == g.add(Total(g, s), Value(g, p)) && Exponents(s + [p]) == Exponents(s) + p.exponent
    ensures Total(g, []) == g.zero
  {
    assert (s + [p])[..|s|] == s;
  }

  /** Where an entry stands makes no difference. */
  lemma {:induction false} TotalInsert<T(!new)>(g: Group<T>, a: seq<Power<T>>, p: Power<T>, b: seq<Power<T>>)
    requires Laws(g)
    ensures Total(g, a + [p] + b) == g.add(Total(g, a + b), Value(g, p))
    ensures Exponents(a + [p] + b) == Exponents(a + b) + p.exponent
  {
    hide Laws, Value, Total, Exponents;
    if b == [] {
      assert a + [p] + b == a + [p] && a + b == a;
      TotalPush(g, a, p);
    } else {
      var c, q := b[..|b| - 1], b[|b| - 1];
      assert a + [p] + b == a + [p] + c + [q] && a + b == a + c + [q];
      TotalInsert(g, a, p, c);
      TotalPush(g, a + [p] + c, q);
      TotalPush(g, a + c, q);
      var t := Total(g, a + c);
      Assoc(g, t, Value(g, p), Value(g, q));
      Comm(g, Value(g, p), Value(g, q));
      Assoc(g, t, Value(g, q), Value(g, p));
    }
  }

  lemma {:induction false} TotalPermutes<T(!new)>(g: Group<T>, s: seq<Power<T>>, t: seq<Power<T>>)
    requires multiset(s) == multiset(t)
    requires Laws(g)
    ensures Total(g, s) == Total(g, t) && Exponents(s) == Exponents(t)
  {
    hide Laws, Value, Total, Exponents;
    if s == [] {
      assert |multiset(t)| == 0;
      assert t == [];
    } else {
      var p, s' := s[|s| - 1], s[..|s| - 1];
      assert s == s' + [p];
      var a, b := FindElement(s', p, t);
      TotalPermutes(g, s', a + b);
      TotalInsert(g, a, p, b);
      TotalPush(g, s', p);
    }
  }

  /** Dividing the largest exponent by the next largest, and adding the quotient's share of the one base to the
      other, changes nothing about the total. */
  lemma DivisionKeepsTotal<T(!new)>(g: Group<T>, first: Power<T>, mid: seq<Power<T>>, last: Power<T>, q: nat, r: nat)
    requires last.exponent == q * first.exponent + r
    requires Laws(g)
    ensures Total(g, [first] + mid + [last])
         == Total(g, [Power(g.add(first.base, Times(g, q, last.base)), first.exponent)] + mid + [Power(last.base, r)])
  {
    hide Laws, Total, Times;
    var first', last' := Power(g.add(first.base, Times(g, q, last.base)), first.exponent), Power(last.base, r);
    var m, e := Total(g, mid), first.exponent;
    Ends(g, first, mid, last);
    Ends(g, first', mid, last');
    OfSum(g, e, first.base, Times(g, q, last.base));
    OfMultiple(g, e, q, last.base);
    Plus(g, e * q, r, last.base);
    assert e * q + r == last.exponent;
    var v, w, u := Value(g, first), Times(g, e * q, last.base), Times(g, r, last.base);
    Assoc(g, m, v, g.add(w, u));
    Assoc(g, m, g.add(v, w), u);
    Assoc(g, v, w, u);
  }

  lemma Ends<T(!new)>(g: Group<T>, first: Power<T>, mid: seq<Power<T>>, last: Power<T>)
    requires Laws(g)
    ensures Total(g, [first] + mid + [last]) == g.add(g.add(Total(g, mid), Value(g, first)), Value(g, last))
    ensures Exponents([first] + mid + [last]) == Exponents(mid) + first.exponent + last.exponent
  {
    hide Laws, Total, Value, Exponents;
    TotalPush(g, [first] + mid, last);
    assert [first] + mid == [] + [first] + mid && mid == [] + mid;
    TotalInsert(g, [], first, mid);
  }

  // ---------------------------------------------------------------- the heap

  /** What pop_heap leaves: the largest entry last, the largest of the others first. */
  ghost predicate Popped<T>(s: seq<Power<T>>) {
    && |s| >= 2
    && s[0].exponent <= s[|s| - 1].exponent
    && forall i :: 0 <= i < |s| - 1 ==> s[i].exponent <= s[0].exponent
  }

  method IndexOfLargest<T(0)>(a: array<Power<T>>, n: nat) returns (k: nat)
    requires 1 <= n <= a.Length
    ensures k < n && forall i :: 0 <= i < n ==> a[i].exponent <= a[k].exponent
  {
    k := 0;
    var i := 1;
    while i < n
      invariant 1 <= i <= n && k < i && forall j :: 0 <= j < i ==> a[j].exponent <= a[k].exponent
    {
      if a[k].exponent < a[i].exponent {
        k := i;
      }
      i := i + 1;
    }
  }

  /** push_heap or make_heap, and then pop_heap, with no more than the library promises: a permutation that
      leaves the two largest entries at the ends. */
  method Pop<T(0)>(a: array<Power<T>>)
    requires a.Length >= 2
    modifies a
    ensures multiset(a[..]) == multiset(old(a[..])) && Popped(a[..])
  {
    var n := a.Length;
    var k := IndexOfLargest(a, n);
    ghost var s := a[..];
    Swap(a, k, n - 1);
    LargestMoved(s, k);
    k := IndexOfLargest(a, n - 1);
    ghost var t := a[..];
    Swap(a, k, 0);
    SecondMoved(t, k);
  }

  lemma LargestMoved<T>(s: seq<Power<T>>, k: nat)
    requires k < |s| && forall i :: 0 <= i < |s| ==> s[i].exponent <= s[k].exponent
    ensures var r := Swapped(s, k, |s| - 1); forall i :: 0 <= i < |r| ==> r[i].exponent <= r[|r| - 1].exponent
  {
  }

  lemma SecondMoved<T>(s: seq<Power<T>>, k: nat)
    requires k < |s| - 1 && forall i :: 0 <= i < |s| - 1 ==> s[i].exponent <= s[k].exponent
    requires forall i :: 0 <= i < |s| ==> s[i].exponent <= s[|s| - 1].exponent
    ensures Popped(Swapped(s, k, 0))
  {
  }

  lemma {:induction false} NothingLeft<T(!new)>(g: Group<T>, s: seq<Power<T>>)
    requires forall i :: 0 <= i < |s| ==> s[i].exponent == 0
    requires Laws(g)
    ensures Total(g, s) == g.zero
  {
    hide Laws;
    if s != [] {
      NothingLeft(g, s[..|s| - 1]);
      Zero(g, g.zero);
    }
  }

  lemma LastIsTotal<T(!new)>(g: Group<T>, s: seq<Power<T>>)
    requires Popped(s) && s[0].exponent == 0
    requires Laws(g)
    ensures Total(g, s) == Value(g, s[|s| - 1])
  {
    hide Laws, Value;
    NothingLeft(g, s[..|s| - 1]);
    Zero(g, Value(g, s[|s| - 1]));
  }

  lemma DivideLargest<T(!new)>(g: Group<T>, s: seq<Power<T>>, s': seq<Power<T>>, q: nat)
    requires |s| >= 2 && s[0].exponent > 0 && s[0].exponent <= s[|s| - 1].exponent
    requires q == s[|s| - 1].exponent / s[0].exponent
    requires var last := s[|s| - 1]; s' == s[|s| - 1 := Power(last.base, last.exponent % s[0].exponent)]
               [0 := Power(g.add(s[0].base, Times(g, q, last.base)), s[0].exponent)]
    requires Laws(g)
    ensures Total(g, s') == Total(g, s) && Exponents(s') < Exponents(s)
  {
    hide Laws, Total, Times, Exponents;
    var first, mid, last := s[0], s[1..|s| - 1], s[|s| - 1];
    assert s == [first] + mid + [last];
    var r := last.exponent % first.exponent;
    Quotient(last.exponent, first.exponent);
    DivisionKeepsTotal(g, first, mid, last, q, r);
    assert s' == [s'[0]] + mid + [Power(last.base, r)];
    Ends(g, first, mid, last);
    Ends(g, s'[0], mid, Power(last.base, r));
  }

  lemma Quotient(a: nat, b: nat)
    requires 0 < b <= a
    ensures a == a / b * b + a % b && a % b < a
  {
  }

  /** GeneralCascadeMultiplication: the sum of exponent times base over all entries, in every commutative
      group; the exponents' total falls in every round, so that it ends. */
  method GeneralCascadeMultiplication<T(!new,0)>(g: Group<T>, a: array<Power<T>>, inversionIsFast: bool, wordBits: nat)
    returns (r: T)
    requires a.Length >= 1 && wordBits >= 1
    requires Laws(g)
    modifies a
    ensures r == Total(g, old(a[..]))
  {
    hide Laws, Total, Times, Exponents, Combo;
    ghost var s := a[..];
    if a.Length == 1 {
      OneEntry(g, s);
      r := ScalarMultiply(g, a[0].base, a[0].exponent, inversionIsFast, wordBits);
    } else if a.Length == 2 {
      TwoEntries(g, s);
      r := CascadeScalarMultiply(g, a[0].base, a[0].exponent, a[1].base, a[1].exponent);
    } else {
      var n := a.Length;
      Pop(a);
      TotalPermutes(g, s, a[..]);
      while a[0].exponent != 0
        invariant Popped(a[..]) && Total(g, a[..]) == Total(g, s)
        decreases Exponents(a[..])
      {
        ghost var before := a[..];
        var t := a[n - 1].exponent;
        var q := t / a[0].exponent;
        a[n - 1] := Power(a[n - 1].base, t % a[0].exponent);
        if q == 1 {
          One(g, a[n - 1].base);
          a[0] := Power(g.add(a[0].base, a[n - 1].base), a[0].exponent);
        } else {
          var share := ScalarMultiply(g, a[n - 1].base, q, inversionIsFast, wordBits);
          a[0] := Power(g.add(a[0].base, share), a[0].exponent);
        }
        ghost var after := a[..];
        DivideLargest(g, before, after, q);
        Pop(a);
        TotalPermutes(g, after, a[..]);
      }
      LastIsTotal(g, a[..]);
      r := ScalarMultiply(g, a[n - 1].base, a[n - 1].exponent, inversionIsFast, wordBits);
    }
  }

  lemma OneEntry<T(!new)>(g: Group<T>, s: seq<Power<T>>)
    requires |s| == 1
    requires Laws(g)
    ensures Total(g, s) == Value(g, s[0])
  {
    hide Laws, Value;
    assert s == [] + [s[0]];
    TotalPush(g, [], s[0]);
    Zero(g, Value(g, s[0]));
  }

  lemma TwoEntries<T(!new)>(g: Group<T>, s: seq<Power<T>>)
    requires |s| == 2
    requires Laws(g)
    ensures Total(g, s) == Combo(g, s[0].base, s[1].base, s[0].exponent, s[1].exponent)
  {
    hide Laws, Times;
    OneEntry(g, [s[0]]);
    assert s == [s[0]] + [s[1]];
    TotalPush(g, [s[0]], s[1]);
  }
}
