/** A code that uses up the code space leaves no bits without a symbol. */
module CompleteCode {
  import opened Sums
  import opened Bits
  import opened CanonicalCode
  import opened InflateTable
  import opened InflateDecode

  /** First bit most significant, as in a code. */
  ghost function MsbVal(s: seq<bool>): nat {
    if s == [] then 0 else 2 * MsbVal(s[..|s| - 1]) + B(s[|s| - 1])
  }

  lemma {:induction false} MsbOf(s: seq<bool>)
    ensures Msb(MsbVal(s), |s|) == s && MsbVal(s) < Pow2(|s|)
  {
    if s != [] {
      MsbOf(s[..|s| - 1]);
    }
  }

  lemma MsbNext(bits: seq<bool>, l: nat)
    requires 0 < l <= |bits|
    ensures 2 * MsbVal(bits[..l - 1]) <= MsbVal(bits[..l]) <= 2 * MsbVal(bits[..l - 1]) + 1
  {
    assert bits[..l][..l - 1] == bits[..l - 1];
  }

  /** Every number below the count belongs to a symbol of that size. */
  lemma {:induction false} SymbolNumbered(sz: seq<nat>, l: nat, k: nat) returns (i: nat)
    requires k < Cnt(sz, l)
    ensures i < |sz| && sz[i] == l && Cnt(sz[..i], l) == k
  {
    var n := |sz| - 1;
    if sz[n] == l && k == Cnt(sz[..n], l) {
      i := n;
    } else {
      i := SymbolNumbered(sz[..n], l, k);
      assert sz[..n][..i] == sz[..i];
    }
  }

  /** While no symbol has been met, the bits lie above all codes so far. */
  lemma {:induction false} Above(sz: seq<nat>, bits: seq<bool>, l: nat)
    requires l <= |bits| && Sizes(sz) && forall s: nat :: !Starts(sz, s, bits)
    ensures MsbVal(bits[..l]) >= First(sz, l) + if l == 0 then 0 else Cnt(sz, l)
  {
    hide Starts, Sizes, Cnt, MsbVal, Word;
    if l > 0 {
      Above(sz, bits, l - 1);
      MsbNext(bits, l);
      var v := MsbVal(bits[..l]);
      assert v >= First(sz, l);
      if v < First(sz, l) + Cnt(sz, l) {
        MetSymbol(sz, bits, l);
      }
    }
  }

  lemma MetSymbol(sz: seq<nat>, bits: seq<bool>, l: nat)
    requires 0 < l <= |bits| && First(sz, l) <= MsbVal(bits[..l]) < First(sz, l) + Cnt(sz, l)
    ensures exists s: nat :: Starts(sz, s, bits)
  {
    hide First, Cnt, MsbVal;
    var s := SymbolNumbered(sz, l, MsbVal(bits[..l]) - First(sz, l));
    MsbOf(bits[..l]);
    hide Msb;
    assert Starts(sz, s, bits);
  }

  lemma FullLast(sz: seq<nat>)
    requires Full(sz)
    ensures First(sz, 15) + Cnt(sz, 15) == Pow2(15)
  {
    assert First(sz, 16) == 2 * (First(sz, 15) + Cnt(sz, 15));
    hide First, Cnt;
    assert Pow2(5) == 32 && Pow2(10) == 1024 && Pow2(15) == 0x8000;
  }

  /** Any 15 bits start with the code of a symbol. */
  lemma SomeStarts(sz: seq<nat>, bits: seq<bool>)
    requires Full(sz) && |bits| >= 15
    ensures exists s: nat :: Starts(sz, s, bits)
  {
    hide First, Cnt, MsbVal, Msb, Starts;
    FullLast(sz);
    MsbOf(bits[..15]);
    if forall s: nat :: !Starts(sz, s, bits) {
      Above(sz, bits, 15);
    }
  }

  /** The code of a symbol ends within n bits or goes on beyond them. */
  lemma EndsOrGoesOn(sz: seq<nat>, s: nat, bits: seq<bool>, n: nat)
    requires Starts(sz, s, bits) && FAST_LOOKUP_BITS <= n <= |bits|
    ensures Starts(sz, s, bits[..n]) || BeginsLong(sz, bits[..n])
  {
    hide Word;
    WordSize(sz, s);
    if sz[s] <= n {
      assert Word(sz, s) == bits[..sz[s]] == bits[..n][..sz[s]];
    } else {
      assert bits[..n] == Word(sz, s)[..n];
      assert Within(sz, s, bits[..n]);
    }
  }

  lemma NeverLeaves(sz: seq<nat>, bits: seq<bool>, n: nat)
    requires Full(sz) && Leaves(sz, bits, n)
    ensures exists s: nat :: Starts(sz, s, bits)
  {
    hide Full, Word, BeginsLong;
    var p := bits[..n];
    var more := p + seq(15, _ => false);
    assert more[..n] == p;
    SomeStarts(sz, more);
    var s: nat :| Starts(sz, s, more);
    EndsOrGoesOn(sz, s, more, n);
    assert Starts(sz, s, p);
    LongerStarts(sz, s, bits, n);
  }

  lemma LongerStarts(sz: seq<nat>, s: nat, bits: seq<bool>, n: nat)
    requires n <= |bits| && Starts(sz, s, bits[..n])
    ensures Starts(sz, s, bits)
  {
    hide Word;
  }

  /** With a complete code the decoder never makes a symbol up: what it finds is the symbol the bits start with, and any
      15 bits start with one. */
  lemma FullFinds(sz: seq<nat>, bits: seq<bool>)
    requires Full(sz)
    ensures var f := CodeAt(sz, bits); f.Found? ==> Starts(sz, f.sym, bits) && f.size == sz[f.sym]
    ensures |bits| >= 15 ==> CodeAt(sz, bits).Found?
  {
    hide Full, Leaves, Starts;
    if |bits| >= 15 {
      SomeStarts(sz, bits);
    }
    forall n: nat | Leaves(sz, bits, n) ensures exists s: nat :: Starts(sz, s, bits) {
      NeverLeaves(sz, bits, n);
    }
    if exists s: nat :: Starts(sz, s, bits) {
      var s: nat :| Starts(sz, s, bits);
      FullAccepted(sz);
      StartsFound(sz, s, bits);
    }
  }

  lemma FullAccepted(sz: seq<nat>)
    requires Full(sz)
    ensures Accepted(sz)
  {
  }
}
