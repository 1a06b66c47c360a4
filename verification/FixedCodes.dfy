/** The code sizes of static blocks (section 3.2.6 of RFC 1951). */
module FixedCodes {
  import opened Sums
  import opened Bits
  import opened CanonicalCode

  function FixedLitSize(i: nat): nat {
    if i <= 143 then 8 else if i <= 255 then 9 else if i <= 279 then 7 else 8
  }

  ghost function FixedLit(): (l: seq<nat>)
    ensures |l| == 288 && forall i :: 0 <= i < 288 ==> l[i] == FixedLitSize(i)
  {
    seq(288, i requires 0 <= i => FixedLitSize(i))
  }

  ghost function FixedDist(): (d: seq<nat>)
    ensures |d| == 32 && forall i :: 0 <= i < 32 ==> d[i] == 5
  {
    seq(32, i => 5)
  }

  /** A run of equal sizes counts for that size only. */
  lemma {:induction false} CntRun(sz: seq<nat>, l: nat, a: nat, b: nat, v: nat)
    requires a <= b <= |sz| && forall i :: a <= i < b ==> sz[i] == v
    ensures Cnt(sz[..b], l) == Cnt(sz[..a], l) + if v == l then b - a else 0
    decreases b
  {
    if a < b {
      CntRun(sz, l, a, b - 1, v);
      assert sz[..b][..b - 1] == sz[..b - 1];
    }
  }

  lemma FixedLitCnt(l: nat)
    ensures Cnt(FixedLit(), l) == if l == 7 then 24 else if l == 8 then 152 else if l == 9 then 112 else 0
  {
    var sz := FixedLit();
    assert sz[..0] == [] && sz[..288] == sz;
    hide FixedLit;
    CntRun(sz, l, 0, 144, 8);
    CntRun(sz, l, 144, 256, 9);
    CntRun(sz, l, 256, 280, 7);
    CntRun(sz, l, 280, 288, 8);
  }

  lemma FixedDistCnt(l: nat)
    ensures Cnt(FixedDist(), l) == if l == 5 then 32 else 0
  {
    var sz := FixedDist();
    assert sz[..0] == [] && sz[..32] == sz;
    hide FixedDist;
    CntRun(sz, l, 0, 32, 5);
  }

  lemma {:induction false} FirstShort(sz: seq<nat>, l: nat)
    requires forall k :: 1 <= k < l ==> Cnt(sz, k) == 0
    ensures First(sz, l) == 0
  {
    if l > 1 {
      FirstShort(sz, l - 1);
    }
  }

  lemma {:induction false} FirstDoubles(sz: seq<nat>, l: nat, k: nat)
    requires 1 <= l && forall j :: l <= j < l + k ==> Cnt(sz, j) == 0
    ensures First(sz, l + k) == First(sz, l) * Pow2(k)
  {
    if k > 0 {
      FirstDoubles(sz, l, k - 1);
      Twice(First(sz, l), k - 1);
    } else {
      assert Pow2(0) == 1;
    }
  }

  lemma FixedFirsts()
    ensures First(FixedLit(), 7) == 0 && First(FixedLit(), 8) == 48 && First(FixedLit(), 9) == 400
    ensures First(FixedDist(), 5) == 0
  {
    hide Cnt;
    var l, d := FixedLit(), FixedDist();
    forall k: nat
      ensures Cnt(l, k) == (if k == 7 then 24 else if k == 8 then 152 else if k == 9 then 112 else 0)
      ensures Cnt(d, k) == (if k == 5 then 32 else 0)
    {
      FixedLitCnt(k);
      FixedDistCnt(k);
    }
    FirstShort(l, 7);
    FirstShort(d, 5);
  }

  /** How many symbols before i have the size of i. */
  lemma FixedBefore(l: seq<nat>, i: nat)
    requires l == FixedLit() && i < 288
    ensures Cnt(l[..i], l[i]) == if i <= 143 then i else if i <= 255 then i - 144 else if i <= 279 then i - 256
                                 else 144 + (i - 280)
  {
    assert l[..0] == [];
    hide FixedLit;
    var s := l[i];
    CntRun(l, s, 0, if i < 144 then i else 144, 8);
    if i >= 144 {
      CntRun(l, s, 144, if i < 256 then i else 256, 9);
    }
    if i >= 256 {
      CntRun(l, s, 256, if i < 280 then i else 280, 7);
    }
    if i >= 280 {
      CntRun(l, s, 280, i, 8);
    }
  }

  lemma CodeIs(sz: seq<nat>, i: nat, first: nat, before: nat)
    requires i < |sz| && First(sz, sz[i]) == first && Cnt(sz[..i], sz[i]) == before
    ensures Word(sz, i) == Msb(first + before, sz[i])
  {
    hide First, Cnt, Msb;
  }

  /** The codes of literals and lengths, as section 3.2.6 of RFC 1951 lists them. */
  lemma FixedLitWord(i: nat)
    requires i < 288
    ensures Word(FixedLit(), i) == if i <= 143 then Msb(0x30 + i, 8) else if i <= 255 then Msb(0x190 + (i - 144), 9)
                                   else if i <= 279 then Msb(i - 256, 7) else Msb(0xC0 + (i - 280), 8)
  {
    hide Word, First, Cnt, Msb;
    var l := FixedLit();
    FixedBefore(l, i);
    FixedFirsts();
    CodeIs(l, i, First(l, l[i]), Cnt(l[..i], l[i]));
  }

  /** The codes of distances are the numbers themselves, in five bits. */
  lemma FixedDistWord(i: nat)
    requires i < 32
    ensures Word(FixedDist(), i) == Msb(i, 5)
  {
    hide Word, First, Cnt, Msb;
    var d := FixedDist();
    FixedFirsts();
    DistBefore(d, i);
    CodeIs(d, i, 0, i);
  }

  lemma DistBefore(d: seq<nat>, i: nat)
    requires d == FixedDist() && i < 32
    ensures Cnt(d[..i], 5) == i
  {
    assert d[..0] == [];
    hide FixedDist;
    CntRun(d, 5, 0, i, 5);
  }

  /** The fixed codes use up the code space, so that the decoder accepts them. */
  lemma FixedFull()
    ensures Full(FixedLit()) && Full(FixedDist())
  {
    hide Cnt;
    var l, d := FixedLit(), FixedDist();
    forall k: nat
      ensures Cnt(l, k) == (if k == 7 then 24 else if k == 8 then 152 else if k == 9 then 112 else 0)
      ensures Cnt(d, k) == (if k == 5 then 32 else 0)
    {
      FixedLitCnt(k);
      FixedDistCnt(k);
    }
    FirstShort(l, 7);
    assert First(l, 8) == 48 && First(l, 9) == 400 && First(l, 10) == 1024;
    FirstDoubles(l, 10, 6);
    FirstShort(d, 5);
    assert First(d, 6) == 64;
    FirstDoubles(d, 6, 10);
    assert Pow2(5) == 32 && Pow2(6) == 64 && Pow2(10) == 1024;
  }

  method SetRun(a: array<nat>, from: nat, to: nat, v: nat)
    requires from <= to <= a.Length
    modifies a
    ensures forall i :: 0 <= i < a.Length ==> a[i] == if from <= i < to then v else old(a[i])
  {
    var i := from;
    while i < to
      invariant from <= i <= to
      invariant forall k :: 0 <= k < a.Length ==> a[k] == if from <= k < i then v else old(a[k])
    {
      a[i] := v;
      i := i + 1;
    }
  }

  /** Both size arrays of a static block. */
  method SetFixed(lit: array<nat>, dist: array<nat>)
    requires lit.Length == 288 && dist.Length >= 32 && lit != dist
    modifies lit, dist
    ensures lit[..288] == FixedLit() && dist[..32] == FixedDist()
  {
    hide FixedLit, FixedDist;
    SetRun(lit, 0, 144, 8);
    SetRun(lit, 144, 256, 9);
    SetRun(lit, 256, 280, 7);
    SetRun(lit, 280, 288, 8);
    SetRun(dist, 0, 32, 5);
    assert lit[..288] == FixedLit();
    assert dist[..32] == FixedDist();
  }
}
