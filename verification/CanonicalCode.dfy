/** Canonical Huffman codes (section 3.2.2 of RFC 1951): from code sizes to codes. */
module CanonicalCode {
  import opened Sums
  import opened Bits

  /** How many symbols have code size `l`. */
  ghost function Cnt(sz: seq<nat>, l: nat): (c: nat)
    ensures c <= |sz|
  {
    if sz == [] then 0 else Cnt(sz[..|sz| - 1], l) + if sz[|sz| - 1] == l then 1 else 0
  }

  /** The numerically first code of size `l`. */
  ghost function First(sz: seq<nat>, l: nat): nat {
    if l <= 1 then 0 else 2 * (First(sz, l - 1) + Cnt(sz, l - 1))
  }

  ghost function Code(sz: seq<nat>, i: nat): nat
    requires i < |sz|
  {
    First(sz, sz[i]) + Cnt(sz[..i], sz[i])
  }

  /** The bits sent for symbol i. */
  ghost function Word(sz: seq<nat>, i: nat): (s: seq<bool>)
    requires i < |sz|
    ensures |s| == sz[i]
  {
    Msb(Code(sz, i), sz[i])
  }

  ghost predicate Sizes(sz: seq<nat>) {
    forall i :: 0 <= i < |sz| ==> sz[i] <= 15
  }

  /** The sizes do not ask for more codes than there are. */
  ghost predicate Fits(sz: seq<nat>) {
    Sizes(sz) && First(sz, 16) <= 0x10000
  }

  /** The sizes use up all codes: the test the decoder makes before it accepts a table. */
  ghost predicate Full(sz: seq<nat>) {
    Sizes(sz) && First(sz, 16) == 0x10000
  }

  lemma {:induction false} CntPrefix(sz: seq<nat>, l: nat, a: nat, b: nat)
    requires a <= b <= |sz|
    ensures Cnt(sz[..a], l) <= Cnt(sz[..b], l)
    ensures a < b && sz[a] == l ==> Cnt(sz[..a], l) < Cnt(sz[..b], l)
    decreases b
  {
    if a < b {
      assert sz[..b][..b - 1] == sz[..b - 1];
      CntPrefix(sz, l, a, b - 1);
    }
  }

  lemma CodeRange(sz: seq<nat>, i: nat)
    requires i < |sz|
    ensures First(sz, sz[i]) <= Code(sz, i) < First(sz, sz[i]) + Cnt(sz, sz[i])
  {
    CntPrefix(sz, sz[i], i, |sz|);
    assert sz[..|sz|] == sz;
  }

  lemma {:induction false} CodesFit(sz: seq<nat>, l: nat)
    requires Fits(sz) && 1 <= l <= 15
    ensures First(sz, l) + Cnt(sz, l) <= Pow2(l)
    decreases 15 - l
  {
    if l == 15 {
      assert Pow2(5) == 32 && Pow2(10) == 1024 && Pow2(15) == 0x8000;
    } else {
      CodesFit(sz, l + 1);
    }
  }

  lemma CodeBound(sz: seq<nat>, i: nat)
    requires Fits(sz) && i < |sz| && sz[i] > 0
    ensures Code(sz, i) < Pow2(sz[i])
  {
    CodeRange(sz, i);
    CodesFit(sz, sz[i]);
  }

  /** Cutting a longer code to l bits lands above all codes of size l. */
  lemma {:induction false} LongerAbove(sz: seq<nat>, l: nat, l': nat, c: nat)
    requires 1 <= l < l' && First(sz, l') <= c
    ensures First(sz, l) + Cnt(sz, l) <= Shr(c, l' - l)
    decreases l'
  {
    if l' == l + 1 {
      assert Shr(c, 1) == Shr(c / 2, 0) == c / 2;
    } else {
      LongerAbove(sz, l, l' - 1, c / 2);
    }
  }

  /** No code is a prefix of another. */
  lemma PrefixFree(sz: seq<nat>, i: nat, j: nat)
    requires Fits(sz) && i < |sz| && j < |sz| && sz[i] > 0 && sz[j] > 0
    requires Word(sz, i) <= Word(sz, j)
    ensures i == j
  {
    var l, l' := sz[i], sz[j];
    var c, d := Code(sz, i), Code(sz, j);
    CodeRange(sz, i);
    CodeRange(sz, j);
    CodeBound(sz, i);
    CodeBound(sz, j);
    MsbPrefix(d, l', l' - l);
    assert Word(sz, j)[..l] == Word(sz, i);
    ShrBound(d, l', l' - l);
    MsbInjective(c, Shr(d, l' - l), l);
    if l < l' {
      LongerAbove(sz, l, l', d);
    } else {
      if i < j {
        CntPrefix(sz, l, i, j);
      } else if j < i {
        CntPrefix(sz, l, j, i);
      }
    }
  }

  /** next_code after the first i symbols. */
  ghost predicate Numbered(next: seq<int>, sz: seq<nat>, i: nat, m: nat)
    requires i <= |sz|
  {
    m < |next| && forall l :: 1 <= l <= m ==> next[l] == First(sz, l) + Cnt(sz[..i], l)
  }

  lemma StartNumbering(next: seq<int>, sz: seq<nat>, m: nat)
    requires m < |next| && forall l :: 1 <= l <= m ==> next[l] == First(sz, l)
    ensures Numbered(next, sz, 0, m)
  {
  }

  lemma NumberNext(next: seq<int>, sz: seq<nat>, i: nat, m: nat)
    requires i < |sz| && Numbered(next, sz, i, m) && sz[i] <= m
    ensures sz[i] == 0 ==> Numbered(next, sz, i + 1, m)
    ensures sz[i] > 0 ==> next[sz[i]] == Code(sz, i) && Numbered(next[sz[i] := next[sz[i]] + 1], sz, i + 1, m)
  {
    assert sz[..i + 1][..i] == sz[..i];
  }
}
