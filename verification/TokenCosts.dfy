/** The size of a coded token list, from the counts of its symbols. */
module TokenCosts {
  import opened Sums
  import opened Bits
  import opened CanonicalCode
  import opened HuffmanTree
  import opened LzTokens
  import opened LzBuffer
  import opened BlockWriter

  ghost function Zeros(n: nat): (z: seq<nat>)
    ensures |z| == n && forall i :: 0 <= i < n ==> z[i] == 0
  {
    seq(n, _ => 0)
  }

  /** How often each literal/length symbol occurs. */
  ghost function LitCounts(ts: seq<Token>): (c: seq<nat>)
    requires AllWellFormed(ts)
    ensures |c| == 288
  {
    if ts == [] then Zeros(288)
    else
      var c, t := LitCounts(ts[..|ts| - 1]), ts[|ts| - 1];
      SymbolRange(t);
      c[LitLenSym(t) := c[LitLenSym(t)] + 1]
  }

  /** How often each distance symbol occurs. */
  ghost function DistCounts(ts: seq<Token>): (c: seq<nat>)
    requires AllWellFormed(ts)
    ensures |c| == 32
  {
    if ts == [] then Zeros(32)
    else
      var c, t := DistCounts(ts[..|ts| - 1]), ts[|ts| - 1];
      SymbolRange(t);
      if t.Match? then c[DistSym(t.dist - 1) := c[DistSym(t.dist - 1)] + 1] else c
  }

  lemma {:induction false} CountsAreUses(ts: seq<Token>, s: nat)
    requires AllWellFormed(ts)
    ensures s < 288 ==> LitCounts(ts)[s] == LitLenUses(ts, s)
    ensures s < 32 ==> DistCounts(ts)[s] == DistUses(ts, s)
  {
    hide LenSym, DistSym, LitLenSym;
    if ts != [] {
      CountsAreUses(ts[..|ts| - 1], s);
      SymbolRange(ts[|ts| - 1]);
    }
  }

  /** The histograms of the token buffer are these counts. */
  lemma CountedCounts(lit: seq<nat>, dist: seq<nat>, ts: seq<Token>)
    requires Counted(lit, dist, ts)
    ensures |dist| >= 32 && lit == LitCounts(ts) && dist[..32] == DistCounts(ts)
  {
    hide LitLenUses, DistUses, LitCounts, DistCounts, Sum;
    forall s | 0 <= s < 288 ensures lit[s] == LitCounts(ts)[s] {
      CountsAreUses(ts, s);
    }
    forall s | 0 <= s < 32 ensures dist[s] == DistCounts(ts)[s] {
      CountsAreUses(ts, s);
    }
  }

  // ---------------------------------------------------------------- sizes

  lemma {:induction false} CostZero(f: seq<nat>, l: seq<nat>)
    requires |f| == |l| && forall i :: 0 <= i < |f| ==> f[i] == 0
    ensures Cost(f, l) == 0
  {
    if f != [] {
      CostZero(f[..|f| - 1], l[..|l| - 1]);
    }
  }

  lemma OneMoreUse(x: nat, l: nat)
    ensures (x + 1) * l == x * l + l
  {
  }

  lemma {:induction false} CostUpdate(f: seq<nat>, l: seq<nat>, i: nat)
    requires |f| == |l| && i < |f|
    ensures Cost(f[i := f[i] + 1], l) == Cost(f, l) + l[i]
  {
    var n := |f| - 1;
    if i < n {
      CostUpdate(f[..n], l[..n], i);
      assert f[i := f[i] + 1][..n] == f[..n][i := f[i] + 1];
    } else {
      assert f[i := f[i] + 1][..n] == f[..n];
      OneMoreUse(f[n], l[n]);
    }
  }

  /** Bits of a token that do not depend on the codes. */
  ghost function ExtraSize(t: Token): nat
    requires WellFormed(t)
  {
    if t.Match? then LenExtra(t.len - 3) + DistExtra(t.dist - 1) else 0
  }

  ghost function ExtrasSize(ts: seq<Token>): nat
    requires AllWellFormed(ts)
  {
    if ts == [] then 0 else ExtrasSize(ts[..|ts| - 1]) + ExtraSize(ts[|ts| - 1])
  }

  lemma TokenBitsSize(l: seq<nat>, d: seq<nat>, t: Token)
    requires Coded(l, d, t)
    ensures |TokenBits(l, d, t)| == l[LitLenSym(t)] + (if t.Match? then d[DistSym(t.dist - 1)] else 0) + ExtraSize(t)
  {
    hide LenSym, DistSym, LenExtra, DistExtra;
  }

  /** The size of the tokens is the cost of their symbols and the extra bits. */
  lemma {:induction false} TokensBitsSize(l: seq<nat>, d: seq<nat>, ts: seq<Token>)
    requires |l| == 288 && |d| == 32 && AllCoded(l, d, ts)
    ensures AllWellFormed(ts)
    ensures |TokensBits(l, d, ts)| == Cost(LitCounts(ts), l) + Cost(DistCounts(ts), d) + ExtrasSize(ts)
  {
    hide TokenBits, Cost, LenSym, DistSym, LitLenSym, ExtraSize;
    if ts == [] {
      CostZero(LitCounts(ts), l);
      CostZero(DistCounts(ts), d);
    } else {
      var u, t := ts[..|ts| - 1], ts[|ts| - 1];
      TokensBitsSize(l, d, u);
      TokenBitsSize(l, d, t);
      SymbolRange(t);
      CostUpdate(LitCounts(u), l, LitLenSym(t));
      if t.Match? {
        CostUpdate(DistCounts(u), d, DistSym(t.dist - 1));
      }
    }
  }
}
