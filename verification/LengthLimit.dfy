/** Limiting the longest Huffman code, on the histogram of code lengths. */
module LengthLimit {
  import opened Words
  import opened Sums

  const MAX_SUPPORTED_HUFF_CODESIZE := 32

  /** Code space taken by the codes of length 1..k, in units of a code of length m. */
  ghost function Space(c: seq<int>, k: nat, m: nat): int
    requires k < |c| && k <= m
  {
    if k == 0 then 0 else Space(c, k - 1, m) + c[k] * Pow2(m - k)
  }

  /** Number of codes of length 1..k. */
  ghost function Count(c: seq<int>, k: nat): int
    requires k < |c|
  {
    if k == 0 then 0 else Count(c, k - 1) + c[k]
  }

  ghost predicate NonNegative(c: seq<int>, k: nat)
    requires k < |c|
  {
    forall i :: 1 <= i <= k ==> c[i] >= 0
  }

  lemma {:induction false} SpaceUpdate(c: seq<int>, k: nat, m: nat, i: nat, v: int)
    requires k < |c| && k <= m && 1 <= i < |c|
    ensures Space(c[i := v], k, m) == Space(c, k, m) + if i <= k then (v - c[i]) * Pow2(m - i) else 0
    ensures Count(c[i := v], k) == Count(c, k) + if i <= k then v - c[i] else 0
  {
    if k > 0 {
      SpaceUpdate(c, k - 1, m, i, v);
    }
  }

  lemma {:induction false} SpaceBound(c: seq<int>, k: nat, m: nat)
    requires k < |c| && k <= m && m >= 1 && NonNegative(c, k)
    ensures 0 <= Count(c, k) <= Space(c, k, m) <= Count(c, k) * Pow2(m - 1)
  {
    if k > 0 {
      SpaceBound(c, k - 1, m);
      Pow2Monotone(m - k, m - 1);
      MulOrder(c[k], Pow2(m - k), Pow2(m - 1));
      MulDistr(Count(c, k - 1), c[k], Pow2(m - 1));
    }
  }

  lemma MulOrder(n: int, x: int, y: int)
    requires n >= 0 && 1 <= x <= y
    ensures n <= n * x <= n * y
  {
  }

  /** With no code shorter than m, space and count agree. */
  lemma {:induction false} OnlyLongest(c: seq<int>, k: nat, m: nat)
    requires k < |c| && k < m && forall i :: 1 <= i <= k ==> c[i] == 0
    ensures Space(c, k, m) == 0 && Count(c, k) == 0
  {
    if k > 0 {
      OnlyLongest(c, k - 1, m);
    }
  }

  /** Changing the unit scales the space. */
  lemma {:induction false} SpaceRescale(c: seq<int>, k: nat, m: nat, d: nat)
    requires k < |c| && k <= m
    ensures Space(c, k, m + d) == Space(c, k, m) * Pow2(d)
  {
    if k > 0 {
      SpaceRescale(c, k - 1, m, d);
      Pow2Add(m - k, d);
      assert m - k + d == m + d - k;
      var x, y := Space(c, k - 1, m), c[k];
      calc {
        Space(c, k, m + d);
        x * Pow2(d) + y * (Pow2(m - k) * Pow2(d));
        { MulAssoc(y, Pow2(m - k), Pow2(d)); }
        x * Pow2(d) + y * Pow2(m - k) * Pow2(d);
        { MulDistr(x, y * Pow2(m - k), Pow2(d)); }
        (x + y * Pow2(m - k)) * Pow2(d);
      }
    }
  }

  lemma MulAssoc(x: int, y: int, z: int)
    ensures x * (y * z) == x * y * z
  {
  }

  lemma MulDistr(x: int, y: int, z: int)
    ensures (x + y) * z == x * z + y * z
  {
  }

  /** The codes longer than k take less than the space of as many codes of length k. */
  lemma {:induction false} LongCodes(c: seq<int>, k: nat, e: nat, m: nat)
    requires k <= e < |c| && e <= m && NonNegative(c, e)
    ensures 0 <= Space(c, e, m) - Space(c, k, m) <= (Count(c, e) - Count(c, k)) * Pow2(m - k)
    decreases e
  {
    if k < e {
      LongCodes(c, k, e - 1, m);
      Pow2Monotone(m - e, m - k);
      MulOrder(c[e], Pow2(m - e), Pow2(m - k));
      MulDistr(Count(c, e - 1) - Count(c, k), c[e], Pow2(m - k));
    }
  }

  lemma MulCancel(x: int, y: int, z: int)
    requires z > 0 && x * z <= y * z
    ensures x <= y
  {
    MulDistr(x - y, y, z);
    MulPositive(x - y, z);
  }

  lemma MulPositive(x: int, y: int)
    ensures x > 0 && y > 0 ==> x * y > 0
  {
  }

  /** Folding the over-long codes into length m may overfill the code space, but by no more codes than
      length m then has. */
  lemma FoldedSpace(s: int, f: int, q: nat, p: nat, t: int)
    requires q > 0 && s * q == t && 0 <= p * q - t <= f * q
    ensures f >= 0 && s <= p <= s + f
    ensures f == 0 ==> s == p
  {
    MulCancel(s, p, q);
    MulDistr(s, f, q);
    MulCancel(p, s + f, q);
    MulCancel(0, f, q);
  }

  lemma LongShare(c: seq<int>, m: nat)
    requires 1 <= m < |c| == 33 && NonNegative(c, 32) && Space(c, 32, 32) == Pow2(32)
    ensures Count(c, m) <= Count(c, 32)
    ensures Space(c, m, m) <= Pow2(m) <= Space(c, m, m) + Count(c, 32) - Count(c, m)
    ensures Count(c, m) == Count(c, 32) ==> Space(c, m, m) == Pow2(m)
  {
    SpaceRescale(c, m, m, 32 - m);
    LongCodes(c, m, 32, 32);
    Pow2Add(m, 32 - m);
    assert m + (32 - m) == 32;
    hide Space, Count, Pow2;
    FoldedSpace(Space(c, m, m), Count(c, 32) - Count(c, m), Pow2(32 - m), Pow2(m), Space(c, m, 32));
  }

  lemma TopUpdate(c: seq<int>, m: nat, v: int)
    requires 1 <= m < |c|
    ensures Space(c[m := v], m, m) == Space(c, m, m) + v - c[m]
    ensures Count(c[m := v], m) == Count(c, m) + v - c[m]
  {
    SpaceUpdate(c, m, m, m, v);
    assert Pow2(0) == 1;
  }

  lemma Folded(c: seq<int>, m: nat, c': seq<int>)
    requires 1 <= m < |c| == 33 && NonNegative(c, 32) && Space(c, 32, 32) == Pow2(32)
    requires c' == c[m := c[m] + (Count(c, 32) - Count(c, m))]
    ensures NonNegative(c', m) && Count(c', m) == Count(c, 32)
    ensures Pow2(m) <= Space(c', m, m) <= Pow2(m) + c'[m]
    ensures (forall k :: m < k <= 32 ==> c[k] == 0) ==> c' == c && Space(c', m, m) == Pow2(m)
  {
    hide Space, Count, Pow2;
    TopUpdate(c, m, c[m] + (Count(c, 32) - Count(c, m)));
    LongShare(c, m);
    if forall k :: m < k <= 32 ==> c[k] == 0 {
      NothingToFold(c, m, 32);
    }
  }

  lemma {:induction false} NothingToFold(c: seq<int>, m: nat, e: nat)
    requires m <= e < |c| && forall k :: m < k <= e ==> c[k] == 0
    ensures Count(c, e) == Count(c, m)
    decreases e
  {
    if m < e {
      NothingToFold(c, m, e - 1);
    }
  }

  /** One round: drop a longest code and split the longest shorter one into two. */
  ghost function Split(c: seq<int>, m: nat, i: nat): seq<int>
    requires 1 <= i < m < |c|
  {
    var d := c[m := c[m] - 1][i := c[i] - 1];
    d[i + 1 := d[i + 1] + 2]
  }

  lemma SplitCounts(c: seq<int>, m: nat, i: nat)
    requires 1 <= i < m < |c| && NonNegative(c, m) && c[m] >= 1 && c[i] >= 1
    ensures NonNegative(Split(c, m, i), m) && Count(Split(c, m, i), m) == Count(c, m)
    ensures Space(Split(c, m, i), m, m) == Space(c, m, m) - 1
    ensures Split(c, m, i)[m] >= c[m] - 1
  {
    var d := c[m := c[m] - 1];
    var e := d[i := c[i] - 1];
    SpaceUpdate(c, m, m, m, c[m] - 1);
    SpaceUpdate(d, m, m, i, c[i] - 1);
    SpaceUpdate(e, m, m, i + 1, e[i + 1] + 2);
    assert Pow2(m - i) == 2 * Pow2(m - i - 1);
  }

  // ---------------------------------------------------------------- how far the rounds can go

  /** The units that the codes longer than `lo` and not longer than k could still free by being split. */
  ghost function Spare(c: seq<int>, lo: nat, k: nat, m: nat): int
    requires k < |c| && k <= m
  {
    if k <= lo then 0 else Spare(c, lo, k - 1, m) + c[k] * (Pow2(m - k) - 1)
  }

  lemma {:induction false} SpareUpdate(c: seq<int>, lo: nat, k: nat, m: nat, i: nat, v: int)
    requires k < |c| && k <= m && 1 <= i < |c|
    ensures Spare(c[i := v], lo, k, m) == Spare(c, lo, k, m) + if lo < i <= k then (v - c[i]) * (Pow2(m - i) - 1) else 0
  {
    if k > lo {
      SpareUpdate(c, lo, k - 1, m, i, v);
    }
  }

  lemma {:induction false} NoSpare(c: seq<int>, lo: nat, k: nat, m: nat)
    requires k < |c| && k <= m && forall j :: lo < j <= k ==> c[j] == 0
    ensures Spare(c, lo, k, m) == 0 && (lo <= k ==> Space(c, k, m) == Space(c, lo, m))
  {
    if k > lo {
      NoSpare(c, lo, k - 1, m);
    }
  }

  lemma SplitSpare(c: seq<int>, m: nat, i: nat, lo: nat)
    requires 1 <= i < m < |c|
    ensures var d := Split(c, m, i); lo < i ==> Spare(d, lo, m - 1, m) == Spare(c, lo, m - 1, m) - 1
    ensures var d := Split(c, m, i); lo == i ==> Spare(d, lo, m - 1, m) == Spare(c, lo, m - 1, m) + Pow2(m - i) - 2
    ensures var d := Split(c, m, i); Space(d, m - 1, m) <= Space(c, m - 1, m)
  {
    hide Spare, Space;
    SplitSpace(c, m, i);
    if lo <= i {
      var c1 := c[m := c[m] - 1];
      var c2 := c1[i := c[i] - 1];
      SpareUpdate(c, lo, m - 1, m, m, c[m] - 1);
      SpareUpdate(c1, lo, m - 1, m, i, c[i] - 1);
      SpareUpdate(c2, lo, m - 1, m, i + 1, c2[i + 1] + 2);
      assert Pow2(m - i) == 2 * Pow2(m - i - 1);
      assert i + 1 == m ==> Pow2(m - i - 1) == 1;
      hide Pow2;
    }
  }

  lemma SplitSpace(c: seq<int>, m: nat, i: nat)
    requires 1 <= i < m < |c|
    ensures Space(Split(c, m, i), m - 1, m) <= Space(c, m - 1, m)
  {
    hide Space;
    var c1 := c[m := c[m] - 1];
    var c2 := c1[i := c[i] - 1];
    SpaceUpdate(c, m - 1, m, m, c[m] - 1);
    SpaceUpdate(c1, m - 1, m, i, c[i] - 1);
    SpaceUpdate(c2, m - 1, m, i + 1, c2[i + 1] + 2);
    assert Pow2(m - i) == 2 * Pow2(m - i - 1);
  }

  lemma Multiple(x: int, y: int, q: int)
    requires q > 0 && x * q < y * q
    ensures x * q <= y * q - q
  {
    MulDistr(y - x - 1, x, q);
    if x >= y {
      MulDistr(x - y, y, q);
      MulOrder(x - y, q, q);
    }
  }

  /** Codes not longer than i that leave some space leave at least that of one code of length i. */
  lemma SpaceLeft(c: seq<int>, m: nat, i: nat)
    requires 1 <= i < m < |c| && Space(c, i, m) < Pow2(m)
    ensures Space(c, i, m) <= Pow2(m) - Pow2(m - i)
  {
    SpaceRescale(c, i, i, m - i);
    Pow2Add(i, m - i);
    assert i + (m - i) == m;
    Multiple(Space(c, i, i), Pow2(i), Pow2(m - i));
  }

  /** While the space is overfull, a code of length i is split only if more than 2^(m-i) codes have the longest
      length, provided all lengths between are empty. */
  lemma ManyLongest(c: seq<int>, m: nat, i: nat)
    requires 1 <= i < m < |c| && NonNegative(c, m) && forall k :: i < k < m ==> c[k] == 0
    requires Space(c, m - 1, m) < Pow2(m) < Space(c, m, m)
    ensures Pow2(m - i) < Count(c, m)
  {
    NoSpare(c, i, m - 1, m);
    SpaceLeft(c, m, i);
    assert Pow2(0) == 1;
    SpaceBound(c, m - 1, m);
  }

  /** What limiting does to a folded histogram c: it changes no length below lo, takes codes of length lo away, and
      leaves few codes between lo and m. */
  ghost predicate Rebalanced(c: seq<int>, d: seq<int>, lo: nat, len: int, m: nat) {
    && 1 <= lo <= m < |c| == |d| && NonNegative(c, m) && NonNegative(d, m) && Count(c, m) == Count(d, m) == len
    && (forall j :: 1 <= j <= lo && j < m ==> d[j] <= c[j]) && 0 <= Spare(d, lo, m - 1, m) <= len
    && Pow2(m) <= Space(d, m, m) <= Space(c, m, m)
  }

  /** Rebalanced, with the bound that the rounds keep. */
  ghost predicate Rebalancing(c: seq<int>, d: seq<int>, lo: nat, len: int, m: nat) {
    && Rebalanced(c, d, lo, len, m) && Space(d, m - 1, m) <= Space(c, m - 1, m)
    && (lo == m ==> d == c) && (lo < m ==> Spare(d, lo, m - 1, m) <= Pow2(m - lo) - 2 && Pow2(m - lo) <= len)
  }

  lemma {:induction false} SpareNonNegative(c: seq<int>, lo: nat, k: nat, m: nat)
    requires k < |c| && k <= m && NonNegative(c, k)
    ensures Spare(c, lo, k, m) >= 0
  {
    if k > lo {
      SpareNonNegative(c, lo, k - 1, m);
      MulOrder(c[k], 1, Pow2(m - k));
      MulDistr(Pow2(m - k), -1, c[k]);
    }
  }

  /** A round that splits a code of length i. */
  lemma NextRound(c: seq<int>, d: seq<int>, lo: nat, len: int, m: nat, i: nat) returns (lo': nat)
    requires Rebalancing(c, d, lo, len, m) && 1 <= i < m && d[m] >= 1 && d[i] >= 1
    requires forall k :: i < k < m ==> d[k] == 0
    requires Space(c, m - 1, m) < Pow2(m) < Space(d, m, m)
    ensures Rebalancing(c, Split(d, m, i), lo', len, m)
  {
    SplitCounts(d, m, i);
    lo' := if i <= lo then i else lo;
    SplitSpare(d, m, i, lo');
    SpareNonNegative(Split(d, m, i), lo', m - 1, m);
    if i <= lo {
      ManyLongest(d, m, i);
      NoSpare(d, i, m - 1, m);
    }
    hide Spare, Space, Count, Pow2;
  }

  lemma SpaceFits32(c: seq<int>, k: nat, m: nat)
    requires k <= m < |c| && 1 <= m <= 15 && NonNegative(c, m) && Count(c, m) <= Pow2(m)
    ensures 0 <= Space(c, k, m) <= Space(c, m, m) < 0x1_0000_0000
  {
    SpaceBound(c, m, m);
    SpaceBound(c, k, m);
    LongCodes(c, k, m, m);
    assert Pow2(15) == 0x8000 && Pow2(14) == 0x4000;
    Pow2Monotone(m - 1, 14);
    Pow2Monotone(m, 15);
    MulOrder(Count(c, m), Pow2(m - 1), 0x4000);
  }

  /** The search of one round: splits the longest code shorter than m, if there is one. */
  method SplitShorter(num: array<int>, m: int) returns (i: int)
    requires 1 <= m < num.Length
    modifies num
    ensures 0 <= i < m && (i > 0 ==> old(num[..])[i] != 0)
    ensures forall k :: i < k < m ==> old(num[..])[k] == 0
    ensures num[..] == if i == 0 then old(num[..]) else old(num[..])[i := old(num[i]) - 1][i + 1 := old(num[i + 1]) + 2]
  {
    i := m - 1;
    while i > 0
      invariant 0 <= i < m && num[..] == old(num[..])
      invariant forall k :: i < k < m ==> old(num[k]) == 0
    {
      if num[i] != 0 {
        num[i] := num[i] - 1;
        num[i + 1] := num[i + 1] + 2;
        return;
      }
      i := i - 1;
    }
  }

  /** The total the source adds up in 32 bits. */
  method TotalSpace(num: array<int>, m: int) returns (total: nat)
    requires 1 <= m <= 15 && m < num.Length && NonNegative(num[..], m) && Count(num[..], m) <= Pow2(m)
    ensures total == Space(num[..], m, m)
  {
    total := 0;
    var i := m;
    while i > 0
      invariant 0 <= i <= m
      invariant total == Space(num[..], m, m) - Space(num[..], i, m)
    {
      SpaceFits32(num[..], i, m);
      SpaceFits32(num[..], i - 1, m);
      total := U32(total + num[i] * Pow2(m - i));
      i := i - 1;
    }
  }

  lemma StartRounds(c: seq<int>, len: int, m: nat)
    requires 1 <= m < |c| && NonNegative(c, m) && Count(c, m) == len && Pow2(m) <= Space(c, m, m)
    ensures Rebalancing(c, c, m, len, m)
  {
    SpaceBound(c, m, m);
  }

  lemma RoundFacts(c: seq<int>, d: seq<int>, lo: nat, len: int, m: nat)
    requires Rebalancing(c, d, lo, len, m)
    ensures m < |d| && NonNegative(d, m) && Count(d, m) == len && Rebalanced(c, d, lo, len, m)
    ensures Pow2(m) <= Space(d, m, m) <= Space(c, m, m) && Space(d, m - 1, m) <= Space(c, m - 1, m)
  {
  }

  /** The rounds: every one frees one unit of an overfull code space. */
  method Rebalance(num: array<int>, len: int, m: int, total0: nat) returns (ghost lo: nat)
    requires 1 <= m <= 15 && m < num.Length
    requires NonNegative(num[..], m) && Count(num[..], m) == len <= Pow2(m)
    requires Pow2(m) <= total0 == Space(num[..], m, m) <= Pow2(m) + num[m] && total0 < 0x1_0000_0000
    requires total0 > Pow2(m) ==> Space(num[..], m - 1, m) < Pow2(m)
    modifies num
    ensures Rebalanced(old(num[..]), num[..], lo, len, m) && Space(num[..], m, m) == Pow2(m)
    ensures total0 == Pow2(m) ==> num[..] == old(num[..])
  {
    hide Pow2, Space, Count, Rebalancing, Rebalanced;
    ghost var c := num[..];
    var total := total0;
    lo := m;
    StartRounds(c, len, m);
    while total != Pow2(m)
      invariant Pow2(m) <= total == Space(num[..], m, m) <= total0
      invariant num[m] >= total - Pow2(m)
      invariant Rebalancing(c, num[..], lo, len, m)
      invariant total0 == Pow2(m) ==> num[..] == c
      decreases total
    {
      ghost var d := num[..];
      RoundFacts(c, d, lo, len, m);
      num[m] := num[m] - 1;
      ghost var e := num[..];
      var i := SplitShorter(num, m);
      if i == 0 {
        assert forall k :: 1 <= k < m ==> d[k] == e[k] == 0;
        AllLongest(d, m);
      }
      assert num[..] == Split(d, m, i);
      SplitCounts(d, m, i);
      assert forall k :: i < k < m ==> d[k] == e[k] == 0;
      assert d[i] == e[i];
      lo := NextRound(c, d, lo, len, m, i);
      total := U32(total - 1);
    }
    RoundFacts(c, num[..], lo, len, m);
  }

  lemma AllLongest(c: seq<int>, m: nat)
    requires 1 <= m < |c| && forall i :: 1 <= i < m ==> c[i] == 0
    ensures Space(c, m, m) == Count(c, m)
  {
    OnlyLongest(c, m - 1, m);
    assert Pow2(0) == 1;
  }

  /** The histogram with everything longer than m counted as m. */
  ghost function Fold(c: seq<int>, m: nat): (r: seq<int>)
    requires 1 <= m < |c| == 33
    ensures |r| == |c|
  {
    c[m := c[m] + (Count(c, 32) - Count(c, m))]
  }

  /** Codes longer than m take some space. */
  lemma {:induction false} LongTakeSpace(c: seq<int>, m: nat, e: nat, u: nat)
    requires m <= e < |c| && e <= u && NonNegative(c, e)
    ensures Space(c, e, u) - Space(c, m, u) >= Count(c, e) - Count(c, m) >= 0
    decreases e
  {
    if m < e {
      LongTakeSpace(c, m, e - 1, u);
      MulOrder(c[e], 1, Pow2(u - e));
    }
  }

  lemma CancelStrictly(x: int, y: int, q: int)
    requires q > 0 && x * q < y * q
    ensures x < y
  {
    if x >= y {
      MulDistr(x - y, y, q);
      MulOrder(x - y, q, q);
    }
  }

  lemma SpaceBelowLongest(c: seq<int>, m: nat)
    requires 1 <= m < |c| == 33 && NonNegative(c, 32) && Space(c, 32, 32) == Pow2(32) && Count(c, 32) > Count(c, m)
    ensures Space(c, m, m) < Pow2(m)
  {
    SpaceRescale(c, m, m, 32 - m);
    Pow2Add(m, 32 - m);
    assert m + (32 - m) == 32;
    LongTakeSpace(c, m, 32, 32);
    hide Space, Count, Pow2;
    CancelStrictly(Space(c, m, m), Pow2(m), Pow2(32 - m));
  }

  /** If something is too long, the shorter codes leave space. */
  lemma ShorterLeaveSpace(c: seq<int>, m: nat)
    requires 1 <= m < |c| == 33 && NonNegative(c, 32) && Space(c, 32, 32) == Pow2(32)
    requires Space(Fold(c, m), m, m) > Pow2(m)
    ensures Space(Fold(c, m), m - 1, m) < Pow2(m)
  {
    var f := Count(c, 32) - Count(c, m);
    TopUpdate(c, m, c[m] + f);
    LongShare(c, m);
    SpaceUpdate(c, m - 1, m, m, c[m] + f);
    SpaceBelowLongest(c, m);
    LongCodes(c, m - 1, m, m);
    hide Space, Count, Pow2;
  }

  /** tdefl_huffman_enforce_max_code_size: caps code lengths at `m`. When the code had more than one symbol
      and filled the code space, it still has as many and fills it exactly, with no length above m. */
  method EnforceMaxCodeSize(num: array<int>, len: int, m: int) returns (ghost lo: nat)
    requires num.Length == 33 && 1 <= m <= 15
    requires NonNegative(num[..], 32) && len == Count(num[..], 32) && len <= Pow2(m)
    requires len > 1 ==> Space(num[..], 32, 32) == Pow2(32)
    modifies num
    ensures len <= 1 ==> num[..] == old(num[..])
    ensures len > 1 ==> NonNegative(num[..], m) && Count(num[..], m) == len && Space(num[..], m, m) == Pow2(m)
    ensures len > 1 ==> Rebalanced(Fold(old(num[..]), m), num[..], lo, len, m)
    ensures len > 1 ==> Space(Fold(old(num[..]), m), m, m) <= Pow2(m) + len
    ensures (forall k :: m < k <= 32 ==> old(num[k]) == 0) ==> num[..] == old(num[..])
  {
    hide Pow2, Space;
    lo := m;
    if len <= 1 {
      return;
    }
    ghost var c := num[..];
    var i := m + 1;
    while i <= MAX_SUPPORTED_HUFF_CODESIZE
      invariant m + 1 <= i <= 33
      invariant num[..] == c[m := c[m] + Count(c, i - 1) - Count(c, m)]
    {
      num[m] := num[m] + num[i];
      i := i + 1;
    }
    Folded(c, m, num[..]);
    SpaceFits32(num[..], m, m);
    var total := TotalSpace(num, m);
    if total > Pow2(m) {
      ShorterLeaveSpace(c, m);
    }
    LongestAtMost(num[..], m);
    lo := Rebalance(num, len, m, total);
  }

  lemma LongestAtMost(c: seq<int>, m: nat)
    requires 1 <= m < |c| && NonNegative(c, m)
    ensures c[m] <= Count(c, m)
  {
    SpaceBound(c, m - 1, m);
  }
}
