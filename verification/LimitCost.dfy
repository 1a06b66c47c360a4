/** What limiting the code lengths to 15 bits costs: less than n / 270 bits for every symbol coded with n codes. */
module LimitCost {
  import opened Sums
  import opened HuffmanTree
  import LengthLimit

  /** Position k of `used`, counted in frequency order, gets a code of size v. */
  ghost predicate Level(num: seq<int>, used: nat, k: nat, v: nat)
    requires v < |num|
  {
    v >= 1 && used - LengthLimit.Count(num, v) <= k < used - LengthLimit.Count(num, v - 1)
  }

  /** s gives every position the size that the histogram provides for it. */
  ghost predicate Ranked(num: seq<int>, s: seq<nat>, m: nat) {
    && m < |num| && LengthLimit.NonNegative(num, m) && LengthLimit.Count(num, m) == |s|
    && forall k :: 0 <= k < |s| ==> 1 <= s[k] <= m && Level(num, |s|, k, s[k])
  }

  lemma {:induction false} CountMonotone(num: seq<int>, a: nat, b: nat)
    requires a <= b < |num| && LengthLimit.NonNegative(num, b)
    ensures LengthLimit.Count(num, a) <= LengthLimit.Count(num, b)
    decreases b
  {
    if a < b {
      CountMonotone(num, a, b - 1);
    }
  }

  lemma LevelUnique(num: seq<int>, used: nat, k: nat, v: nat, w: nat)
    requires v <= w < |num| && LengthLimit.NonNegative(num, w) && Level(num, used, k, v) && Level(num, used, k, w)
    ensures v == w
  {
    if v < w {
      CountMonotone(num, v, w - 1);
    }
  }

  // ---------------------------------------------------------------- sums over positions and over the histogram

  ghost function SpareAt(v: nat, lo: nat, m: nat): nat
    requires v <= m
  {
    if v > lo then Pow2(m - v) - 1 else 0
  }

  /** The units that the codes longer than lo could still free. */
  ghost function SpareOf(s: seq<nat>, lo: nat, m: nat): nat
    requires AllAtMost(s, m)
  {
    if s == [] then 0 else SpareOf(s[..|s| - 1], lo, m) + SpareAt(s[|s| - 1], lo, m)
  }

  lemma OneMoreTime(n: nat, x: int)
    requires n > 0
    ensures n * x == (n - 1) * x + x
  {
  }

  lemma PushSums(s: seq<nat>, k: nat, lo: nat, m: nat)
    requires k < |s| && AllAtMost(s, m)
    ensures Kraft(s[..k + 1], m) == Kraft(s[..k], m) + Pow2(m - s[k])
    ensures SpareOf(s[..k + 1], lo, m) == SpareOf(s[..k], lo, m) + SpareAt(s[k], lo, m)
  {
    assert s[..k + 1][..k] == s[..k];
  }

  /** A run of equal sizes. */
  lemma {:induction false} RunOf(s: seq<nat>, a: nat, b: nat, v: nat, lo: nat, m: nat)
    requires a <= b <= |s| && AllAtMost(s, m) && v <= m && forall k :: a <= k < b ==> s[k] == v
    ensures Kraft(s[..b], m) == Kraft(s[..a], m) + (b - a) * Pow2(m - v)
    ensures SpareOf(s[..b], lo, m) == SpareOf(s[..a], lo, m) + (b - a) * SpareAt(v, lo, m)
    decreases b
  {
    hide Pow2, SpareAt, SpareOf, Kraft;
    if a < b {
      RunOf(s, a, b - 1, v, lo, m);
      PushSums(s, b - 1, lo, m);
      OneMoreTime(b - a, Pow2(m - v));
      OneMoreTime(b - a, SpareAt(v, lo, m));
    }
  }

  /** The positions of size v are consecutive. */
  lemma LevelRange(num: seq<int>, s: seq<nat>, m: nat, v: nat)
    requires Ranked(num, s, m) && 1 <= v <= m
    ensures 0 <= |s| - LengthLimit.Count(num, v) <= |s| - LengthLimit.Count(num, v - 1) <= |s|
    ensures forall k :: |s| - LengthLimit.Count(num, v) <= k < |s| - LengthLimit.Count(num, v - 1) ==> s[k] == v
  {
    CountMonotone(num, v, m);
    CountMonotone(num, v - 1, v);
    CountMonotone(num, 0, v - 1);
    forall k | |s| - LengthLimit.Count(num, v) <= k < |s| - LengthLimit.Count(num, v - 1) ensures s[k] == v {
      assert Level(num, |s|, k, s[k]);
      if s[k] <= v {
        LevelUnique(num, |s|, k, s[k], v);
      } else {
        LevelUnique(num, |s|, k, v, s[k]);
      }
    }
  }

  /** Space and spare units of the sizes above j, which belong to the first p positions. */
  ghost predicate SumsAbove(num: seq<int>, s: seq<nat>, lo: nat, m: nat, j: nat, p: nat) {
    && j <= m < |num| && AllAtMost(s, m) && p <= |s|
    && Kraft(s[..p], m) == LengthLimit.Space(num, m, m) - LengthLimit.Space(num, j, m)
    && SpareOf(s[..p], lo, m) == LengthLimit.Spare(num, lo, m, m) - LengthLimit.Spare(num, lo, j, m)
  }

  lemma SumsNext(num: seq<int>, s: seq<nat>, lo: nat, m: nat, j: nat, a: nat, b: nat)
    requires j < m && SumsAbove(num, s, lo, m, j + 1, a) && a <= b <= |s| && b - a == num[j + 1]
    requires forall k :: a <= k < b ==> s[k] == j + 1
    ensures SumsAbove(num, s, lo, m, j, b)
  {
    RunOf(s, a, b, j + 1, lo, m);
    hide Kraft, SpareOf, Pow2;
  }

  lemma {:induction false} RankedSums(num: seq<int>, s: seq<nat>, lo: nat, m: nat, j: nat)
    requires Ranked(num, s, m) && j <= m && m < |num|
    ensures 0 <= |s| - LengthLimit.Count(num, j) <= |s|
    ensures SumsAbove(num, s, lo, m, j, |s| - LengthLimit.Count(num, j))
    decreases m - j
  {
    hide Ranked, Level, SumsAbove;
    if j < m {
      RankedSums(num, s, lo, m, j + 1);
      LevelRange(num, s, m, j + 1);
      SumsNext(num, s, lo, m, j, |s| - LengthLimit.Count(num, j + 1), |s| - LengthLimit.Count(num, j));
    } else {
      NothingRanked(num, s, lo, m);
    }
  }

  lemma NothingRanked(num: seq<int>, s: seq<nat>, lo: nat, m: nat)
    requires Ranked(num, s, m)
    ensures m < |num| && |s| - LengthLimit.Count(num, m) == 0 && SumsAbove(num, s, lo, m, m, 0)
  {
    assert s[..0] == [];
  }

  lemma RankedTotals(num: seq<int>, s: seq<nat>, lo: nat, m: nat)
    requires Ranked(num, s, m) && 1 <= m && lo <= m
    ensures AllAtMost(s, m) && m < |num| && Kraft(s, m) == LengthLimit.Space(num, m, m)
    ensures SpareOf(s, lo, m) == LengthLimit.Spare(num, lo, m - 1, m)
  {
    RankedSums(num, s, lo, m, 0);
    assert s[..|s|] == s;
    assert Pow2(0) == 1;
  }

  // ---------------------------------------------------------------- folded lengths

  ghost function Cut(len: seq<nat>, m: nat): (a: seq<nat>)
    ensures |a| == |len| && forall k :: 0 <= k < |len| ==> a[k] == if len[k] < m then len[k] else m
  {
    seq(|len|, k requires 0 <= k < |len| => if len[k] < m then len[k] else m)
  }

  lemma {:induction false} CountBelow(c: seq<int>, d: seq<int>, j: nat)
    requires j < |c| && j < |d| && forall i :: 1 <= i <= j ==> d[i] <= c[i]
    ensures LengthLimit.Count(d, j) <= LengthLimit.Count(c, j)
  {
    if j > 0 {
      CountBelow(c, d, j - 1);
    }
  }

  lemma CutRanked(c: seq<int>, len: seq<nat>, m: nat)
    requires 1 <= m < |c| == 33 && Ranked(c, len, 32)
    requires LengthLimit.NonNegative(LengthLimit.Fold(c, m), m)
    requires LengthLimit.Count(LengthLimit.Fold(c, m), m) == |len|
    ensures Ranked(LengthLimit.Fold(c, m), Cut(len, m), m)
  {
    var d, a := LengthLimit.Fold(c, m), Cut(len, m);
    forall k | 0 <= k < |a| ensures 1 <= a[k] <= m && Level(d, |a|, k, a[k]) {
      assert Level(c, |len|, k, len[k]);
      CountBelow(c, d, a[k] - 1);
      CountBelow(d, c, a[k] - 1);
      if len[k] < m {
        CountBelow(c, d, a[k]);
        CountBelow(d, c, a[k]);
      } else {
        CountMonotone(c, m - 1, len[k] - 1);
      }
    }
  }

  /** Sizes up to lo have not become shorter. */
  lemma NotShortened(c: seq<int>, d: seq<int>, lo: nat, n: nat, m: nat, k: nat, x: nat, y: nat)
    requires LengthLimit.Rebalanced(c, d, lo, n, m) && 1 <= x <= m && 1 <= y <= m && k < n
    requires Level(c, n, k, x) && Level(d, n, k, y) && y < x
    ensures y > lo
  {
    if y <= lo {
      CountBelow(c, d, y);
      CountMonotone(c, y, x - 1);
    }
  }

  // ---------------------------------------------------------------- what a longer code costs

  /** The constants behind the bound; 540 is the largest factor for which all 105 cases hold. */
  lemma Constants()
    ensures Fib(2) == 1 && Fib(3) == 2 && Fib(4) == 3 && Fib(5) == 5 && Fib(6) == 8 && Fib(7) == 13 && Fib(8) == 21
    ensures Fib(9) == 34 && Fib(10) == 55 && Fib(11) == 89 && Fib(12) == 144 && Fib(13) == 233 && Fib(14) == 377
    ensures Fib(15) == 610 && Fib(16) == 987
    ensures Pow2(0) == 1 && Pow2(1) == 2 && Pow2(2) == 4 && Pow2(3) == 8 && Pow2(4) == 16 && Pow2(5) == 32
    ensures Pow2(6) == 64 && Pow2(7) == 128 && Pow2(8) == 256 && Pow2(9) == 512 && Pow2(10) == 1024
    ensures Pow2(11) == 2048 && Pow2(12) == 4096 && Pow2(13) == 8192 && Pow2(14) == 16384
  {
  }

  lemma FarCase(a: nat, s: nat)
    requires 8 <= a < s <= 15
    ensures 540 * (s - a) <= Fib(a + 1) * (Pow2(15 - a) - Pow2(15 - s))
  {
    Constants();
    hide Fib, Pow2;
  }

  lemma NearCase(a: nat, s: nat)
    requires 1 <= a < 8 && a < s <= 15
    ensures 540 * (s - a) <= Fib(a + 1) * (Pow2(15 - a) - Pow2(15 - s))
  {
    Constants();
    hide Fib, Pow2;
  }

  lemma Scale(x: int, y: int, c: nat)
    requires x <= y
    ensures x * c <= y * c && c * x <= c * y
  {
  }

  lemma Assoc(x: int, y: int, z: int)
    ensures x * (y * z) == (x * y) * z
  {
  }

  lemma LongerPays(w: nat, x: nat, f: nat, d: nat, t: nat)
    requires 540 * x <= f * d && f * w <= t
    ensures 540 * (w * x) <= t * d
  {
    Scale(540 * x, f * d, w);
    Scale(f * w, t, d);
    assert w * (540 * x) == 540 * (w * x);
    assert w * (f * d) == (f * w) * d;
  }

  /** How many units position k may be charged for going from size a to size s. */
  ghost function Charge(a: nat, s: nat, lo: nat): int
    requires a <= 15 && s <= 15
  {
    Pow2(15 - a) - Pow2(15 - s) + SpareAt(s, lo, 15)
  }

  /** What a size s in place of a costs a symbol that occurs w times, in a text of t symbols. */
  ghost predicate Pays(w: nat, a: nat, s: nat, t: nat, lo: nat)
    requires a <= 15 && s <= 15
  {
    540 * (w * s) <= 540 * (w * a) + t * Charge(a, s, lo)
  }

  /** A longer code costs at most t / 540 for every unit of code space it frees; a shorter one costs nothing, and the
      units it takes are spare ones. */
  lemma SizePays(w: nat, a: nat, s: nat, t: nat, lo: nat)
    requires 1 <= a <= 15 && 1 <= s <= 15 && Fib(a + 1) * w <= t && (s < a ==> s > lo)
    ensures Pays(w, a, s, t, lo)
  {
    var c := Charge(a, s, lo);
    if s <= a {
      assert c >= 0;
      Scale(s, a, w);
      Scale(0, c, t);
    } else {
      Pow2Monotone(15 - s, 15 - a);
      var d := Pow2(15 - a) - Pow2(15 - s);
      if a < 8 {
        NearCase(a, s);
      } else {
        FarCase(a, s);
      }
      LongerPays(w, s - a, Fib(a + 1), d, t);
      assert w * (s - a) == w * s - w * a;
      Scale(d, c, t);
    }
  }

  lemma AddUp(x: nat, y: nat, c: int, x': nat, y': nat, c': int, t: nat)
    requires 540 * x <= 540 * y + t * c && 540 * x' <= 540 * y' + t * c'
    ensures 540 * (x + x') <= 540 * (y + y') + t * (c + c')
  {
    assert t * (c + c') == t * c + t * c';
  }

  lemma LastCost(w: seq<nat>, l: seq<nat>)
    requires |w| == |l| > 0
    ensures Cost(w, l) == Cost(w[..|w| - 1], l[..|w| - 1]) + w[|w| - 1] * l[|w| - 1]
  {
  }

  /** The charges of all positions. */
  ghost function Charges(a: seq<nat>, s: seq<nat>, lo: nat): int
    requires AllAtMost(a, 15) && AllAtMost(s, 15)
  {
    Kraft(a, 15) - Kraft(s, 15) + SpareOf(s, lo, 15)
  }

  lemma LastCharge(a: seq<nat>, s: seq<nat>, lo: nat)
    requires |a| == |s| > 0 && AllAtMost(a, 15) && AllAtMost(s, 15)
    ensures var n := |a| - 1; Charges(a, s, lo) == Charges(a[..n], s[..n], lo) + Charge(a[n], s[n], lo)
  {
    hide Pow2, SpareAt;
  }

  /** The cost of sizes s against sizes a. */
  ghost predicate AllPaid(w: seq<nat>, a: seq<nat>, s: seq<nat>, t: nat, lo: nat)
    requires |w| == |a| == |s| && AllAtMost(a, 15) && AllAtMost(s, 15)
  {
    540 * Cost(w, s) <= 540 * Cost(w, a) + t * Charges(a, s, lo)
  }

  lemma LastPaid(w: seq<nat>, a: seq<nat>, s: seq<nat>, t: nat, lo: nat, n: nat)
    requires |w| == |a| == |s| == n + 1 && AllAtMost(a, 15) && AllAtMost(s, 15)
    requires AllPaid(w[..n], a[..n], s[..n], t, lo) && Pays(w[n], a[n], s[n], t, lo)
    ensures AllPaid(w, a, s, t, lo)
  {
    hide Cost, Charges, Charge, Pays;
    LastCost(w, s);
    LastCost(w, a);
    LastCharge(a, s, lo);
    PaysFor(w[n], a[n], s[n], t, lo);
    AddUp(Cost(w[..n], s[..n]), Cost(w[..n], a[..n]), Charges(a[..n], s[..n], lo), w[n] * s[n], w[n] * a[n],
      Charge(a[n], s[n], lo), t);
  }

  lemma NothingPaid(t: nat, lo: nat)
    ensures AllPaid([], [], [], t, lo)
  {
    assert Charges([], [], lo) == 0;
  }

  lemma {:induction false} SumPays(w: seq<nat>, a: seq<nat>, s: seq<nat>, t: nat, lo: nat)
    requires |w| == |a| == |s| && AllAtMost(a, 15) && AllAtMost(s, 15)
    requires forall k :: 0 <= k < |w| ==> Pays(w[k], a[k], s[k], t, lo)
    ensures AllPaid(w, a, s, t, lo)
  {
    hide AllPaid, Pays, Charge;
    if w == [] {
      NothingPaid(t, lo);
      assert a == [] && s == [];
    } else {
      var n := |w| - 1;
      SumPays(w[..n], a[..n], s[..n], t, lo);
      LastPaid(w, a, s, t, lo, n);
    }
  }

  lemma PaysFor(w: nat, a: nat, s: nat, t: nat, lo: nat)
    requires a <= 15 && s <= 15 && Pays(w, a, s, t, lo)
    ensures 540 * (w * s) <= 540 * (w * a) + t * Charge(a, s, lo)
  {
  }

  lemma {:induction false} ShorterCost(w: seq<nat>, a: seq<nat>, len: seq<nat>)
    requires |w| == |a| == |len| && forall k :: 0 <= k < |w| ==> a[k] <= len[k]
    ensures Cost(w, a) <= Cost(w, len)
  {
    if w != [] {
      var n := |w| - 1;
      ShorterCost(w[..n], a[..n], len[..n]);
      Scale(a[n], len[n], w[n]);
    }
  }

  lemma CutLight(f: seq<nat>, len: seq<nat>, k: nat)
    requires FibonacciBound(f, len) && k < |len|
    ensures Fib(Cut(len, 15)[k] + 1) * f[k] <= Sum(f)
  {
    var x := Cut(len, 15)[k];
    FibMonotone(x + 1, len[k] + 1);
    Scale(Fib(x + 1), Fib(len[k] + 1), f[k]);
    hide Fib, Sum;
  }

  lemma NotShortenedAt(c: seq<int>, d: seq<int>, lo: nat, a: seq<nat>, s: seq<nat>, k: nat)
    requires Ranked(c, a, 15) && Ranked(d, s, 15) && LengthLimit.Rebalanced(c, d, lo, |a|, 15)
    requires |s| == |a| && k < |a| && s[k] < a[k]
    ensures s[k] > lo
  {
    assert Level(c, |a|, k, a[k]) && Level(d, |a|, k, s[k]);
    NotShortened(c, d, lo, |a|, 15, k, a[k], s[k]);
  }

  lemma AllPay(f: seq<nat>, c: seq<int>, len: seq<nat>, d: seq<int>, lo: nat, s: seq<nat>)
    requires |f| == |len| == |s| && FibonacciBound(f, len) && Ranked(c, Cut(len, 15), 15) && Ranked(d, s, 15)
    requires LengthLimit.Rebalanced(c, d, lo, |f|, 15)
    ensures forall k :: 0 <= k < |f| ==> Cut(len, 15)[k] <= 15 && s[k] <= 15
    ensures forall k :: 0 <= k < |f| ==> Pays(f[k], Cut(len, 15)[k], s[k], Sum(f), lo)
  {
    hide Pow2, Fib, FibonacciBound, Ranked, LengthLimit.Rebalanced, Sum, Cut, Pays;
    var a := Cut(len, 15);
    forall k | 0 <= k < |f| ensures a[k] <= 15 && s[k] <= 15 && Pays(f[k], a[k], s[k], Sum(f), lo) {
      CutLight(f, len, k);
      SizesPositive(c, a, k);
      SizesPositive(d, s, k);
      if s[k] < a[k] {
        NotShortenedAt(c, d, lo, a, s, k);
      }
      SizePays(f[k], a[k], s[k], Sum(f), lo);
    }
  }

  /** In units of 1 / 540 bits: n / 270 bits for every symbol of the text. */
  function Allowance(n: nat, total: nat): nat {
    2 * n * total
  }

  /** The bits that limiting adds: at most n / 270 for every symbol of the text, with n codes. */
  lemma LimitedCost(f: seq<nat>, c: seq<int>, len: seq<nat>, d: seq<int>, lo: nat, s: seq<nat>)
    requires |f| == |len| == |s| && FibonacciBound(f, len) && |c| == 33 && Ranked(c, len, 32) && Ranked(d, s, 15)
    requires LengthLimit.Rebalanced(LengthLimit.Fold(c, 15), d, lo, |f|, 15)
    requires LengthLimit.Space(d, 15, 15) == Pow2(15)
    requires LengthLimit.Space(LengthLimit.Fold(c, 15), 15, 15) <= Pow2(15) + |f|
    ensures 540 * Cost(f, s) <= 540 * Cost(f, len) + Allowance(|f|, Sum(f))
  {
    hide *;
    var g, a, n := LengthLimit.Fold(c, 15), Cut(len, 15), |f|;
    RebalancedFacts(g, d, lo, n);
    CutRanked(c, len, 15);
    RankedTotals(g, a, lo, 15);
    RankedTotals(d, s, lo, 15);
    AllPay(f, g, len, d, lo, s);
    SumPays(f, a, s, Sum(f), lo);
    CutCost(f, len);
    PaidTotal(f, a, s, Sum(f), lo, n);
  }

  lemma CutCost(f: seq<nat>, len: seq<nat>)
    requires |f| == |len|
    ensures Cost(f, Cut(len, 15)) <= Cost(f, len)
  {
    ShorterCost(f, Cut(len, 15), len);
  }

  lemma PaidTotal(w: seq<nat>, a: seq<nat>, s: seq<nat>, t: nat, lo: nat, n: nat)
    requires |w| == |a| == |s| && AllAtMost(a, 15) && AllAtMost(s, 15) && AllPaid(w, a, s, t, lo)
    requires Kraft(a, 15) - Kraft(s, 15) + SpareOf(s, lo, 15) <= 2 * n
    ensures 540 * Cost(w, s) <= 540 * Cost(w, a) + Allowance(n, t)
  {
    hide Cost, Kraft, SpareOf;
    Scale(Charges(a, s, lo), 2 * n, t);
  }

  lemma SizesPositive(c: seq<int>, a: seq<nat>, k: nat)
    requires Ranked(c, a, 15) && k < |a|
    ensures 1 <= a[k] <= 15
  {
  }

  lemma RebalancedFacts(c: seq<int>, d: seq<int>, lo: nat, n: nat)
    requires LengthLimit.Rebalanced(c, d, lo, n, 15)
    ensures 1 <= lo <= 15 < |c| == |d| && LengthLimit.NonNegative(c, 15) && LengthLimit.Count(c, 15) == n
    ensures 0 <= LengthLimit.Spare(d, lo, 14, 15) <= n
  {
  }
}
