/** The text a code produces, by symbol: costs and code space do not depend on the order in which the symbols are
    counted, so that lengths by rank can be judged as sizes by symbol. */
module SymbolCosts {
  import opened Sums
  import opened Permutations
  import opened HuffmanTree
  import opened MinimumRedundancy
  import opened RadixSort
  import opened LimitCost

  /** The used symbols with their counts, in symbol order. */
  ghost function Used(f: seq<nat>): (s: seq<SymFreq>)
    ensures |s| <= |f|
  {
    if f == [] then []
    else if f[|f| - 1] != 0 then Used(f[..|f| - 1]) + [SymFreq(f[|f| - 1], |f| - 1)]
    else Used(f[..|f| - 1])
  }

  lemma {:induction false} UsedElements(f: seq<nat>)
    ensures forall x :: x in Used(f) <==> x.sym < |f| && f[x.sym] == x.key != 0
    ensures Ordered(Used(f), 0)
  {
    if f != [] {
      UsedElements(f[..|f| - 1]);
    }
  }

  ghost function Keys(t: seq<SymFreq>): (k: seq<nat>)
    ensures |k| == |t| && forall i :: 0 <= i < |t| ==> k[i] == t[i].key
  {
    if t == [] then [] else Keys(t[..|t| - 1]) + [t[|t| - 1].key]
  }

  // ---------------------------------------------------------------- totals over records

  ghost function Total(s: seq<SymFreq>, w: SymFreq -> nat): nat {
    if s == [] then 0 else Total(s[..|s| - 1], w) + w(s[|s| - 1])
  }

  lemma TotalPush(s: seq<SymFreq>, x: SymFreq, w: SymFreq -> nat)
    ensures Total(s + [x], w) == Total(s, w) + w(x)
  {
    assert (s + [x])[..|s|] == s;
  }

  lemma {:induction false} TotalInsert(a: seq<SymFreq>, x: SymFreq, b: seq<SymFreq>, w: SymFreq -> nat)
    ensures Total(a + [x] + b, w) == Total(a + b, w) + w(x)
  {
    if b == [] {
      assert a + [x] + b == a + [x] && a + b == a;
      TotalPush(a, x, w);
    } else {
      var b', y := b[..|b| - 1], b[|b| - 1];
      assert a + [x] + b == a + [x] + b' + [y] && a + b == a + b' + [y];
      TotalInsert(a, x, b', w);
      TotalPush(a + [x] + b', y, w);
      TotalPush(a + b', y, w);
    }
  }

  /** Totals do not depend on the order of the records. */
  lemma {:induction false} TotalPermutes(s: seq<SymFreq>, t: seq<SymFreq>, w: SymFreq -> nat)
    requires multiset(s) == multiset(t)
    ensures Total(s, w) == Total(t, w)
  {
    if s == [] {
      assert |multiset(t)| == 0;
      assert t == [];
    } else {
      var x, s' := s[|s| - 1], s[..|s| - 1];
      assert s == s' + [x];
      var a, b := FindElement(s', x, t);
      TotalPermutes(s', a + b, w);
      TotalInsert(a, x, b, w);
    }
  }

  /** A total over the used symbols, on plain counts. */
  ghost function UsedTotal(f: seq<nat>, w: SymFreq -> nat): nat {
    if f == [] then 0
    else UsedTotal(f[..|f| - 1], w) + if f[|f| - 1] != 0 then w(SymFreq(f[|f| - 1], |f| - 1)) else 0
  }

  lemma {:induction false} UsedIsTotal(f: seq<nat>, w: SymFreq -> nat)
    ensures Total(Used(f), w) == UsedTotal(f, w)
  {
    if f != [] {
      UsedIsTotal(f[..|f| - 1], w);
      TotalPush(Used(f[..|f| - 1]), SymFreq(f[|f| - 1], |f| - 1), w);
    }
  }

  lemma {:induction false} UsedSum(f: seq<nat>, w: SymFreq -> nat)
    requires forall x :: w(x) == x.key
    ensures UsedTotal(f, w) == Sum(f)
  {
    if f != [] {
      UsedSum(f[..|f| - 1], w);
    }
  }

  lemma {:induction false} KeysSum(t: seq<SymFreq>, w: SymFreq -> nat)
    requires forall x :: w(x) == x.key
    ensures Total(t, w) == Sum(Keys(t))
  {
    if t != [] {
      KeysSum(t[..|t| - 1], w);
      assert Keys(t)[..|t| - 1] == Keys(t[..|t| - 1]);
    }
  }

  lemma SortedSum(f: seq<nat>, t: seq<SymFreq>)
    requires multiset(t) == multiset(Used(f))
    ensures Sum(Keys(t)) == Sum(f)
  {
    var w := (x: SymFreq) => x.key;
    TotalPermutes(t, Used(f), w);
    UsedIsTotal(f, w);
    UsedSum(f, w);
    KeysSum(t, w);
  }

  ghost function Syms(t: seq<SymFreq>): (s: seq<nat>)
    ensures |s| == |t| && forall i :: 0 <= i < |t| ==> s[i] == t[i].sym
  {
    if t == [] then [] else Syms(t[..|t| - 1]) + [t[|t| - 1].sym]
  }

  lemma PositionOf(f: seq<nat>, t: seq<SymFreq>, i: nat) returns (k: nat)
    requires multiset(t) == multiset(Used(f)) && i < |f| && f[i] != 0
    ensures k < |t| && t[k] == SymFreq(f[i], i)
  {
    UsedElements(f);
    assert SymFreq(f[i], i) in multiset(t);
    k :| 0 <= k < |t| && t[k] == SymFreq(f[i], i);
  }

  lemma RecordAt(f: seq<nat>, t: seq<SymFreq>, k: nat)
    requires multiset(t) == multiset(Used(f)) && k < |t|
    ensures t[k].sym < |f| && t[k].key == f[t[k].sym] != 0
  {
    UsedElements(f);
    assert t[k] in multiset(t);
    assert t[k] in Used(f);
  }

  // ---------------------------------------------------------------- optimality, on symbols

  ghost function Share(l: seq<nat>, m: nat): SymFreq -> nat {
    (x: SymFreq) => if x.sym < |l| && l[x.sym] <= m then Pow2(m - l[x.sym]) else 0
  }

  ghost function Price(l: seq<nat>): SymFreq -> nat {
    (x: SymFreq) => if x.sym < |l| then x.key * l[x.sym] else 0
  }

  /** Sizes for the used symbols, none above m, that fit the code space. */
  ghost predicate FitsWithin(f: seq<nat>, l: seq<nat>, m: nat) {
    |l| == |f| && (forall i :: 0 <= i < |f| && f[i] > 0 ==> l[i] <= m) && UsedTotal(f, Share(l, m)) <= Pow2(m)
  }

  /** No sizes for the used symbols that fit the code space make the text shorter. */
  ghost predicate OptimalSizes(f: seq<nat>, sz: seq<nat>) {
    |sz| == |f| && forall l: seq<nat>, m: nat :: FitsWithin(f, l, m) ==> Cost(f, sz) <= Cost(f, l)
  }

  /** Some optimal sizes respect the limit. */
  ghost predicate Limitable(f: seq<nat>, m: nat) {
    exists l: seq<nat> :: FitsWithin(f, l, m) && OptimalSizes(f, l)
  }

  /** Every used symbol has at least one bit. */
  ghost predicate Nonzero(f: seq<nat>, l: seq<nat>) {
    |l| == |f| && forall i :: 0 <= i < |f| && f[i] > 0 ==> l[i] >= 1
  }

  /** With sizes sz the text is longer by at most |f| / 270 bits for each of its symbols. */
  ghost predicate CostsLittleMore(f: seq<nat>, sz: seq<nat>, l: seq<nat>) {
    |sz| == |l| == |f| && 540 * Cost(f, sz) <= 540 * Cost(f, l) + Allowance(|f|, Sum(f))
  }

  /** No sizes that fit the code space and give every used symbol a bit save much. */
  ghost predicate NearOptimal(f: seq<nat>, sz: seq<nat>) {
    forall l: seq<nat>, m: nat :: FitsWithin(f, l, m) && Nonzero(f, l) ==> CostsLittleMore(f, sz, l)
  }

  lemma {:induction false} CostTotal(f: seq<nat>, l: seq<nat>, w: SymFreq -> nat)
    requires |l| == |f| && forall i :: 0 <= i < |f| ==> w(SymFreq(f[i], i)) == f[i] * l[i]
    ensures Cost(f, l) == UsedTotal(f, w)
  {
    if f != [] {
      CostTotal(f[..|f| - 1], l[..|l| - 1], w);
    }
  }

  /** The entries of l for the symbols of t. */
  ghost function Pick(l: seq<nat>, t: seq<SymFreq>): (g: seq<nat>)
    requires forall k :: 0 <= k < |t| ==> t[k].sym < |l|
    ensures |g| == |t| && forall k :: 0 <= k < |t| ==> g[k] == l[t[k].sym]
  {
    if t == [] then [] else Pick(l, t[..|t| - 1]) + [l[t[|t| - 1].sym]]
  }

  lemma {:induction false} CostOfRecords(t: seq<SymFreq>, g: seq<nat>, w: SymFreq -> nat)
    requires |g| == |t| && forall k :: 0 <= k < |t| ==> w(t[k]) == t[k].key * g[k]
    ensures Cost(Keys(t), g) == Total(t, w)
  {
    if t != [] {
      assert Keys(t)[..|t| - 1] == Keys(t[..|t| - 1]);
      CostOfRecords(t[..|t| - 1], g[..|t| - 1], w);
    }
  }

  lemma {:induction false} KraftOfRecords(t: seq<SymFreq>, g: seq<nat>, m: nat, w: SymFreq -> nat)
    requires |g| == |t| && AllAtMost(g, m) && forall k :: 0 <= k < |t| ==> w(t[k]) == Pow2(m - g[k])
    ensures Kraft(g, m) == Total(t, w)
  {
    if t != [] {
      KraftOfRecords(t[..|t| - 1], g[..|t| - 1], m, w);
    }
  }

  lemma AllRecords(f: seq<nat>, t: seq<SymFreq>)
    requires multiset(t) == multiset(Used(f))
    ensures forall k :: 0 <= k < |t| ==> t[k].sym < |f| && t[k].key == f[t[k].sym] != 0
  {
    forall k | 0 <= k < |t| ensures t[k].sym < |f| && t[k].key == f[t[k].sym] != 0 {
      RecordAt(f, t, k);
    }
  }

  lemma CostMoves(f: seq<nat>, t: seq<SymFreq>, l: seq<nat>)
    requires multiset(t) == multiset(Used(f)) && |l| == |f|
    ensures forall k :: 0 <= k < |t| ==> t[k].sym < |l|
    ensures Cost(f, l) == Cost(Keys(t), Pick(l, t))
  {
    AllRecords(f, t);
    var w := Price(l);
    CostTotal(f, l, w);
    UsedIsTotal(f, w);
    TotalPermutes(t, Used(f), w);
    CostOfRecords(t, Pick(l, t), w);
  }

  lemma KraftMoves(f: seq<nat>, t: seq<SymFreq>, l: seq<nat>, m: nat)
    requires multiset(t) == multiset(Used(f)) && |l| == |f| && forall i :: 0 <= i < |f| && f[i] > 0 ==> l[i] <= m
    ensures forall k :: 0 <= k < |t| ==> t[k].sym < |l|
    ensures AllAtMost(Pick(l, t), m) && Kraft(Pick(l, t), m) == UsedTotal(f, Share(l, m))
  {
    AllRecords(f, t);
    var w := Share(l, m);
    UsedIsTotal(f, w);
    TotalPermutes(t, Used(f), w);
    KraftOfRecords(t, Pick(l, t), m, w);
  }

  lemma FitMoves(f: seq<nat>, t: seq<SymFreq>, l: seq<nat>, m: nat)
    requires multiset(t) == multiset(Used(f)) && FitsWithin(f, l, m)
    ensures forall k :: 0 <= k < |t| ==> t[k].sym < |l|
    ensures AllAtMost(Pick(l, t), m) && Kraft(Pick(l, t), m) <= Pow2(m) && Cost(f, l) == Cost(Keys(t), Pick(l, t))
  {
    hide Used, Kraft, Cost, Keys, Pow2, UsedTotal, Share;
    CostMoves(f, t, l);
    KraftMoves(f, t, l, m);
  }

  lemma LeastCost(k: seq<nat>, len: seq<nat>, g: seq<nat>, m: nat)
    requires OptimalLengths(k, len) && |g| == |k| && AllAtMost(g, m) && Kraft(g, m) <= Pow2(m)
    ensures |len| == |k| && Cost(k, len) <= Cost(k, g) && (Cost(k, len) == Cost(k, g) ==> AllAtMost(len, m))
  {
    hide Kraft, Cost, Pow2, AllAtMost, Sum;
  }

  lemma LengthsFill(k: seq<nat>, len: seq<nat>)
    requires OptimalLengths(k, len)
    ensures |len| == |k| && AllAtMost(len, 32) && Kraft(len, 32) == Pow2(32)
  {
    hide Kraft, Cost, Pow2, Sum;
  }

  lemma NoCheaper(f: seq<nat>, t: seq<SymFreq>, len: seq<nat>, l: seq<nat>, m: nat)
    requires multiset(t) == multiset(Used(f)) && OptimalLengths(Keys(t), len) && FitsWithin(f, l, m)
    ensures |len| == |t| && |l| == |f| && Cost(Keys(t), len) <= Cost(f, l)
  {
    hide Used, Kraft, Cost, Keys, Pow2, FitsWithin, OptimalLengths, AllAtMost;
    SameLength(f, l, m);
    FitMoves(f, t, l, m);
    LeastCost(Keys(t), len, Pick(l, t), m);
  }

  lemma PickedLengths(t: seq<SymFreq>, len: seq<nat>, sz: seq<nat>)
    requires |len| == |t| && forall k :: 0 <= k < |t| ==> t[k].sym < |sz| && sz[t[k].sym] == len[k]
    ensures Pick(sz, t) == len
  {
  }

  /** Optimal lengths by rank are optimal sizes by symbol. */
  lemma OptimalBySymbol(f: seq<nat>, t: seq<SymFreq>, len: seq<nat>, sz: seq<nat>)
    requires multiset(t) == multiset(Used(f)) && |sz| == |f| && OptimalLengths(Keys(t), len)
    requires |len| == |t| && forall k :: 0 <= k < |t| ==> t[k].sym < |sz| && sz[t[k].sym] == len[k]
    ensures OptimalSizes(f, sz)
  {
    hide Used, Cost, Keys, FitsWithin, OptimalLengths, Pick;
    CostMoves(f, t, sz);
    PickedLengths(t, len, sz);
    forall l: seq<nat>, m: nat | FitsWithin(f, l, m) ensures |l| == |f| && Cost(f, sz) <= Cost(f, l) {
      NoCheaper(f, t, len, l, m);
    }
  }

  lemma SameLength(f: seq<nat>, l: seq<nat>, m: nat)
    requires FitsWithin(f, l, m)
    ensures |l| == |f|
  {
  }

  ghost predicate Distinct(t: seq<nat>, n: nat) {
    (forall k :: 0 <= k < |t| ==> t[k] < n) && forall j, k :: 0 <= j < k < |t| ==> t[j] != t[k]
  }

  lemma SymsDistinct(f: seq<nat>, t: seq<SymFreq>)
    requires Sorts(Used(f), t)
    ensures Distinct(Syms(t), |f|)
  {
    hide Used, Syms;
    var s := Syms(t);
    forall k | 0 <= k < |t| ensures t[k].sym < |f| && t[k].key == f[t[k].sym] != 0 {
      RecordAt(f, t, k);
    }
    forall j, k | 0 <= j < k < |t| ensures s[j] != s[k] {
      assert t[j].key < t[k].key || t[j].sym < t[k].sym;
    }
  }

  /** Lengths by rank, put where their symbols are. */
  lemma {:induction false} PlaceSizes(n: nat, syms: seq<nat>, len: seq<nat>) returns (sz: seq<nat>)
    requires Distinct(syms, n) && |len| == |syms|
    ensures |sz| == n && forall k :: 0 <= k < |syms| ==> sz[syms[k]] == len[k]
  {
    if syms == [] {
      sz := seq(n, _ => 0);
    } else {
      var k := |syms| - 1;
      sz := PlaceSizes(n, syms[..k], len[..k]);
      sz := sz[syms[k] := len[k]];
    }
  }

  /** Some optimal sizes respect the limit exactly if the computed lengths do. */
  lemma LimitableLengths(f: seq<nat>, t: seq<SymFreq>, len: seq<nat>, m: nat)
    requires Sorts(Used(f), t) && OptimalLengths(Keys(t), len)
    ensures Limitable(f, m) <==> AllAtMost(len, m)
  {
    hide Used, Kraft, Cost, Keys, Pow2, FitsWithin, Sum, OptimalLengths, Sorts, Syms, AllAtMost;
    LengthsFill(Keys(t), len);
    SortsPermutes(f, t);
    SymsDistinct(f, t);
    var sz := PlaceSizes(|f|, Syms(t), len);
    AllRecords(f, t);
    assert forall k :: 0 <= k < |t| ==> Syms(t)[k] == t[k].sym;
    assert Pick(sz, t) == len;
    OptimalBySymbol(f, t, len, sz);
    if AllAtMost(len, m) {
      LengthsFit(f, t, len, sz, m);
    }
    if Limitable(f, m) {
      LengthsFit(f, t, len, sz, 32);
      var l: seq<nat> :| FitsWithin(f, l, m) && OptimalSizes(f, l);
      SameLength(f, l, m);
      FitMoves(f, t, l, m);
      CostMoves(f, t, sz);
      LeastCost(Keys(t), len, Pick(l, t), m);
    }
  }

  lemma SortsPermutes(f: seq<nat>, t: seq<SymFreq>)
    requires Sorts(Used(f), t)
    ensures multiset(t) == multiset(Used(f)) && |t| == |Used(f)|
  {
  }

  lemma LengthsFit(f: seq<nat>, t: seq<SymFreq>, len: seq<nat>, sz: seq<nat>, m: nat)
    requires multiset(t) == multiset(Used(f)) && |sz| == |f| && AllAtMost(len, m)
    requires AllAtMost(len, 32) && Kraft(len, 32) == Pow2(32)
    requires (forall k :: 0 <= k < |t| ==> t[k].sym < |sz|) && Pick(sz, t) == len
    ensures FitsWithin(f, sz, m)
  {
    hide Used, Kraft, Cost, Keys, Pow2, UsedTotal, Share;
    forall i | 0 <= i < |f| && f[i] > 0 ensures sz[i] <= m {
      var k := PositionOf(f, t, i);
      assert Pick(sz, t)[k] == sz[i];
    }
    KraftMoves(f, t, sz, m);
    KraftUnits(len, m);
  }

  lemma {:induction false} KraftScale(l: seq<nat>, m: nat, d: nat)
    requires AllAtMost(l, m)
    ensures AllAtMost(l, m + d) && Kraft(l, m + d) == Kraft(l, m) * Pow2(d)
  {
    if l != [] {
      var n := |l| - 1;
      KraftScale(l[..n], m, d);
      Pow2Add(m - l[n], d);
      assert m - l[n] + d == m + d - l[n];
      hide Pow2;
      Distribute(Kraft(l[..n], m), Pow2(m - l[n]), Pow2(d));
    }
  }

  /** Filling the code space does not depend on the unit it is measured in. */
  lemma KraftUnits(l: seq<nat>, m: nat)
    requires AllAtMost(l, m) && AllAtMost(l, 32) && Kraft(l, 32) == Pow2(32)
    ensures Kraft(l, m) == Pow2(m)
  {
    hide Pow2, Kraft;
    KraftScale(l, m, 32);
    KraftScale(l, 32, m);
    Pow2Add(32, m);
    assert m + 32 == 32 + m;
    CancelFactor(Kraft(l, m), Pow2(m), Pow2(32));
  }

  lemma CancelFactor(x: nat, y: nat, q: nat)
    requires q > 0 && x * q == y * q
    ensures x == y
  {
    if x < y {
      Distribute(y - x - 1, x + 1, q);
      Distribute(x, 1, q);
    } else if y < x {
      Distribute(x - y - 1, y + 1, q);
      Distribute(y, 1, q);
    }
  }
}
