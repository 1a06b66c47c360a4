/** From symbol counts to a complete Huffman table: collect, sort, compute lengths, limit them, hand them
    out, number the codes. */
module OptimizeTable {
  import opened Collections
  import opened Sums
  import opened Bits
  import opened Permutations
  import opened CanonicalCode
  import MergeTree
  import opened HuffmanTree
  import opened MinimumRedundancy
  import opened RadixSort
  import opened HuffmanCodes
  import opened LimitCost
  import opened SymbolCosts
  import LengthLimit
  import InflateTable

  /** Collects the used symbols. */
  method Collect(count: array<nat>, n: nat, keys: array<nat>, syms: array<nat>)
    returns (used: nat, ghost s: seq<SymFreq>)
    requires n <= count.Length && n <= keys.Length && n <= syms.Length && count != keys && count != syms && keys != syms
    modifies keys, syms
    ensures s == Used(count[..n]) && used == |s| && Holds(keys, syms, s)
  {
    used, s := 0, [];
    var i := 0;
    ghost var f := count[..n];
    while i < n
      invariant 0 <= i <= n && count[..n] == f
      invariant s == Used(f[..i]) && used == |s| && Holds(keys, syms, s)
    {
      assert f[..i + 1][..i] == f[..i] && f[i] == count[i];
      if count[i] != 0 {
        keys[used] := count[i];
        syms[used] := i;
        s := s + [SymFreq(count[i], i)];
        used := used + 1;
      }
      i := i + 1;
    }
    assert f[..n] == f;
  }

  // ---------------------------------------------------------------- histogram of the lengths

  ghost predicate HistogramOf(num: seq<int>, len: seq<nat>) {
    && |num| == 33 && AllAtMost(len, 32)
    && (forall l :: 0 <= l <= 32 ==> num[l] == Cnt(len, l))
    && LengthLimit.Count(num, 32) == |len| && LengthLimit.Space(num, 32, 32) == Kraft(len, 32)
  }

  lemma {:induction false} EmptySpace(num: seq<int>, k: nat, m: nat)
    requires k < |num| && k <= m && forall l :: 0 <= l <= k ==> num[l] == 0
    ensures LengthLimit.Count(num, k) == 0 && LengthLimit.Space(num, k, m) == 0
  {
    if k > 0 {
      EmptySpace(num, k - 1, m);
    }
  }

  lemma HistogramStep(num: seq<int>, len: seq<nat>, x: nat)
    requires HistogramOf(num, len) && 1 <= x <= 32
    ensures HistogramOf(num[x := num[x] + 1], len + [x])
  {
    hide Pow2, LengthLimit.Space, LengthLimit.Count;
    var len' := len + [x];
    assert len'[..|len|] == len;
    LengthLimit.SpaceUpdate(num, 32, 32, x, num[x] + 1);
    assert (num[x] + 1 - num[x]) * Pow2(32 - x) == Pow2(32 - x);
  }

  method CountLengths(keys: array<nat>, n: nat) returns (num: array<int>)
    requires n <= keys.Length && forall k :: 0 <= k < n ==> 1 <= keys[k] <= 32
    ensures fresh(num) && HistogramOf(num[..], keys[..n])
  {
    num := new int[33](_ => 0);
    EmptySpace(num[..], 32, 32);
    var i := 0;
    hide HistogramOf;
    assert HistogramOf(num[..], keys[..0]) by {
      StartHistogram(num[..]);
      assert keys[..0] == [];
    }
    while i < n
      invariant 0 <= i <= n && num.Length == 33 && fresh(num)
      invariant HistogramOf(num[..], keys[..i])
    {
      HistogramStep(num[..], keys[..i], keys[i]);
      assert keys[..i] + [keys[i]] == keys[..i + 1];
      num[keys[i]] := num[keys[i]] + 1;
      i := i + 1;
    }
  }

  lemma StartHistogram(num: seq<int>)
    requires |num| == 33 && forall l :: 0 <= l <= 32 ==> num[l] == 0
    ensures HistogramOf(num, [])
  {
    EmptySpace(num, 32, 32);
  }

  // ---------------------------------------------------------------- handing the sizes out

  /** Positions j and up have their sizes, no other symbol has one. */
  ghost predicate Sized(sz: seq<nat>, t: seq<nat>, num: seq<int>, j: nat)
    requires |num| == 33
  {
    && j <= |t| && Distinct(t, |sz|)
    && (forall k :: j <= k < |t| ==> sz[t[k]] <= 32 && Level(num, |t|, k, sz[t[k]]))
    && (forall x :: 0 <= x < |sz| && sz[x] != 0 ==> x in t[j..])
  }

  /** How many symbols have each size, `left` of size i still to come. */
  ghost predicate Tally(sz: seq<nat>, num: seq<int>, i: nat, left: int)
    requires |num| == 33
  {
    forall l :: 1 <= l <= 32 ==> Cnt(sz, l) == if l < i then num[l] else if l == i then num[l] - left else 0
  }

  lemma {:induction false} CntUpdate(sz: seq<nat>, x: nat, v: nat, l: nat)
    requires x < |sz| && sz[x] == 0 && l > 0
    ensures Cnt(sz[x := v], l) == Cnt(sz, l) + if v == l then 1 else 0
  {
    var n := |sz| - 1;
    if x < n {
      CntUpdate(sz[..n], x, v, l);
      assert sz[x := v][..n] == sz[..n][x := v];
    } else {
      assert sz[x := v][..n] == sz[..n];
    }
  }

  lemma SizedStep(sz: seq<nat>, t: seq<nat>, num: seq<int>, j: nat, i: nat)
    requires |num| == 33 && 1 <= i <= 32 && Sized(sz, t, num, j) && 0 < j && Level(num, |t|, j - 1, i)
    ensures t[j - 1] < |sz| && sz[t[j - 1]] == 0 && Sized(sz[t[j - 1] := i], t, num, j - 1)
  {
    hide Level;
    var x := t[j - 1];
    assert x !in t[j..];
    assert t[j - 1..] == [x] + t[j..];
    var sz' := sz[x := i];
    assert Sized(sz', t, num, j - 1);
  }

  lemma TallyStep(sz: seq<nat>, num: seq<int>, i: nat, left: int, x: nat)
    requires |num| == 33 && 1 <= i <= 32 && Tally(sz, num, i, left) && x < |sz| && sz[x] == 0
    ensures Tally(sz[x := i], num, i, left - 1)
  {
    var sz' := sz[x := i];
    forall l | 1 <= l <= 32 ensures Cnt(sz', l) == Cnt(sz, l) + if i == l then 1 else 0 {
      CntUpdate(sz, x, i, l);
    }
    hide Cnt;
  }

  lemma TallyNext(sz: seq<nat>, num: seq<int>, i: nat)
    requires |num| == 33 && 1 <= i < 32 && Tally(sz, num, i, 0)
    ensures Tally(sz, num, i + 1, num[i + 1])
  {
  }

  lemma TallyStart(sz: seq<nat>, t: seq<nat>, num: seq<int>)
    requires |num| == 33 && forall x :: 0 <= x < |sz| ==> sz[x] == 0
    requires Distinct(t, |sz|)
    ensures Tally(sz, num, 1, num[1]) && Sized(sz, t, num, |t|)
  {
    forall l | 1 <= l <= 32 ensures Cnt(sz, l) == 0 {
      NoneLonger(sz, l);
    }
  }

  /** The sizes of one length, from position j down. */
  method AssignLevel(num: array<int>, i: nat, syms: array<nat>, sizes: array<nat>, n: nat, j0: nat, ghost t: seq<nat>)
    returns (j: nat)
    requires num.Length == 33 && 1 <= i <= 15 && syms != sizes && n <= sizes.Length && |t| <= syms.Length
    requires t == syms[..|t|]
    requires Sized(sizes[..n], t, num[..], j0) && Tally(sizes[..n], num[..], i, num[i])
    requires Distinct(t, n) && j0 <= |t| && num[i] >= 0 && j0 == |t| - LengthLimit.Count(num[..], i - 1) && num[i] <= j0
    modifies sizes
    ensures j == j0 - num[i] && Sized(sizes[..n], t, num[..], j) && Tally(sizes[..n], num[..], i, 0)
    ensures forall x :: n <= x < sizes.Length ==> sizes[x] == old(sizes[x])
  {
    hide Sized, Tally;
    j := j0;
    var l := num[i];
    while l > 0
      invariant 0 <= l <= num[i] && j == j0 - (num[i] - l)
      invariant Sized(sizes[..n], t, num[..], j) && Tally(sizes[..n], num[..], i, l)
      invariant forall x :: n <= x < sizes.Length ==> sizes[x] == old(sizes[x])
    {
      assert Level(num[..], |t|, j - 1, i);
      SizedStep(sizes[..n], t, num[..], j, i);
      TallyStep(sizes[..n], num[..], i, l, t[j - 1]);
      j := j - 1;
      assert syms[j] == t[j];
      sizes[syms[j]] := i % 256;
      l := l - 1;
    }
  }

  /** Hands the sizes out, the shortest codes to the most frequent symbols. */
  method AssignSizes(num: array<int>, m: nat, syms: array<nat>, used: nat, sizes: array<nat>, n: nat)
    requires num.Length == 33 && 1 <= m <= 15 && syms != sizes && used <= syms.Length && n <= sizes.Length
    requires Distinct(syms[..used], n) && forall x :: 0 <= x < sizes.Length ==> sizes[x] == 0
    requires LengthLimit.NonNegative(num[..], m) && LengthLimit.Count(num[..], m) == used
    modifies sizes
    ensures Sized(sizes[..n], syms[..used], num[..], 0) && Tally(sizes[..n], num[..], m, 0)
    ensures forall x :: n <= x < sizes.Length ==> sizes[x] == 0
  {
    hide Sized, Tally, Distinct;
    ghost var t := syms[..used];
    TallyStart(sizes[..n], t, num[..]);
    var i, j := 1, used;
    while i <= m
      invariant 1 <= i <= m + 1 && syms[..used] == t && j == used - LengthLimit.Count(num[..], i - 1)
      invariant Sized(sizes[..n], t, num[..], j)
      invariant if i <= m then Tally(sizes[..n], num[..], i, num[i]) else Tally(sizes[..n], num[..], m, 0)
      invariant forall x :: n <= x < sizes.Length ==> sizes[x] == 0
    {
      CountMonotone(num[..], i, m);
      CountMonotone(num[..], 0, i - 1);
      j := AssignLevel(num, i, syms, sizes, n, j, t);
      if i < m {
        TallyNext(sizes[..n], num[..], i);
      }
      i := i + 1;
    }
  }

  // ---------------------------------------------------------------- the limited sizes

  /** In a non-increasing sequence the lengths up to l are the last ones. */
  lemma {:induction false} ShortLast(len: seq<nat>, l: nat, k: nat)
    requires k < |len| && forall i, j :: 0 <= i < j < |len| ==> len[i] >= len[j]
    requires forall i :: 0 <= i < |len| ==> len[i] >= 1
    ensures len[k] <= l <==> |len| - k <= InflateTable.CntUpTo(len, 1, l)
  {
    var n := |len| - 1;
    InflateTable.CntUpToStep(len, 1, l);
    if n == 0 {
      InflateTable.CntEmpty(1, l);
      assert len[..0] == [];
    } else {
      ShortLast(len[..n], l, n - 1);
      if k < n {
        ShortLast(len[..n], l, k);
      }
    }
  }

  lemma {:induction false} CountIsCntUpTo(num: seq<int>, len: seq<nat>, l: nat)
    requires l < |num| && forall i :: 1 <= i <= l ==> num[i] == Cnt(len, i)
    ensures LengthLimit.Count(num, l) == InflateTable.CntUpTo(len, 1, l)
  {
    if l > 0 {
      CountIsCntUpTo(num, len, l - 1);
    }
  }

  lemma LevelIsLength(num: seq<int>, len: seq<nat>, k: nat)
    requires HistogramOf(num, len) && k < |len| && forall i, j :: 0 <= i < j < |len| ==> len[i] >= len[j]
    requires forall i :: 0 <= i < |len| ==> len[i] >= 1
    ensures Level(num, |len|, k, len[k])
  {
    ShortLast(len, len[k], k);
    ShortLast(len, len[k] - 1, k);
    CountIsCntUpTo(num, len, len[k]);
    CountIsCntUpTo(num, len, len[k] - 1);
  }

  /** The sizes suit the counts: used symbols get codes within the limit, more frequent ones no longer codes,
      and the decoder accepts the result. */
  ghost predicate Suits(f: seq<nat>, sz: seq<nat>, m: nat) {
    && |sz| == |f|
    && (forall i :: 0 <= i < |f| ==> (f[i] == 0 <==> sz[i] == 0) && sz[i] <= m)
    && (forall i, j :: 0 <= i < |f| && 0 <= j < |f| && 0 < f[i] < f[j] ==> sz[i] >= sz[j])
    && InflateTable.Accepted(sz) && Fits(sz)
    && (|Used(f)| >= 2 ==> Full(sz))
    && (|Used(f)| == 1 ==> forall i :: 0 <= i < |f| && f[i] > 0 ==> sz[i] == 1)
  }

  lemma NoneOf(sz: seq<nat>, l: nat, i: nat)
    requires i < |sz| && Cnt(sz, l) == 0
    ensures sz[i] != l
  {
    CntPrefix(sz, l, i, |sz|);
    assert sz[..|sz|] == sz;
  }

  /** Facts about a single symbol. */
  lemma SizeOf(f: seq<nat>, t: seq<SymFreq>, num: seq<int>, m: nat, sz: seq<nat>, i: nat)
    requires |num| == 33 && 1 <= m <= 15 && |sz| == |f| && multiset(t) == multiset(Used(f)) && i < |f|
    requires Sized(sz, Syms(t), num, 0) && Tally(sz, num, m, 0)
    ensures f[i] == 0 ==> sz[i] == 0
    ensures f[i] != 0 ==> 1 <= sz[i] <= m
  {
    if f[i] == 0 {
      if sz[i] != 0 {
        var k :| 0 <= k < |t| && Syms(t)[k] == i;
        RecordAt(f, t, k);
        assert false;
      }
    } else {
      var k := PositionOf(f, t, i);
      assert Syms(t)[k] == i;
      assert Level(num, |t|, k, sz[i]);
      assert sz[i] > m ==> Cnt(sz, sz[i]) == 0;
      if sz[i] > m {
        NoneOf(sz, sz[i], i);
      }
    }
  }

  lemma SizesOrdered(f: seq<nat>, t: seq<SymFreq>, num: seq<int>, m: nat, sz: seq<nat>, i: nat, j: nat)
    requires |num| == 33 && 1 <= m <= 15 && |sz| == |f| && Sorts(Used(f), t) && i < |f| && j < |f| && 0 < f[i] < f[j]
    requires Sized(sz, Syms(t), num, 0) && sz[i] <= m && sz[j] <= m && LengthLimit.NonNegative(num, m)
    ensures sz[i] >= sz[j]
  {
    var k := PositionOf(f, t, i);
    var l := PositionOf(f, t, j);
    assert k < l;
    assert Syms(t)[k] == i && Syms(t)[l] == j;
    assert Level(num, |t|, k, sz[i]) && Level(num, |t|, l, sz[j]);
    if sz[i] < sz[j] {
      CountMonotone(num, sz[i], sz[j] - 1);
    }
  }

  lemma AtMostOne(f: seq<nat>, t: seq<SymFreq>, sz: seq<nat>)
    requires |t| <= 1 && |sz| == |f| && multiset(t) == multiset(Used(f))
    requires forall i :: 0 <= i < |f| ==> (f[i] == 0 <==> sz[i] == 0)
    ensures forall i, j :: 0 <= i < |sz| && 0 <= j < |sz| && sz[i] > 0 && sz[j] > 0 ==> i == j
  {
    forall i, j | 0 <= i < |sz| && 0 <= j < |sz| && sz[i] > 0 && sz[j] > 0 ensures i == j {
      var k := PositionOf(f, t, i);
      var l := PositionOf(f, t, j);
    }
  }

  lemma SizesSuit(f: seq<nat>, t: seq<SymFreq>, num: seq<int>, m: nat, sz: seq<nat>)
    requires |num| == 33 && 1 <= m <= 15 && |sz| == |f| && Sorts(Used(f), t)
    requires LengthLimit.NonNegative(num, m) && LengthLimit.Count(num, m) == |t|
    requires LengthLimit.Space(num, m, m) <= Pow2(m) && (|t| >= 2 ==> LengthLimit.Space(num, m, m) == Pow2(m))
    requires Sized(sz, Syms(t), num, 0) && Tally(sz, num, m, 0)
    requires |t| == 1 ==> Level(num, 1, 0, 1)
    ensures Suits(f, sz, m) && Histogram(num, sz, m)
  {
    hide Sized, Tally, Level, LengthLimit.Space, LengthLimit.Count, LengthLimit.NonNegative, Fits, Full, Pow2, Used,
      Syms, Sorts;
    TallyHistogram(num, sz, m);
    hide Histogram;
    SortsSize(Used(f), t);
    forall i | 0 <= i < |f| ensures (f[i] == 0 <==> sz[i] == 0) && sz[i] <= m && (f[i] > 0 ==> sz[i] >= 1) {
      SizeOf(f, t, num, m, sz, i);
    }
    forall i, j | 0 <= i < |f| && 0 <= j < |f| && 0 < f[i] < f[j] ensures sz[i] >= sz[j] {
      SizesOrdered(f, t, num, m, sz, i, j);
    }
    LengthLimit.SpaceBound(num, m, m);
    FitsSpace(num, sz, m);
    FitsSizes(sz);
    if |t| <= 1 {
      AtMostOne(f, t, sz);
      forall i | 0 <= i < |f| && f[i] > 0 && |t| == 1 ensures sz[i] == 1 {
        SingleSize(f, t, num, m, sz, i);
      }
    }
    hide InflateTable.Accepted;
    assert Suits(f, sz, m);
  }

  lemma FitsSizes(sz: seq<nat>)
    requires Fits(sz)
    ensures CanonicalCode.Sizes(sz) && (Full(sz) ==> InflateTable.Accepted(sz))
    ensures (forall i, j :: 0 <= i < |sz| && 0 <= j < |sz| && sz[i] > 0 && sz[j] > 0 ==> i == j) ==>
      InflateTable.Accepted(sz)
  {
  }

  lemma SortsSize(s: seq<SymFreq>, t: seq<SymFreq>)
    requires Sorts(s, t)
    ensures |t| == |s| && multiset(t) == multiset(s)
  {
  }

  lemma TallyHistogram(num: seq<int>, sz: seq<nat>, m: nat)
    requires |num| == 33 && 1 <= m <= 15 && Tally(sz, num, m, 0)
    ensures Histogram(num, sz, m)
  {
    hide Cnt;
  }

  lemma SingleSize(f: seq<nat>, t: seq<SymFreq>, num: seq<int>, m: nat, sz: seq<nat>, i: nat)
    requires |num| == 33 && 1 <= m <= 15 && |sz| == |f| && multiset(t) == multiset(Used(f)) && |t| == 1 && i < |f|
    requires f[i] > 0
    requires LengthLimit.NonNegative(num, m) && Sized(sz, Syms(t), num, 0) && 1 <= sz[i] <= m && Level(num, 1, 0, 1)
    ensures sz[i] == 1
  {
    var k := PositionOf(f, t, i);
    assert Syms(t)[k] == i;
    LevelUnique(num, 1, k, 1, sz[i]);
  }

  // ---------------------------------------------------------------- the table

  lemma SortedInput(f: seq<nat>, t: seq<SymFreq>)
    requires Sorts(Used(f), t)
    ensures MergeTree.Sorted(Keys(t)) && forall k :: 0 <= k < |t| ==> Keys(t)[k] >= 1
    ensures Sum(Keys(t)) == Sum(f)
  {
    SortedSum(f, t);
    forall k | 0 <= k < |t| ensures Keys(t)[k] >= 1 {
      RecordAt(f, t, k);
    }
  }

  lemma {:induction false} ElementAtMostSum(f: seq<nat>, i: nat)
    requires i < |f|
    ensures f[i] <= Sum(f)
  {
    if i < |f| - 1 {
      ElementAtMostSum(f[..|f| - 1], i);
    }
  }

  lemma UsedInput(f: seq<nat>)
    requires Sum(f) <= 0xFFFF
    ensures Keys16(Used(f)) && Ordered(Used(f), 0)
  {
    UsedElements(f);
    forall i | 0 <= i < |Used(f)| ensures Used(f)[i].key <= 0xFFFF {
      assert Used(f)[i] in Used(f);
      ElementAtMostSum(f, Used(f)[i].sym);
    }
  }

  lemma SingleHistogram(num: seq<int>, len: seq<nat>, m: nat)
    requires HistogramOf(num, len) && |len| <= 1 && 1 <= m <= 15 && (|len| == 1 ==> len[0] == 1)
    ensures LengthLimit.NonNegative(num, m) && LengthLimit.Count(num, m) == |len|
    ensures LengthLimit.Space(num, m, m) <= Pow2(m)
    ensures |len| == 1 ==> Level(num, 1, 0, 1)
  {
    assert len == [] || len == [1];
    if len == [1] {
      assert [1][..0] == [];
      assert num[1] == 1;
      LevelIsLength(num, len, 0);
    }
    forall i | 2 <= i <= m ensures num[i] == 0 {
      NoneLonger(len, i);
    }
    if len == [] {
      NoneLonger(len, 1);
    }
    CountLater(num, m);
    LengthLimit.SpaceBound(num, m, m);
    OneShare(LengthLimit.Count(num, m), Pow2(m - 1));
  }

  lemma OneShare(c: int, p: nat)
    requires 0 <= c <= 1
    ensures c * p <= 2 * p
  {
  }

  lemma {:induction false} CountLater(num: seq<int>, k: nat)
    requires 1 <= k < |num| && forall i :: 2 <= i <= k ==> num[i] == 0
    ensures LengthLimit.Count(num, k) == num[1]
  {
    if k > 1 {
      CountLater(num, k - 1);
    } else {
      assert LengthLimit.Count(num, 0) == 0;
    }
  }

  lemma LengthRange(k: seq<nat>, len: seq<nat>)
    requires |len| == 1 ==> len[0] == 1
    requires |len| >= 2 ==> OptimalLengths(k, len)
    ensures forall i :: 0 <= i < |len| ==> 1 <= len[i] <= 32
    ensures |len| >= 2 ==> AllAtMost(len, 32) && Kraft(len, 32) == Pow2(32)
  {
    hide Kraft, Cost, Pow2;
  }

  lemma HistogramFacts(num: seq<int>, len: seq<nat>)
    requires HistogramOf(num, len)
    ensures |num| == 33 && LengthLimit.NonNegative(num, 32) && LengthLimit.Count(num, 32) == |len|
    ensures AllAtMost(len, 32) && LengthLimit.Space(num, 32, 32) == Kraft(len, 32)
  {
  }

  lemma NotLonger(num: seq<int>, len: seq<nat>, m: nat)
    requires HistogramOf(num, len) && m <= 32
    ensures AllAtMost(len, m) ==> forall k :: m < k <= 32 ==> num[k] == 0
  {
    if AllAtMost(len, m) {
      forall k | m < k <= 32 ensures num[k] == 0 {
        NoneLonger(len, k);
      }
    }
  }

  lemma HeldRecords(keys: array<nat>, syms: array<nat>, t: seq<SymFreq>)
    requires Holds(keys, syms, t)
    ensures |t| <= keys.Length && |t| <= syms.Length && keys[..|t|] == Keys(t) && syms[..|t|] == Syms(t)
  {
  }

  /** The used symbols, sorted by count. */
  method SortUsed(count: array<nat>, n: nat)
    returns (keys: array<nat>, syms: array<nat>, used: nat, ghost t: seq<SymFreq>)
    requires n <= count.Length && n <= 288 && Sum(count[..n]) <= 0xFFFF
    ensures fresh(keys) && fresh(syms) && keys != syms
    ensures Sorts(Used(count[..n]), t) && used == |t| <= n && used <= keys.Length && used <= syms.Length
    ensures keys[..used] == Keys(t) && syms[..used] == Syms(t)
  {
    hide Used, Sorts, Sum, Keys, Syms, Ordered, Keys16, Holds;
    ghost var f := count[..n];
    var keys0, syms0 := new nat[288](_ => 0), new nat[288](_ => 0);
    var keys1, syms1 := new nat[288](_ => 0), new nat[288](_ => 0);
    ghost var s;
    used, s := Collect(count, n, keys0, syms0);
    UsedInput(f);
    keys, syms, t := RadixSortSyms(used, keys0, syms0, keys1, syms1, s);
    SortsSize(s, t);
    HeldRecords(keys, syms, t);
  }

  /** What limiting did to the histogram c of the optimal lengths. */
  ghost predicate LimitedFrom(c: seq<int>, num: seq<int>, lo: nat, len: seq<nat>, m: nat) {
    && HistogramOf(c, len) && 1 <= m <= 15 && |num| == 33
    && LengthLimit.Rebalanced(LengthLimit.Fold(c, m), num, lo, |len|, m)
    && LengthLimit.Space(num, m, m) == Pow2(m) && LengthLimit.Space(LengthLimit.Fold(c, m), m, m) <= Pow2(m) + |len|
  }

  /** The counts sorted, their optimal lengths and the limited histogram. */
  method LimitedHistogram(count: array<nat>, n: nat, m: nat)
    returns (num: array<int>, syms: array<nat>, used: nat, ghost t: seq<SymFreq>, ghost len: seq<nat>,
      ghost c: seq<int>, ghost lo: nat)
    requires n <= count.Length && n <= 288 && 1 <= m <= 15 && n <= Pow2(m) && Sum(count[..n]) <= 0xFFFF
    ensures fresh(num) && fresh(syms) && num.Length == 33
    ensures Sorts(Used(count[..n]), t) && used == |t| <= syms.Length && syms[..used] == Syms(t)
    ensures LengthLimit.NonNegative(num[..], m) && LengthLimit.Count(num[..], m) == used
    ensures LengthLimit.Space(num[..], m, m) <= Pow2(m) && (used >= 2 ==> LengthLimit.Space(num[..], m, m) == Pow2(m))
    ensures used == 1 ==> Level(num[..], 1, 0, 1)
    ensures used >= 2 ==> OptimalLengths(Keys(t), len) && LimitedFrom(c, num[..], lo, len, m)
    ensures used >= 2 && AllAtMost(len, m) ==> HistogramOf(num[..], len)
  {
    hide Used, Sorts, Pow2, OptimalLengths, HistogramOf, MergeTree.Sorted, Sum, Keys, Syms, LengthLimit.Count,
      LengthLimit.Space, LengthLimit.NonNegative, LengthLimit.Rebalanced, LengthLimit.Fold, Level, AllAtMost, Kraft;
    ghost var f := count[..n];
    var keys;
    keys, syms, used, t := SortUsed(count, n);
    SortedInput(f, t);
    assert forall i :: 0 <= i < used ==> keys[i] == Keys(t)[i];
    CalculateMinimumRedundancy(keys, used);
    len := keys[..used];
    LengthRange(Keys(t), len);
    num := CountLengths(keys, used);
    HistogramFacts(num[..], len);
    NotLonger(num[..], len, m);
    c := num[..];
    lo := LengthLimit.EnforceMaxCodeSize(num, used, m);
    if used <= 1 {
      SingleHistogram(num[..], len, m);
    }
  }

  // ---------------------------------------------------------------- optimality of the sizes

  /** When limiting changed nothing, position k keeps its optimal length. */
  lemma SizesAreLengths(t: seq<SymFreq>, num: seq<int>, len: seq<nat>, sz: seq<nat>)
    requires |num| == 33 && HistogramOf(num, len) && |len| == |t| && OptimalLengths(Keys(t), len)
    requires Sized(sz, Syms(t), num, 0)
    ensures forall k :: 0 <= k < |t| ==> t[k].sym < |sz| && sz[t[k].sym] == len[k]
  {
    hide Keys, Kraft, Cost, Pow2, Level, HistogramOf, OptimalLengths, Sized, LengthLimit.NonNegative, Syms;
    HistogramFacts(num, len);
    LengthsFall(Keys(t), len);
    forall k | 0 <= k < |t| ensures t[k].sym < |sz| && sz[t[k].sym] == len[k] {
      LevelOf(sz, t, num, k);
      LevelIsLength(num, len, k);
      NonNegativeTo(num, if sz[t[k].sym] <= len[k] then len[k] else sz[t[k].sym]);
      if sz[t[k].sym] <= len[k] {
        LevelUnique(num, |t|, k, sz[t[k].sym], len[k]);
      } else {
        LevelUnique(num, |t|, k, len[k], sz[t[k].sym]);
      }
    }
  }

  lemma NonNegativeTo(num: seq<int>, m: nat)
    requires |num| == 33 && m <= 32 && LengthLimit.NonNegative(num, 32)
    ensures LengthLimit.NonNegative(num, m)
  {
  }

  lemma LengthsFall(k: seq<nat>, len: seq<nat>)
    requires OptimalLengths(k, len)
    ensures |len| == |k| && (forall i :: 0 <= i < |len| ==> 1 <= len[i] <= 32)
    ensures forall i, j :: 0 <= i < j < |len| ==> len[i] >= len[j]
  {
    hide Kraft, Cost, Pow2;
  }

  lemma LevelOf(sz: seq<nat>, t: seq<SymFreq>, num: seq<int>, k: nat)
    requires |num| == 33 && Sized(sz, Syms(t), num, 0) && k < |t|
    ensures t[k].sym < |sz| && sz[t[k].sym] <= 32 && Level(num, |t|, k, sz[t[k].sym])
  {
    hide Level;
    assert Syms(t)[k] == t[k].sym;
  }

  lemma OptimalUnlessLimited(f: seq<nat>, t: seq<SymFreq>, num: seq<int>, len: seq<nat>, sz: seq<nat>)
    requires |num| == 33 && HistogramOf(num, len) && Sorts(Used(f), t) && OptimalLengths(Keys(t), len)
    requires |sz| == |f| && Sized(sz, Syms(t), num, 0)
    ensures OptimalSizes(f, sz)
  {
    hide Used, HistogramOf, Sized;
    KeysSize(t, len);
    SizesAreLengths(t, num, len, sz);
    OptimalBySymbol(f, t, len, sz);
  }

  lemma KeysSize(t: seq<SymFreq>, len: seq<nat>)
    requires OptimalLengths(Keys(t), len)
    ensures |len| == |t| && FibonacciBound(Keys(t), len)
  {
    hide Kraft, Cost, Pow2, Fib, Sum;
  }

  /** The sizes handed out, by rank. */
  lemma SizesRanked(f: seq<nat>, t: seq<SymFreq>, num: seq<int>, m: nat, sz: seq<nat>)
    requires |num| == 33 && 1 <= m <= 15 && multiset(t) == multiset(Used(f)) && Suits(f, sz, m)
    requires Sized(sz, Syms(t), num, 0) && LengthLimit.NonNegative(num, m) && LengthLimit.Count(num, m) == |t|
    ensures (forall k :: 0 <= k < |t| ==> t[k].sym < |sz|) && Ranked(num, Pick(sz, t), m)
  {
    hide Used, Sized, Level, LengthLimit.NonNegative, LengthLimit.Count, Suits, Syms;
    AllRecords(f, t);
    SuitsSize(f, sz, m);
    var s := Pick(sz, t);
    forall k | 0 <= k < |s| ensures 1 <= s[k] <= m && Level(num, |s|, k, s[k]) {
      LevelOf(sz, t, num, k);
    }
  }

  lemma SuitsSize(f: seq<nat>, sz: seq<nat>, m: nat)
    requires Suits(f, sz, m)
    ensures |sz| == |f| && forall i :: 0 <= i < |f| ==> sz[i] <= m && (f[i] > 0 ==> sz[i] >= 1)
  {
    hide Fits, Full, InflateTable.Accepted, Used;
  }

  /** The sizes fill the code space. */
  lemma SizesFit(f: seq<nat>, t: seq<SymFreq>, num: seq<int>, m: nat, sz: seq<nat>)
    requires |num| == 33 && 1 <= m <= 15 && multiset(t) == multiset(Used(f)) && Suits(f, sz, m)
    requires Sized(sz, Syms(t), num, 0) && LengthLimit.NonNegative(num, m) && LengthLimit.Count(num, m) == |t|
    requires LengthLimit.Space(num, m, m) == Pow2(m)
    ensures FitsWithin(f, sz, m)
  {
    hide Used, Sized, LengthLimit.NonNegative, LengthLimit.Count, LengthLimit.Space, Suits, Pow2, Syms, Kraft,
      UsedTotal, Share, Ranked;
    SizesRanked(f, t, num, m, sz);
    SuitsSize(f, sz, m);
    RankedTotals(num, Pick(sz, t), 0, m);
    KraftMoves(f, t, sz, m);
  }

  /** The sizes are optimal exactly if the limit permits it. */
  lemma OptimalExactly(f: seq<nat>, t: seq<SymFreq>, num: seq<int>, len: seq<nat>, m: nat, sz: seq<nat>)
    requires |num| == 33 && 1 <= m <= 15 && Sorts(Used(f), t) && OptimalLengths(Keys(t), len) && Suits(f, sz, m)
    requires Sized(sz, Syms(t), num, 0) && LengthLimit.NonNegative(num, m) && LengthLimit.Count(num, m) == |t|
    requires LengthLimit.Space(num, m, m) == Pow2(m) && (AllAtMost(len, m) ==> HistogramOf(num, len))
    ensures OptimalSizes(f, sz) <==> Limitable(f, m)
    ensures Limitable(f, m) <==> AllAtMost(len, m)
  {
    hide Used, Sized, LengthLimit.NonNegative, LengthLimit.Count, LengthLimit.Space, Suits, Pow2, Syms, Keys,
      FitsWithin, OptimalSizes, OptimalLengths, HistogramOf, AllAtMost, Sorts;
    SortsSize(Used(f), t);
    SuitsSize(f, sz, m);
    LimitableLengths(f, t, len, m);
    SizesFit(f, t, num, m, sz);
    if AllAtMost(len, m) {
      OptimalUnlessLimited(f, t, num, len, sz);
    }
  }

  lemma LengthsRanked(c: seq<int>, k: seq<nat>, len: seq<nat>)
    requires HistogramOf(c, len) && OptimalLengths(k, len)
    ensures |c| == 33 && Ranked(c, len, 32)
  {
    hide HistogramOf, Level, OptimalLengths, LengthLimit.NonNegative, LengthLimit.Count;
    HistogramFacts(c, len);
    LengthsFall(k, len);
    forall i | 0 <= i < |len| ensures 1 <= len[i] <= 32 && Level(c, |len|, i, len[i]) {
      LevelIsLength(c, len, i);
    }
  }

  lemma FromFacts(c: seq<int>, num: seq<int>, lo: nat, len: seq<nat>)
    requires LimitedFrom(c, num, lo, len, 15)
    ensures HistogramOf(c, len) && |c| == |num| == 33 && LengthLimit.NonNegative(num, 15)
    ensures LengthLimit.Rebalanced(LengthLimit.Fold(c, 15), num, lo, |len|, 15)
    ensures LengthLimit.Space(num, 15, 15) == Pow2(15) && LengthLimit.Count(num, 15) == |len|
    ensures LengthLimit.Space(LengthLimit.Fold(c, 15), 15, 15) <= Pow2(15) + |len|
  {
  }

  lemma FromCounts(c: seq<int>, num: seq<int>, lo: nat, len: seq<nat>)
    requires LimitedFrom(c, num, lo, len, 15)
    ensures LengthLimit.NonNegative(num, 15) && LengthLimit.Count(num, 15) == |len|
  {
    hide *;
    FromFacts(c, num, lo, len);
  }

  lemma MoreSymbols(a: nat, b: nat, x: nat)
    requires a <= b
    ensures Allowance(a, x) <= Allowance(b, x)
  {
  }

  /** Sizes limited to 15 bits are nearly optimal: by rank. */
  lemma NearlyOptimal(k: seq<nat>, c: seq<int>, num: seq<int>, lo: nat, len: seq<nat>, s: seq<nat>, n: nat)
    requires |k| <= n && OptimalLengths(k, len) && |len| == |k| && LimitedFrom(c, num, lo, len, 15) && |num| == 33
    requires Ranked(num, s, 15) && |s| == |k| && FibonacciBound(k, len)
    ensures 540 * Cost(k, s) <= 540 * Cost(k, len) + Allowance(n, Sum(k))
  {
    hide *;
    FromFacts(c, num, lo, len);
    LengthsRanked(c, k, len);
    LimitedCost(k, c, len, num, lo, s);
    MoreSymbols(|k|, n, Sum(k));
  }

  lemma SizesByRank(f: seq<nat>, t: seq<SymFreq>, num: seq<int>, sz: seq<nat>) returns (s: seq<nat>)
    requires |num| == 33 && Sorts(Used(f), t) && Suits(f, sz, 15) && Sized(sz, Syms(t), num, 0)
    requires LengthLimit.NonNegative(num, 15) && LengthLimit.Count(num, 15) == |t|
    ensures |sz| == |f| && |s| == |t| == |Keys(t)| <= |f| && Sum(Keys(t)) == Sum(f)
    ensures Ranked(num, s, 15) && Cost(f, sz) == Cost(Keys(t), s)
  {
    hide *;
    SortsSize(Used(f), t);
    SuitsSize(f, sz, 15);
    SizesRanked(f, t, num, 15, sz);
    SortedSum(f, t);
    CostMoves(f, t, sz);
    s := Pick(sz, t);
  }

  lemma NearOptimalCost(f: seq<nat>, t: seq<SymFreq>, c: seq<int>, num: seq<int>, lo: nat, len: seq<nat>, sz: seq<nat>)
    requires Sorts(Used(f), t) && OptimalLengths(Keys(t), len) && Suits(f, sz, 15)
    requires LimitedFrom(c, num, lo, len, 15) && |num| == 33 && Sized(sz, Syms(t), num, 0)
    ensures |sz| == |f| && |len| == |t|
    ensures 540 * Cost(f, sz) <= 540 * Cost(Keys(t), len) + Allowance(|f|, Sum(f))
  {
    hide *;
    KeysSize(t, len);
    FromCounts(c, num, lo, len);
    var s := SizesByRank(f, t, num, sz);
    NearlyOptimal(Keys(t), c, num, lo, len, s, |f|);
  }

  lemma NearOptimalSizes(f: seq<nat>, t: seq<SymFreq>, c: seq<int>, num: seq<int>, lo: nat, len: seq<nat>, sz: seq<nat>)
    requires Sorts(Used(f), t) && OptimalLengths(Keys(t), len) && Suits(f, sz, 15)
    requires LimitedFrom(c, num, lo, len, 15) && |num| == 33 && Sized(sz, Syms(t), num, 0)
    ensures NearOptimal(f, sz)
  {
    hide Used, Sorts, Suits, Sized, LimitedFrom, OptimalLengths, Cost, Keys, Syms, Sum, FitsWithin, Allowance, Nonzero;
    NearOptimalCost(f, t, c, num, lo, len, sz);
    SortsSize(Used(f), t);
    forall l: seq<nat>, m: nat | FitsWithin(f, l, m) && Nonzero(f, l) ensures CostsLittleMore(f, sz, l) {
      NoCheaper(f, t, len, l, m);
    }
  }

  lemma SingleCheaper(f: seq<nat>, t: seq<SymFreq>, sz: seq<nat>, l: seq<nat>)
    requires multiset(t) == multiset(Used(f)) && |t| <= 1 && |sz| == |f| && Nonzero(f, l)
    requires |t| == 1 ==> forall i :: 0 <= i < |f| && f[i] > 0 ==> sz[i] == 1
    ensures Cost(f, sz) <= Cost(f, l)
  {
    hide Used, Cost, Keys;
    AllRecords(f, t);
    CostMoves(f, t, sz);
    CostMoves(f, t, l);
    SingleCost(t, sz);
    SingleCost(t, l);
    if |t| == 1 {
      Scale(1, l[t[0].sym], t[0].key);
    }
  }

  /** With at most one symbol there is nothing to save. */
  lemma NearOptimalSingle(f: seq<nat>, t: seq<SymFreq>, sz: seq<nat>)
    requires multiset(t) == multiset(Used(f)) && |t| <= 1 && |sz| == |f|
    requires |t| == 1 ==> forall i :: 0 <= i < |f| && f[i] > 0 ==> sz[i] == 1
    ensures NearOptimal(f, sz)
  {
    hide Used, Sum, Cost, FitsWithin, Allowance, Nonzero;
    forall l: seq<nat>, m: nat | FitsWithin(f, l, m) && Nonzero(f, l) ensures CostsLittleMore(f, sz, l) {
      SameLength(f, l, m);
      SingleCheaper(f, t, sz, l);
    }
  }

  lemma SingleCost(t: seq<SymFreq>, l: seq<nat>)
    requires |t| <= 1 && forall k :: 0 <= k < |t| ==> t[k].sym < |l|
    ensures |t| == 0 ==> Cost(Keys(t), Pick(l, t)) == 0
    ensures |t| == 1 ==> Cost(Keys(t), Pick(l, t)) == t[0].key * l[t[0].sym]
  {
    if |t| == 1 {
      assert Keys(t)[..0] == [] && Pick(l, t)[..0] == [];
    }
  }

  // ---------------------------------------------------------------- the whole procedure

  /** num_codes for sizes that are given. */
  method CountGiven(sizes: array<nat>, n: nat, m: nat) returns (num: array<int>)
    requires n <= sizes.Length && m <= 15 && forall i :: 0 <= i < n ==> sizes[i] <= m
    ensures fresh(num) && num.Length == 33 && Histogram(num[..], sizes[..n], m)
  {
    num := new int[33](_ => 0);
    var i := 0;
    while i < n
      invariant 0 <= i <= n && forall l :: 0 <= l <= m ==> num[l] == Cnt(sizes[..i], l)
    {
      assert sizes[..i + 1][..i] == sizes[..i];
      num[sizes[i]] := num[sizes[i]] + 1;
      i := i + 1;
    }
  }

  lemma FibonacciLimit(f: seq<nat>, t: seq<SymFreq>, len: seq<nat>, m: nat)
    requires Sorts(Used(f), t) && OptimalLengths(Keys(t), len) && Sum(f) < Fib(m + 3)
    ensures AllAtMost(len, m)
  {
    hide Used, Keys, Sorts, OptimalLengths, Fib, Sum, FibonacciBound, AllAtMost;
    SortsSize(Used(f), t);
    KeysSize(t, len);
    SortedSum(f, t);
    ShortTextLimit(Keys(t), len, m);
  }

  /** All that is known of the sizes chosen for counted symbols. */
  ghost predicate WellSized(f: seq<nat>, sz: seq<nat>, m: nat) {
    && Suits(f, sz, m) && (m == 15 ==> NearOptimal(f, sz))
    && (|Used(f)| >= 2 ==> (OptimalSizes(f, sz) <==> Limitable(f, m)))
    && (|Used(f)| >= 2 && Sum(f) < Fib(m + 3) ==> OptimalSizes(f, sz))
  }

  /** Sizes handed out from a limited histogram. */
  lemma LimitedSizes(f: seq<nat>, t: seq<SymFreq>, c: seq<int>, num: seq<int>, lo: nat, len: seq<nat>, m: nat,
      sz: seq<nat>)
    requires |num| == 33 && 1 <= m <= 15 && Sorts(Used(f), t) && Suits(f, sz, m) && Sized(sz, Syms(t), num, 0)
    requires LengthLimit.NonNegative(num, m) && LengthLimit.Count(num, m) == |t|
    requires |t| >= 2 ==> OptimalLengths(Keys(t), len) && LimitedFrom(c, num, lo, len, m)
    requires |t| >= 2 && AllAtMost(len, m) ==> HistogramOf(num, len)
    ensures WellSized(f, sz, m)
    ensures |t| >= 2 ==> (OptimalSizes(f, sz) <==> AllAtMost(len, m))
  {
    hide Used, Sorts, Sized, OptimalLengths, Cost, Keys, Syms, Sum, FitsWithin, Suits, NearOptimal, OptimalSizes,
      Limitable, Fib, AllAtMost, HistogramOf, LengthLimit.NonNegative, LengthLimit.Count, LengthLimit.Rebalanced,
      LengthLimit.Space, LengthLimit.Fold, Pow2;
    SortsSize(Used(f), t);
    if |t| >= 2 {
      OptimalExactly(f, t, num, len, m, sz);
      if m == 15 {
        NearOptimalSizes(f, t, c, num, lo, len, sz);
      }
      if Sum(f) < Fib(m + 3) {
        FibonacciLimit(f, t, len, m);
      }
    } else {
      SuitsSingle(f, sz, m);
      NearOptimalSingle(f, t, sz);
    }
  }

  lemma SuitsSingle(f: seq<nat>, sz: seq<nat>, m: nat)
    requires Suits(f, sz, m)
    ensures |sz| == |f| && (|Used(f)| == 1 ==> forall i :: 0 <= i < |f| && f[i] > 0 ==> sz[i] == 1)
  {
    hide Fits, Full, InflateTable.Accepted, Used;
  }

  /** tdefl_optimize_huffman_table: with given sizes it only numbers the codes. Otherwise it chooses sizes that suit
      the counts: optimal ones exactly if some optimal code respects the limit m, and with a limit of 15 bits never
      far from optimal. */
  method OptimizeHuffmanTable(count: array<nat>, sizes: array<nat>, codes: array<nat>, n: nat, m: nat,
      staticTable: bool)
    returns (ghost t: seq<SymFreq>, ghost len: seq<nat>)
    requires count != sizes && count != codes && sizes != codes
    requires n <= 288 && n <= count.Length && n <= sizes.Length && n <= codes.Length && 1 <= m <= 15
    requires staticTable ==> Fits(sizes[..n]) && forall i :: 0 <= i < n ==> sizes[i] <= m
    requires !staticTable ==> n <= Pow2(m) && Sum(count[..n]) <= 0xFFFF
    modifies sizes, codes
    ensures CodeTable(codes[..], sizes[..n], n)
    ensures staticTable ==> sizes[..] == old(sizes[..])
    ensures !staticTable ==> WellSized(count[..n], sizes[..n], m)
    ensures !staticTable && |Used(count[..n])| >= 2 ==> OptimalLengths(Keys(t), len)
    ensures !staticTable && |Used(count[..n])| >= 2 ==> (OptimalSizes(count[..n], sizes[..n]) <==> AllAtMost(len, m))
  {
    hide CodeTable, Histogram, Fits, Pow2, Suits, Used, Sorts, Sized, Tally, Level, OptimalLengths, OptimalSizes,
      HistogramOf, AllAtMost, Distinct, Sum, WellSized, LimitedFrom,
      LengthLimit.Count, LengthLimit.Space, LengthLimit.NonNegative, Cnt, First, Keys, Syms;
    t, len := [], [];
    if staticTable {
      var num := CountGiven(sizes, n, m);
      AssignCodes(num, sizes, codes, n, m);
    } else {
      ghost var f := count[..n];
      var num, syms, used;
      ghost var c, lo;
      num, syms, used, t, len, c, lo := LimitedHistogram(count, n, m);
      Clear(sizes, 0);
      Clear(codes, 0);
      SymsDistinct(f, t);
      AssignSizes(num, m, syms, used, sizes, n);
      SizesSuit(f, t, num[..], m, sizes[..n]);
      SuitsParts(f, sizes[..n], m);
      SortsSize(Used(f), t);
      LimitedSizes(f, t, c, num[..], lo, len, m, sizes[..n]);
      AssignCodes(num, sizes, codes, n, m);
    }
  }

  lemma SuitsParts(f: seq<nat>, sz: seq<nat>, m: nat)
    requires Suits(f, sz, m)
    ensures Fits(sz) && InflateTable.Accepted(sz) && forall i :: 0 <= i < |sz| ==> sz[i] <= m
  {
  }
}
