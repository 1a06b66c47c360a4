/** The least-significant-digit radix sort of symbols by frequency. */
module RadixSort {
  import opened Permutations

  datatype SymFreq = SymFreq(key: nat, sym: nat)

  /** (key >> 8 * p) & 0xFF, for the two bytes p of a 16-bit key. */
  function Digit(x: SymFreq, p: nat): (d: nat)
    ensures d < 256
  {
    if p == 0 then x.key % 256 else x.key / 256 % 256
  }

  /** The records whose digit p is d, in order. */
  ghost function Filter(s: seq<SymFreq>, p: nat, d: nat): (r: seq<SymFreq>)
    ensures |r| <= |s|
  {
    if s == [] then []
    else if Digit(s[|s| - 1], p) == d then Filter(s[..|s| - 1], p, d) + [s[|s| - 1]]
    else Filter(s[..|s| - 1], p, d)
  }

  /** The first k buckets, one after the other. */
  ghost function Buckets(s: seq<SymFreq>, p: nat, k: nat): seq<SymFreq> {
    if k == 0 then [] else Buckets(s, p, k - 1) + Filter(s, p, k - 1)
  }

  /** Order after the first p passes, on input in symbol order. */
  ghost predicate Less(a: SymFreq, b: SymFreq, p: nat) {
    if p == 0 then a.sym < b.sym
    else Digit(a, p - 1) < Digit(b, p - 1) || (Digit(a, p - 1) == Digit(b, p - 1) && Less(a, b, p - 1))
  }

  ghost predicate Ordered(s: seq<SymFreq>, p: nat) {
    forall i, j :: 0 <= i < j < |s| ==> Less(s[i], s[j], p)
  }

  // ---------------------------------------------------------------- what a pass does to order and contents

  lemma {:induction false} FilterElements(s: seq<SymFreq>, p: nat, d: nat)
    ensures forall i :: 0 <= i < |Filter(s, p, d)| ==> Filter(s, p, d)[i] in s && Digit(Filter(s, p, d)[i], p) == d
  {
    hide Digit;
    if s != [] {
      FilterElements(s[..|s| - 1], p, d);
    }
  }

  lemma {:induction false} FilterOrdered(s: seq<SymFreq>, p: nat, d: nat, q: nat)
    requires Ordered(s, q)
    ensures Ordered(Filter(s, p, d), q)
  {
    hide Digit;
    if s != [] {
      var t := s[..|s| - 1];
      FilterOrdered(t, p, d, q);
      FilterElements(t, p, d);
      hide Less;
      forall x | x in t ensures Less(x, s[|s| - 1], q) {
      }
    }
  }

  lemma {:induction false} BucketDigits(s: seq<SymFreq>, p: nat, k: nat)
    ensures forall i :: 0 <= i < |Buckets(s, p, k)| ==> Digit(Buckets(s, p, k)[i], p) < k
  {
    hide Digit;
    if k > 0 {
      BucketDigits(s, p, k - 1);
      FilterElements(s, p, k - 1);
    }
  }

  /** A stable pass refines the order it finds by its own digit. */
  lemma {:induction false} BucketsOrdered(s: seq<SymFreq>, p: nat, k: nat)
    requires Ordered(s, p)
    ensures Ordered(Buckets(s, p, k), p + 1)
  {
    hide Digit;
    if k > 0 {
      BucketsOrdered(s, p, k - 1);
      BucketDigits(s, p, k - 1);
      FilterOrdered(s, p, k - 1, p);
      FilterElements(s, p, k - 1);
    }
  }

  /** The records whose digit p is below k. */
  ghost function Below(s: seq<SymFreq>, p: nat, k: nat): (r: seq<SymFreq>) {
    if s == [] then []
    else if Digit(s[|s| - 1], p) < k then Below(s[..|s| - 1], p, k) + [s[|s| - 1]]
    else Below(s[..|s| - 1], p, k)
  }

  lemma {:induction false} BelowStep(s: seq<SymFreq>, p: nat, k: nat)
    ensures multiset(Below(s, p, k + 1)) == multiset(Below(s, p, k)) + multiset(Filter(s, p, k))
  {
    hide Digit;
    if s != [] {
      BelowStep(s[..|s| - 1], p, k);
    }
  }

  lemma {:induction false} BelowNone(s: seq<SymFreq>, p: nat)
    ensures Below(s, p, 0) == []
  {
    if s != [] {
      BelowNone(s[..|s| - 1], p);
    }
  }

  lemma {:induction false} BelowAll(s: seq<SymFreq>, p: nat)
    ensures Below(s, p, 256) == s
  {
    hide Digit;
    if s != [] {
      BelowAll(s[..|s| - 1], p);
    }
  }

  lemma {:induction false} BucketsContents(s: seq<SymFreq>, p: nat, k: nat)
    ensures multiset(Buckets(s, p, k)) == multiset(Below(s, p, k))
  {
    hide Digit, Below, Filter;
    if k == 0 {
      BelowNone(s, p);
    } else {
      BucketsContents(s, p, k - 1);
      BelowStep(s, p, k - 1);
    }
  }

  /** A pass permutes the records. */
  lemma PassPermutes(s: seq<SymFreq>, p: nat)
    ensures multiset(Buckets(s, p, 256)) == multiset(s) && |Buckets(s, p, 256)| == |s|
  {
    BucketsContents(s, p, 256);
    BelowAll(s, p);
    assert |multiset(Buckets(s, p, 256))| == |multiset(s)|;
  }

  lemma FilterPush(s: seq<SymFreq>, x: SymFreq, p: nat, d: nat)
    ensures Filter(s + [x], p, d) == Filter(s, p, d) + if Digit(x, p) == d then [x] else []
    ensures Filter([], p, d) == []
  {
    hide Digit;
    assert (s + [x])[..|s|] == s;
  }

  lemma {:induction false} FilterConcat(s: seq<SymFreq>, t: seq<SymFreq>, p: nat, d: nat)
    ensures Filter(s + t, p, d) == Filter(s, p, d) + Filter(t, p, d)
    decreases |t|
  {
    hide Digit, Filter;
    if t == [] {
      assert s + t == s;
      FilterPush([], SymFreq(0, 0), p, d);
    } else {
      var t', x := t[..|t| - 1], t[|t| - 1];
      assert t == t' + [x] && s + t == s + t' + [x];
      FilterConcat(s, t', p, d);
      FilterPush(s + t', x, p, d);
      FilterPush(t', x, p, d);
    }
  }

  /** Histograms do not depend on the order of the records. */
  lemma {:induction false} CountsPermute(s: seq<SymFreq>, t: seq<SymFreq>, p: nat, d: nat)
    requires multiset(s) == multiset(t)
    ensures |Filter(s, p, d)| == |Filter(t, p, d)|
  {
    hide Filter;
    if s == [] {
      assert |multiset(t)| == 0;
      assert t == [];
    } else {
      var x, s' := s[|s| - 1], s[..|s| - 1];
      assert s == s' + [x];
      var a, b := FindElement(s', x, t);
      CountsPermute(s', a + b, p, d);
      FilterConcat(a, b, p, d);
      FilterConcat(a + [x], b, p, d);
      FilterConcat(a, [x], p, d);
      FilterConcat(s', [x], p, d);
    }
  }

  // ---------------------------------------------------------------- where a pass puts each record

  ghost function Target(s: seq<SymFreq>, p: nat, j: nat): nat
    requires j < |s|
  {
    |Buckets(s, p, Digit(s[j], p))| + |Filter(s[..j], p, Digit(s[j], p))|
  }

  lemma {:induction false} FilterPrefix(s: seq<SymFreq>, p: nat, d: nat, a: nat, b: nat)
    requires a <= b <= |s|
    ensures Filter(s[..a], p, d) <= Filter(s[..b], p, d)
    ensures a < b && Digit(s[a], p) == d ==> Filter(s[..a], p, d) + [s[a]] <= Filter(s[..b], p, d)
    decreases b
  {
    hide Digit;
    if a < b {
      assert s[..b][..b - 1] == s[..b - 1];
      FilterPrefix(s, p, d, a, b - 1);
    }
  }

  lemma {:induction false} BucketsPrefix(s: seq<SymFreq>, p: nat, a: nat, b: nat)
    requires a <= b
    ensures Buckets(s, p, a) <= Buckets(s, p, b)
    decreases b
  {
    if a < b {
      BucketsPrefix(s, p, a, b - 1);
    }
  }

  lemma TargetHolds(s: seq<SymFreq>, p: nat, j: nat)
    requires j < |s|
    ensures Target(s, p, j) < |Buckets(s, p, 256)| && Buckets(s, p, 256)[Target(s, p, j)] == s[j]
  {
    hide Digit;
    var d := Digit(s[j], p);
    FilterPrefix(s, p, d, j, |s|);
    assert s[..|s|] == s;
    BucketsPrefix(s, p, d + 1, 256);
    assert Buckets(s, p, d + 1)[Target(s, p, j)] == s[j];
  }

  lemma TargetsDiffer(s: seq<SymFreq>, p: nat, i: nat, j: nat)
    requires i < j < |s|
    ensures Target(s, p, i) != Target(s, p, j)
  {
    hide Digit;
    var d, e := Digit(s[i], p), Digit(s[j], p);
    FilterPrefix(s, p, d, i, j);
    FilterPrefix(s, p, d, i, |s|);
    FilterPrefix(s, p, e, j, |s|);
    assert s[..|s|] == s;
    if d < e {
      BucketsPrefix(s, p, d + 1, e);
    } else if e < d {
      BucketsPrefix(s, p, e + 1, d);
    }
  }

  lemma {:induction false} FilterOrigin(s: seq<SymFreq>, p: nat, d: nat, y: nat) returns (j: nat)
    requires y < |Filter(s, p, d)|
    ensures j < |s| && Digit(s[j], p) == d && |Filter(s[..j], p, d)| == y
  {
    hide Digit;
    var n := |s| - 1;
    if Digit(s[n], p) == d && y == |Filter(s[..n], p, d)| {
      j := n;
    } else {
      j := FilterOrigin(s[..n], p, d, y);
      assert s[..n][..j] == s[..j];
    }
  }

  lemma {:induction false} TargetOrigin(s: seq<SymFreq>, p: nat, k: nat, x: nat) returns (j: nat)
    requires x < |Buckets(s, p, k)|
    ensures j < |s| && Target(s, p, j) == x
  {
    hide Digit;
    if x < |Buckets(s, p, k - 1)| {
      j := TargetOrigin(s, p, k - 1, x);
    } else {
      j := FilterOrigin(s, p, k - 1, x - |Buckets(s, p, k - 1)|);
    }
  }

  // ---------------------------------------------------------------- the arrays

  /** The two parallel arrays hold the records `s`. */
  ghost predicate Holds(keys: array<nat>, syms: array<nat>, s: seq<SymFreq>)
    reads keys, syms
  {
    |s| <= keys.Length && |s| <= syms.Length && forall i :: 0 <= i < |s| ==> keys[i] == s[i].key && syms[i] == s[i].sym
  }

  /** The first i records are where they belong. */
  ghost predicate Placed(keys: array<nat>, syms: array<nat>, s: seq<SymFreq>, p: nat, i: nat)
    reads keys, syms
    requires i <= |s| <= keys.Length && |s| <= syms.Length
  {
    forall j {:trigger Target(s, p, j)} :: 0 <= j < i ==>
      && 0 <= Target(s, p, j) < |s|
      && keys[Target(s, p, j)] == s[j].key && syms[Target(s, p, j)] == s[j].sym
  }

  ghost predicate Offsets(off: seq<nat>, s: seq<SymFreq>, p: nat, i: nat)
    requires i <= |s|
  {
    |off| == 256 && forall d :: 0 <= d < 256 ==> off[d] == |Buckets(s, p, d)| + |Filter(s[..i], p, d)|
  }

  ghost predicate Counts(hist: seq<nat>, base: nat, s: seq<SymFreq>, p: nat) {
    base + 256 <= |hist| && forall d :: 0 <= d < 256 ==> hist[base + d] == |Filter(s, p, d)|
  }

  lemma NextOffset(off: seq<nat>, s: seq<SymFreq>, p: nat, i: nat)
    requires i < |s| && Offsets(off, s, p, i)
    ensures var d := Digit(s[i], p); off[d] == Target(s, p, i) < |s| && Offsets(off[d := off[d] + 1], s, p, i + 1)
  {
    hide Digit;
    assert s[..i + 1][..i] == s[..i];
    TargetHolds(s, p, i);
    PassPermutes(s, p);
  }

  lemma NewTarget(s: seq<SymFreq>, p: nat, i: nat)
    requires i < |s|
    ensures forall j :: 0 <= j < i ==> Target(s, p, j) != Target(s, p, i)
  {
    forall j | 0 <= j < i ensures Target(s, p, j) != Target(s, p, i) {
      TargetsDiffer(s, p, j, i);
    }
  }

  lemma AllPlaced(keys: array<nat>, syms: array<nat>, s: seq<SymFreq>, p: nat)
    requires |s| <= keys.Length && |s| <= syms.Length && Placed(keys, syms, s, p, |s|)
    ensures Holds(keys, syms, Buckets(s, p, 256))
  {
    hide Digit;
    var t := Buckets(s, p, 256);
    PassPermutes(s, p);
    forall x | 0 <= x < |t| ensures keys[x] == t[x].key && syms[x] == t[x].sym {
      var j := TargetOrigin(s, p, 256, x);
      TargetHolds(s, p, j);
    }
  }

  method StartOffsets(hist: array<nat>, base: nat, ghost s: seq<SymFreq>, ghost p: nat) returns (off: array<nat>)
    requires Counts(hist[..], base, s, p)
    ensures fresh(off) && Offsets(off[..], s, p, 0)
  {
    off := new nat[256](_ => 0);
    var cur, i := 0, 0;
    while i < 256
      invariant 0 <= i <= 256 && cur == |Buckets(s, p, i)|
      invariant forall d :: 0 <= d < i ==> off[d] == |Buckets(s, p, d)|
    {
      off[i] := cur;
      cur := cur + hist[base + i];
      i := i + 1;
    }
    assert s[..0] == [];
  }

  /** (key >> (8 * pass)) & 0xFF */
  method KeyDigit(key: nat, sym: nat, p: nat) returns (d: nat)
    ensures d == Digit(SymFreq(key, sym), p)
  {
    d := Digit(SymFreq(key, sym), p);
  }

  /** One counting-sort pass. */
  method Pass(keys: array<nat>, syms: array<nat>, keys': array<nat>, syms': array<nat>, n: nat, hist: array<nat>,
      p: nat, ghost s: seq<SymFreq>)
    requires n == |s| && Holds(keys, syms, s) && n <= keys'.Length && n <= syms'.Length
    requires keys != keys' && keys != syms' && syms != keys' && syms != syms' && keys' != syms' && hist != keys'
    requires hist != syms'
    requires Counts(hist[..], 256 * p, s, p)
    modifies keys', syms'
    ensures Holds(keys', syms', Buckets(s, p, 256))
  {
    hide Target, Filter, Buckets, Digit, Offsets;
    var off := StartOffsets(hist, 256 * p, s, p);
    OffsetsSize(off[..], s, p, 0);
    var i := 0;
    while i < n
      invariant 0 <= i <= n && Holds(keys, syms, s)
      invariant off.Length == 256 && Offsets(off[..], s, p, i)
      invariant Placed(keys', syms', s, p, i)
    {
      NextOffset(off[..], s, p, i);
      NewTarget(s, p, i);
      var d := KeyDigit(keys[i], syms[i], p);
      assert SymFreq(keys[i], syms[i]) == s[i];
      var x := off[d];
      keys'[x], syms'[x] := keys[i], syms[i];
      off[d] := x + 1;
      i := i + 1;
    }
    AllPlaced(keys', syms', s, p);
  }

  lemma OffsetsSize(off: seq<nat>, s: seq<SymFreq>, p: nat, i: nat)
    requires i <= |s| && Offsets(off, s, p, i)
    ensures |off| == 256
  {
  }

  /** Both histograms in one sweep. */
  method Histograms(keys: array<nat>, syms: array<nat>, n: nat, ghost s: seq<SymFreq>) returns (hist: array<nat>)
    requires n == |s| && Holds(keys, syms, s)
    ensures fresh(hist) && hist.Length == 512 && Counts(hist[..], 0, s, 0) && Counts(hist[..], 256, s, 1)
  {
    hist := new nat[512](_ => 0);
    var i := 0;
    assert s[..0] == [];
    while i < n
      invariant 0 <= i <= n && hist.Length == 512 && Holds(keys, syms, s)
      invariant Counts(hist[..], 0, s[..i], 0) && Counts(hist[..], 256, s[..i], 1)
    {
      hide Filter, Digit;
      CountNext(hist[..], s, i);
      var d := KeyDigit(keys[i], syms[i], 0);
      var e := KeyDigit(keys[i], syms[i], 1);
      assert SymFreq(keys[i], syms[i]) == s[i];
      hist[d] := hist[d] + 1;
      hist[256 + e] := hist[256 + e] + 1;
      i := i + 1;
    }
    assert s[..n] == s;
  }

  lemma CountOne(hist: seq<nat>, base: nat, s: seq<SymFreq>, p: nat, i: nat)
    requires i < |s| && Counts(hist, base, s[..i], p)
    ensures var d := base + Digit(s[i], p); Counts(hist[d := hist[d] + 1], base, s[..i + 1], p)
  {
    hide Digit;
    var b := base + Digit(s[i], p);
    var hist' := hist[b := hist[b] + 1];
    var u := s[..i + 1];
    forall d | 0 <= d < 256 ensures hist'[base + d] == |Filter(u, p, d)| {
      FilterStep(s, p, d, i);
    }
  }

  lemma FilterStep(s: seq<SymFreq>, p: nat, d: nat, i: nat)
    requires i < |s|
    ensures Filter(s[..i + 1], p, d) == Filter(s[..i], p, d) + if Digit(s[i], p) == d then [s[i]] else []
  {
    hide Digit;
    assert s[..i + 1][..i] == s[..i];
  }

  lemma CountElsewhere(hist: seq<nat>, base: nat, s: seq<SymFreq>, p: nat, k: nat, v: nat)
    requires Counts(hist, base, s, p) && k < |hist| && !(base <= k < base + 256)
    ensures Counts(hist[k := v], base, s, p)
  {
    hide Filter;
  }

  lemma CountNext(hist: seq<nat>, s: seq<SymFreq>, i: nat)
    requires i < |s| && |hist| == 512 && Counts(hist, 0, s[..i], 0) && Counts(hist, 256, s[..i], 1)
    ensures var d, e := Digit(s[i], 0), 256 + Digit(s[i], 1); var hist' := hist[d := hist[d] + 1];
            Counts(hist'[e := hist'[e] + 1], 0, s[..i + 1], 0) && Counts(hist'[e := hist'[e] + 1], 256, s[..i + 1], 1)
  {
    hide Counts, Digit;
    var d, e := Digit(s[i], 0), 256 + Digit(s[i], 1);
    var h := hist[d := hist[d] + 1];
    CountOne(hist, 0, s, 0, i);
    CountElsewhere(hist, 256, s[..i], 1, d, hist[d] + 1);
    CountElsewhere(h, 0, s[..i + 1], 0, e, h[e] + 1);
    CountOne(h, 256, s, 1, i);
  }

  // ---------------------------------------------------------------- the whole sort

  ghost predicate Keys16(s: seq<SymFreq>) {
    forall i :: 0 <= i < |s| ==> s[i].key <= 0xFFFF
  }

  /** Sorted by frequency, and by symbol among equals. */
  ghost predicate SortedByKey(s: seq<SymFreq>) {
    forall i, j :: 0 <= i < j < |s| ==> s[i].key < s[j].key || (s[i].key == s[j].key && s[i].sym < s[j].sym)
  }

  lemma TwoDigits(x: SymFreq)
    requires x.key <= 0xFFFF
    ensures x.key == 256 * Digit(x, 1) + Digit(x, 0)
  {
  }

  lemma LessTwo(a: SymFreq, b: SymFreq)
    requires Less(a, b, 2)
    ensures Digit(a, 1) < Digit(b, 1) ||
      (Digit(a, 1) == Digit(b, 1) && (Digit(a, 0) < Digit(b, 0) || (Digit(a, 0) == Digit(b, 0) && a.sym < b.sym)))
  {
    hide Digit;
    assert Less(a, b, 0) == (a.sym < b.sym);
    assert Less(a, b, 1) ==> Digit(a, 0) < Digit(b, 0) || (Digit(a, 0) == Digit(b, 0) && a.sym < b.sym);
  }

  /** Two passes sort 16-bit keys. */
  lemma OrderedIsSorted(s: seq<SymFreq>)
    requires Ordered(s, 2) && Keys16(s)
    ensures SortedByKey(s)
  {
    forall i, j | 0 <= i < j < |s| ensures s[i].key < s[j].key || (s[i].key == s[j].key && s[i].sym < s[j].sym) {
      TwoDigits(s[i]);
      TwoDigits(s[j]);
      assert Less(s[i], s[j], 2);
      LessTwo(s[i], s[j]);
    }
  }

  lemma {:induction false} SameDigit(s: seq<SymFreq>, p: nat, d: nat)
    requires |Filter(s, p, d)| == |s|
    ensures forall i :: 0 <= i < |s| ==> Digit(s[i], p) == d
  {
    hide Digit;
    if s != [] {
      SameDigit(s[..|s| - 1], p, d);
    }
  }

  /** When every high byte is zero, one pass is enough. */
  lemma OnePassEnough(s: seq<SymFreq>, t: seq<SymFreq>)
    requires |Filter(s, 1, 0)| == |s| && multiset(s) == multiset(t) && Ordered(t, 1)
    ensures Ordered(t, 2)
  {
    CountsPermute(s, t, 1, 0);
    assert |s| == |multiset(s)| == |multiset(t)| == |t|;
    SameDigit(t, 1, 0);
    hide Digit;
  }

  lemma CountsMove(hist: seq<nat>, base: nat, s: seq<SymFreq>, t: seq<SymFreq>, p: nat)
    requires Counts(hist, base, s, p) && multiset(s) == multiset(t)
    ensures Counts(hist, base, t, p)
  {
    hide Filter;
    forall d | 0 <= d < 256 ensures hist[base + d] == |Filter(t, p, d)| {
      CountsPermute(s, t, p, d);
    }
  }

  /** What the sort promises. */
  ghost predicate Sorts(s: seq<SymFreq>, t: seq<SymFreq>) {
    multiset(t) == multiset(s) && |t| == |s| && SortedByKey(t)
  }

  lemma KeysKept(s: seq<SymFreq>, t: seq<SymFreq>)
    requires Keys16(s) && multiset(s) == multiset(t)
    ensures Keys16(t)
  {
    hide Digit;
    forall i | 0 <= i < |t| ensures t[i].key <= 0xFFFF {
      assert t[i] in multiset(t);
      assert t[i] in s;
    }
  }

  lemma Finished(s: seq<SymFreq>, t: seq<SymFreq>)
    requires Keys16(s) && multiset(s) == multiset(t) && |s| == |t| && Ordered(t, 2)
    ensures Sorts(s, t)
  {
    KeysKept(s, t);
    OrderedIsSorted(t);
  }

  /** tdefl_radix_sort_syms: sorts records that come in symbol order; the pass over the high bytes is
      skipped when all of them are zero. The result is in whichever buffer the last pass wrote. */
  method RadixSortSyms(n: nat, keys0: array<nat>, syms0: array<nat>, keys1: array<nat>, syms1: array<nat>,
      ghost s: seq<SymFreq>)
    returns (keys: array<nat>, syms: array<nat>, ghost t: seq<SymFreq>)
    requires n == |s| && Holds(keys0, syms0, s) && n <= keys1.Length && n <= syms1.Length
    requires keys0 != keys1 && keys0 != syms1 && syms0 != keys1 && syms0 != syms1 && keys1 != syms1 && keys0 != syms0
    requires Keys16(s) && Ordered(s, 0)
    modifies keys0, syms0, keys1, syms1
    ensures (keys == keys0 && syms == syms0) || (keys == keys1 && syms == syms1)
    ensures Sorts(s, t) && Holds(keys, syms, t)
  {
    hide Filter, Buckets, Less, Digit, Sorts;
    var hist := Histograms(keys0, syms0, n, s);
    var totalPasses := 2;
    if n == hist[256] {
      assert hist[256] == hist[..][256 + 0] == |Filter(s, 1, 0)|;
      totalPasses := 1;
    }
    Pass(keys0, syms0, keys1, syms1, n, hist, 0, s);
    t := Buckets(s, 0, 256);
    PassPermutes(s, 0);
    BucketsOrdered(s, 0, 256);
    if totalPasses == 1 {
      OnePassEnough(s, t);
      Finished(s, t);
      return keys1, syms1, t;
    }
    CountsMove(hist[..], 256, s, t, 1);
    Pass(keys1, syms1, keys0, syms0, n, hist, 1, t);
    PassPermutes(t, 1);
    BucketsOrdered(t, 1, 256);
    t := Buckets(t, 1, 256);
    Finished(s, t);
    return keys0, syms0, t;
  }
}
