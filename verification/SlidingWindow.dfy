/** Signed sliding-window multi-exponentiation (WindowSlider and AbstractGroup::SimultaneousMultiply). */
module SlidingWindow {
  import opened Sums
  import opened Bits
  import opened AbelianGroup

  // ---------------------------------------------------------------- the exponent as a bit string

  /** Integer::BitCount */
  function BitCount(e: nat): (n: nat)
    ensures e < Pow2(n)
  {
    if e == 0 then 0 else 1 + BitCount(e / 2)
  }

  /** Integer::WordCount() * WORD_BITS for words of `wordBits` bits. */
  function WordLength(e: nat, wordBits: nat): (n: nat)
    requires wordBits >= 1
    ensures e < Pow2(n)
    decreases e
  {
    if e == 0 then 0
    else
      ShrSmaller(e, wordBits);
      ShrWithin(e, wordBits, WordLength(Shr(e, wordBits), wordBits));
      wordBits + WordLength(Shr(e, wordBits), wordBits)
  }

  lemma {:induction false} ShrSmaller(e: nat, k: nat)
    ensures Shr(e, k) <= e && (k >= 1 && e > 0 ==> Shr(e, k) < e)
    decreases k
  {
    if k > 0 {
      ShrSmaller(e / 2, k - 1);
    }
  }

  lemma {:induction false} ShrWithin(e: nat, k: nat, n: nat)
    requires Shr(e, k) < Pow2(n)
    ensures e < Pow2(k + n)
    decreases k
  {
    if k > 0 {
      ShrWithin(e / 2, k - 1, n);
    }
  }

  lemma {:induction false} ShrNext(e: nat, k: nat)
    ensures Shr(e, k + 1) == Shr(e, k) / 2
    decreases k
  {
    if k > 0 {
      ShrNext(e / 2, k - 1);
    } else {
      assert Shr(e, 1) == Shr(e / 2, 0);
    }
  }

  /** A number is its low bits and the rest. */
  lemma {:induction false} SplitBits(e: nat, k: nat)
    ensures e == LowBits(e, k) + Pow2(k) * Shr(e, k) && LowBits(e, k) < Pow2(k)
    decreases k
  {
    if k > 0 {
      SplitBits(e / 2, k - 1);
      DoubleProduct(Pow2(k - 1), Shr(e / 2, k - 1));
    } else {
      assert Pow2(0) == 1;
    }
  }

  /** An odd number has odd low bits. */
  lemma OddLowBits(e: nat, k: nat)
    requires e % 2 == 1 && k >= 1
    ensures LowBits(e, k) % 2 == 1
  {
  }

  /** Adding 2^k adds one to the part above bit k. */
  lemma {:induction false} ShrPlus(e: nat, k: nat)
    ensures Shr(e + Pow2(k), k) == Shr(e, k) + 1
    decreases k
  {
    if k > 0 {
      ShrPlus(e / 2, k - 1);
      assert (e + 2 * Pow2(k - 1)) / 2 == e / 2 + Pow2(k - 1);
    } else {
      assert Pow2(0) == 1;
    }
  }

  /** v * 2^p */
  ghost function Scaled(v: int, p: nat): int {
    v * Pow2(p)
  }

  /** The digit d with the number a above it, w bits higher. */
  ghost function Joined(d: int, w: nat, a: nat): int {
    d + Pow2(w) * a
  }

  // ---------------------------------------------------------------- the slider

  /** expLen <= 17 ? 1 : ... */
  function WindowSizeFor(expLen: nat): (w: nat)
    ensures 1 <= w <= 7
  {
    if expLen <= 17 then 1 else if expLen <= 24 then 2 else if expLen <= 70 then 3 else if expLen <= 197 then 4
    else if expLen <= 539 then 5 else if expLen <= 1434 then 6 else 7
  }

  class WindowSlider {
    const windowSize: nat
    const wordBits: nat
    const fastNegate: bool
    var exp: nat
    var windowBegin: nat
    var expWindow: nat
    var negateNext: bool
    var firstTime: bool
    var finished: bool

    ghost predicate Shape()
      reads this
    {
      1 <= windowSize <= 7 && wordBits >= 1
    }

    /** The signed digit at windowBegin. */
    ghost function Digit(): int
      reads this
    {
      var d: int := expWindow; if negateNext then -d else d
    }

    /** What lies above the current window. */
    ghost function Above(): nat
      reads this
    {
      Shr(exp, windowSize)
    }

    /** A window has been found: its digit is odd and fits half the bucket range. */
    ghost predicate Valid()
      reads this
    {
      && Shape() && !firstTime
      && (!finished ==> expWindow % 2 == 1 && expWindow < Pow2(windowSize) && Remaining() > 0 && Above() < Remaining())
    }

    /** The part of the exponent not yet consumed, in units of 2^windowBegin. */
    ghost function Remaining(): int
      reads this
    {
      if finished then 0 else Joined(Digit(), windowSize, Above())
    }

    constructor (e: nat, negate: bool, bits: nat)
      requires bits >= 1
      ensures Shape() && firstTime && exp == e && windowBegin == 0 && !finished
    {
      windowSize, wordBits, fastNegate := WindowSizeFor(BitCount(e)), bits, negate;
      exp, windowBegin, expWindow, negateNext, firstTime, finished := e, 0, 0, false, true, false;
    }

    /** What there is to find: everything at first, later what lies above the current window. */
    ghost function Ahead(): nat
      reads this
    {
      if firstTime then exp else Above()
    }

    ghost function Position(): nat
      reads this
    {
      if firstTime then windowBegin else windowBegin + windowSize
    }

    /** The search for the next set bit. */
    method SkipZeros() returns (found: bool, skipCount: nat)
      requires Shape()
      ensures !found ==> Ahead() == 0
      ensures found ==> Position() - windowBegin <= skipCount && Shr(exp, skipCount) % 2 == 1
      ensures found ==> Ahead() == Scaled(Shr(exp, skipCount), skipCount + windowBegin - Position())
    {
      hide Pow2, Shr, LowBits, Scaled, Joined;
      var expLen := WordLength(exp, wordBits);
      skipCount := if firstTime then 0 else windowSize;
      found := true;
      ghost var s0 := skipCount;
      ShrZero(exp);
      ScaledZero(Shr(exp, s0));
      while Shr(exp, skipCount) % 2 == 0
        invariant s0 <= skipCount && Shr(exp, s0) == Scaled(Shr(exp, skipCount), skipCount - s0)
        decreases expLen - skipCount
      {
        if skipCount >= expLen {
          Beyond(exp, expLen, skipCount);
          ScaledNothing(skipCount - s0);
          return false, skipCount;
        }
        SkipZero(exp, s0, skipCount);
        skipCount := skipCount + 1;
      }
    }

    /** Moves to the next window. Nothing of the exponent is lost: what was ahead equals what remains from the
        new window on, and there is no window exactly when nothing was ahead. */
    method FindNextWindow()
      requires Shape() && !finished
      modifies this
      ensures Valid() && (finished <==> old(Ahead()) == 0)
      ensures !finished ==> windowBegin >= old(Position()) && Remaining() <= old(Ahead())
      ensures finished || Scaled(Remaining(), windowBegin) == Scaled(old(Ahead()), old(Position()))
    {
      hide Pow2, Shr, LowBits, Scaled, Joined;
      var found, skipCount := SkipZeros();
      ghost var ahead, position := Ahead(), Position();
      firstTime := false;
      if !found {
        finished := true;
        return;
      }
      exp := Shr(exp, skipCount);
      windowBegin := windowBegin + skipCount;
      expWindow := LowBits(exp, windowSize);
      ghost var v := exp;
      PowerShift(v, ahead, windowBegin - position, position);
      WindowParts(v, windowSize);
      if fastNegate && Shr(exp, windowSize) % 2 == 1 {
        negateNext := true;
        expWindow := Pow2(windowSize) - expWindow;
        exp := exp + Pow2(windowSize);
      } else {
        negateNext := false;
      }
      assert Remaining() == v;
    }
  }

  /** The window at the bottom of an odd number, taken as it is or rounded up. */
  lemma WindowParts(v: nat, w: nat)
    requires v % 2 == 1 && 1 <= w
    ensures LowBits(v, w) % 2 == 1 && 1 <= LowBits(v, w) < Pow2(w) && Pow2(w) % 2 == 0
    ensures Joined(LowBits(v, w), w, Shr(v, w)) == v && Shr(v, w) < v
    ensures Shr(v, w) % 2 == 1 ==> Joined(LowBits(v, w) - Pow2(w), w, Shr(v + Pow2(w), w)) == v
    ensures Shr(v, w) % 2 == 1 ==> Shr(v + Pow2(w), w) < v
  {
    hide Pow2, Shr, LowBits, Joined;
    SplitJoined(v, w);
    OddLowBits(v, w);
    ShrPlus(v, w);
    PowerEven(w);
    AboveSmaller(v, w, Shr(v, w), LowBits(v, w));
  }

  lemma SplitJoined(v: nat, w: nat)
    ensures v == Joined(LowBits(v, w), w, Shr(v, w)) && LowBits(v, w) < Pow2(w)
  {
    SplitBits(v, w);
  }

  lemma ShrZero(e: nat)
    ensures Shr(e, 0) == e
  {
  }

  lemma ScaledNothing(p: nat)
    ensures Scaled(0, p) == 0
  {
  }

  lemma ScaledZero(v: int)
    ensures Scaled(v, 0) == v
  {
    assert Pow2(0) == 1;
  }

  lemma PowerEven(w: nat)
    requires w >= 1
    ensures Pow2(w) % 2 == 0 && Pow2(w) >= 2
  {
  }

  lemma Beyond(e: nat, n: nat, k: nat)
    requires e < Pow2(n) && n <= k
    ensures Shr(e, k) == 0
  {
    Pow2Monotone(n, k);
    ShrBound(e, k, k);
    assert Pow2(0) == 1;
  }

  lemma SkipZero(e: nat, s: nat, k: nat)
    requires s <= k && Shr(e, s) == Scaled(Shr(e, k), k - s) && Shr(e, k) % 2 == 0
    ensures Shr(e, s) == Scaled(Shr(e, k + 1), k + 1 - s)
  {
    ShrNext(e, k);
    DoubleProduct(Pow2(k - s), Shr(e, k + 1));
    hide Shr;
  }

  lemma PowerShift(v: nat, r: nat, d: nat, p: nat)
    requires r == Scaled(v, d)
    ensures Scaled(v, p + d) == Scaled(r, p) && v <= r && (v > 0 ==> r > 0)
  {
    Pow2Add(p, d);
    var a, b := Pow2(p), Pow2(d);
    hide Pow2;
    assert v * (a * b) == (b * v) * a;
    assert b >= 1 ==> b * v >= v;
  }

  /** The part above a window is smaller than the whole, even after rounding up. */
  lemma AboveSmaller(e: nat, w: nat, above: nat, low: nat)
    requires e == Joined(low, w, above) && low >= 1 && w >= 1
    ensures above < e && (above >= 1 ==> above + 1 < e)
    ensures Joined(low - Pow2(w), w, above + 1) == e
  {
    PowerEven(w);
    var p := Pow2(w);
    hide Pow2;
    assert p * above >= 2 * above;
    assert p * (above + 1) == p * above + p;
  }

  // ---------------------------------------------------------------- buckets

  /** The sum of (2 k + 1) b[k]. */
  ghost function WeightedSum<T(!new)>(g: Group<T>, b: seq<T>): T {
    if b == [] then g.zero else g.add(WeightedSum(g, b[..|b| - 1]), Times(g, 2 * (|b| - 1) + 1, b[|b| - 1]))
  }

  /** Adding x to bucket k adds (2 k + 1) x. */
  lemma {:induction false} BucketAdd<T(!new)>(g: Group<T>, b: seq<T>, k: nat, x: T)
    requires Laws(g) && k < |b|
    ensures WeightedSum(g, b[k := g.add(b[k], x)]) == g.add(WeightedSum(g, b), Times(g, 2 * k + 1, x))
  {
    hide Laws, Times;
    var n := |b| - 1;
    var b' := b[k := g.add(b[k], x)];
    var s, t := WeightedSum(g, b[..n]), Times(g, 2 * n + 1, b[n]);
    if k == n {
      assert b'[..n] == b[..n];
      OfSum(g, 2 * n + 1, b[n], x);
      Assoc(g, s, t, Times(g, 2 * n + 1, x));
    } else {
      BucketAdd(g, b[..n], k, x);
      assert b'[..n] == b[..n][k := g.add(b[k], x)];
      var u := Times(g, 2 * k + 1, x);
      Assoc(g, s, u, t);
      Comm(g, u, t);
      Assoc(g, s, t, u);
    }
  }

  lemma {:induction false} EmptyBuckets<T(!new)>(g: Group<T>, b: seq<T>)
    requires Laws(g) && forall k :: 0 <= k < |b| ==> b[k] == g.zero
    ensures WeightedSum(g, b) == g.zero
  {
    hide Laws, Times;
    if b != [] {
      EmptyBuckets(g, b[..|b| - 1]);
      OfZero(g, 2 * (|b| - 1) + 1);
      Zero(g, g.zero);
    }
  }

  /** One exponent: what its buckets hold and what it has still to deliver add up to the exponent times the
      base. */
  ghost predicate Lane<T(!new)>(g: Group<T>, s: WindowSlider, b: seq<T>, base: T, e: nat)
    reads s
  {
    && s.Valid() && |b| == Pow2(s.windowSize - 1)
    && g.add(WeightedSum(g, b), Times(g, Scaled(s.Remaining(), s.windowBegin), base)) == Times(g, e, base)
  }

  lemma WindowBucket(v: nat, w: nat)
    requires v % 2 == 1 && v < Pow2(w) && w >= 1
    ensures v / 2 < Pow2(w - 1) && 2 * (v / 2) + 1 == v
  {
  }

  /** A digit moves from the exponent into its bucket. */
  lemma DigitMoves<T(!new)>(g: Group<T>, sum: T, d: int, w: nat, above: nat, p: nat, base: T, x: T, v: nat, e: nat)
    requires x == Times(g, Pow2(p), base) && (d == v || d + v == 0)
    requires g.add(sum, Times(g, Scaled(Joined(d, w, above), p), base)) == Times(g, e, base)
    requires Laws(g)
    ensures g.add(g.add(sum, Times(g, v, if d == v then x else g.neg(x))), Times(g, Scaled(above, p + w), base))
         == Times(g, e, base)
  {
    hide Laws, Times, Pow2;
    ScaledJoined(d, w, above, p);
    var a, b := Times(g, Scaled(d, p), base), Times(g, Scaled(above, p + w), base);
    Plus(g, Scaled(d, p), Scaled(above, p + w), base);
    DigitTimes(g, d, p, base, x, v);
    Assoc(g, sum, a, b);
  }

  lemma ScaledJoined(d: int, w: nat, above: nat, p: nat)
    ensures Scaled(Joined(d, w, above), p) == Scaled(d, p) + Scaled(above, p + w)
  {
    Pow2Add(p, w);
    var a, b := Pow2(p), Pow2(w);
    hide Pow2;
    assert (d + b * above) * a == d * a + above * (a * b);
  }

  lemma DigitTimes<T(!new)>(g: Group<T>, d: int, p: nat, base: T, x: T, v: nat)
    requires x == Times(g, Pow2(p), base) && (d == v || d + v == 0)
    requires Laws(g)
    ensures Times(g, Scaled(d, p), base) == Times(g, v, if d == v then x else g.neg(x))
  {
    hide Laws, Times, Pow2;
    OfMultiple(g, d, Pow2(p), base);
    if d != v {
      One(g, x);
      OfMultiple(g, v, -1, x);
    }
  }

  // ---------------------------------------------------------------- the multiplication

  /** Takes the digit that is due into its bucket and looks for the next one. */
  method Consume<T(!new)>(g: Group<T>, s: WindowSlider, bucket: array<T>, x: T, ghost pos: nat, ghost base: T,
      ghost e: nat)
    requires Lane(g, s, bucket[..], base, e) && !s.finished && s.windowBegin == pos && x == Times(g, Pow2(pos), base)
    requires Laws(g)
    modifies s, bucket
    ensures Lane(g, s, bucket[..], base, e) && (s.finished || s.windowBegin > pos)
    ensures 0 <= s.Remaining() < old(s.Remaining())
  {
    hide Laws, Times, Pow2, Shr, Scaled, Joined, WeightedSum;
    var k := s.expWindow / 2;
    ghost var b, v, d, w, above := bucket[..], s.expWindow, s.Digit(), s.windowSize, s.Above();
    WindowBucket(s.expWindow, s.windowSize);
    BucketAdd(g, b, k, if s.negateNext then g.neg(x) else x);
    DigitMoves(g, WeightedSum(g, b), d, w, above, pos, base, x, v, e);
    ScaledNothing(pos + w);
    ScaledNothing(s.windowBegin);
    if s.negateNext {
      bucket[k] := g.add(bucket[k], g.neg(x));
    } else {
      bucket[k] := g.add(bucket[k], x);
    }
    assert bucket[..] == b[k := bucket[k]];
    s.FindNextWindow();
    ScaledNothing(s.windowBegin);
  }

  /** A slider at its first window and its empty buckets. */
  method StartLane<T(!new)>(g: Group<T>, e: nat, inversionIsFast: bool, wordBits: nat, ghost base: T)
    returns (s: WindowSlider, bucket: array<T>)
    requires wordBits >= 1
    requires Laws(g)
    ensures fresh(s) && fresh(bucket) && Lane(g, s, bucket[..], base, e) && s.Remaining() >= 0
  {
    hide Laws, Times, Pow2, Shr, Scaled, Joined, WeightedSum;
    s := new WindowSlider(e, inversionIsFast, wordBits);
    s.FindNextWindow();
    ScaledZero(e);
    ScaledNothing(s.windowBegin);
    bucket := new T[Pow2(s.windowSize - 1)](_ => g.zero);
    EmptyBuckets(g, bucket[..]);
    Zero(g, Times(g, e, base));
  }

  /** Adds up the buckets with their weights, by suffix sums. */
  method Collapse<T(!new)>(g: Group<T>, bucket: array<T>) returns (r: T)
    requires bucket.Length >= 1
    requires Laws(g)
    modifies bucket
    ensures r == WeightedSum(g, old(bucket[..]))
  {
    hide Laws, Times, WeightedSum;
    ghost var b := bucket[..];
    var n := bucket.Length;
    r := bucket[n - 1];
    SuffixStart(g, b);
    if n > 1 {
      var j := n - 2;
      while j >= 1
        invariant 0 <= j <= n - 2
        invariant r == SuffixWeights(g, b, j + 1) && bucket[j + 1] == Suffix(g, b, j + 1)
        invariant forall k :: 0 <= k <= j ==> bucket[k] == b[k]
      {
        SuffixStep(g, b, j);
        bucket[j] := g.add(bucket[j], bucket[j + 1]);
        r := g.add(r, bucket[j]);
        j := j - 1;
      }
      SuffixStep(g, b, 0);
      bucket[0] := g.add(bucket[0], bucket[1]);
      r := g.add(g.add(r, r), bucket[0]);
      SuffixesAddUp(g, b);
    } else {
      SingleBucket(g, b);
    }
  }

  /** b[j] + b[j + 1] + ... */
  ghost function Suffix<T(!new)>(g: Group<T>, b: seq<T>, j: nat): T
    requires j < |b|
    decreases |b| - j
  {
    if j == |b| - 1 then b[j] else g.add(b[j], Suffix(g, b, j + 1))
  }

  /** The sum of all suffixes from j on. */
  ghost function SuffixWeights<T(!new)>(g: Group<T>, b: seq<T>, j: nat): T
    requires j < |b|
    decreases |b| - j
  {
    if j == |b| - 1 then b[j] else g.add(SuffixWeights(g, b, j + 1), Suffix(g, b, j))
  }

  lemma SuffixStart<T(!new)>(g: Group<T>, b: seq<T>)
    requires |b| >= 1
    ensures Suffix(g, b, |b| - 1) == SuffixWeights(g, b, |b| - 1) == b[|b| - 1]
  {
  }

  lemma SuffixStep<T(!new)>(g: Group<T>, b: seq<T>, j: nat)
    requires j + 1 < |b|
    ensures Suffix(g, b, j) == g.add(b[j], Suffix(g, b, j + 1))
    ensures SuffixWeights(g, b, j) == g.add(SuffixWeights(g, b, j + 1), Suffix(g, b, j))
  {
  }

  lemma SingleBucket<T(!new)>(g: Group<T>, b: seq<T>)
    requires |b| == 1
    requires Laws(g)
    ensures WeightedSum(g, b) == b[0]
  {
    hide Laws;
    assert b[..0] == [];
    One(g, b[0]);
    Zero(g, b[0]);
  }

  lemma {:induction false} SuffixPush<T(!new)>(g: Group<T>, b: seq<T>, x: T, j: nat)
    requires j < |b|
    requires Laws(g)
    ensures Suffix(g, b + [x], j) == g.add(Suffix(g, b, j), x)
    ensures SuffixWeights(g, b + [x], j) == g.add(SuffixWeights(g, b, j), Times(g, |b| + 1 - j, x))
    decreases |b| - j
  {
    hide Laws, Times;
    var b', n := b + [x], |b|;
    assert Suffix(g, b', n) == x && SuffixWeights(g, b', n) == x;
    if j == n - 1 {
      One(g, x);
      Assoc(g, b[j], x, x);
      Comm(g, x, g.add(b[j], x));
    } else {
      SuffixPush(g, b, x, j + 1);
      Assoc(g, b[j], Suffix(g, b, j + 1), x);
      Exchange(g, SuffixWeights(g, b, j + 1), Times(g, n - j, x), Suffix(g, b, j), x);
      Next(g, n - j, x);
    }
  }

  /** Twice the suffix sums from 1 on, plus the whole sum, weigh bucket k with 2 k + 1. */
  lemma {:induction false} SuffixesAddUp<T(!new)>(g: Group<T>, b: seq<T>)
    requires |b| >= 2
    requires Laws(g)
    ensures g.add(g.add(SuffixWeights(g, b, 1), SuffixWeights(g, b, 1)), Suffix(g, b, 0)) == WeightedSum(g, b)
  {
    hide Laws, Times;
    var c, x := b[..|b| - 1], b[|b| - 1];
    assert b == c + [x];
    if |c| == 1 {
      SingleBucket(g, c);
      One(g, x);
      Next(g, 2, x);
      assert Suffix(g, b, 1) == x;
      Comm(g, g.add(x, x), g.add(c[0], x));
      Assoc(g, c[0], x, g.add(x, x));
      Comm(g, x, g.add(x, x));
    } else {
      SuffixesAddUp(g, c);
      SuffixPush(g, c, x, 0);
      SuffixPush(g, c, x, 1);
      var s, t, m := SuffixWeights(g, c, 1), Suffix(g, c, 0), Times(g, |c|, x);
      hide Suffix, SuffixWeights;
      Exchange(g, s, m, s, m);
      Exchange(g, g.add(s, s), g.add(m, m), t, x);
      Doubled(g, |c|, x);
      Next(g, 2 * |c|, x);
    }
  }

  // ---------------------------------------------------------------- all exponents together

  ghost predicate Distinct<T(!new)>(ss: seq<WindowSlider>, bs: seq<array<T>>) {
    && |ss| == |bs|
    && (forall i, j :: 0 <= i < j < |ss| ==> ss[i] != ss[j] && bs[i] != bs[j])
  }

  ghost predicate Lanes<T(!new)>(g: Group<T>, ss: seq<WindowSlider>, bs: seq<array<T>>, base: T, exps: seq<nat>)
    reads ss, bs
  {
    && |ss| == |bs| == |exps|
    && forall i :: 0 <= i < |ss| ==> Lane(g, ss[i], bs[i][..], base, exps[i])
  }

  /** What each exponent has still to deliver. */
  ghost predicate Amounts(ss: seq<WindowSlider>, rem: seq<nat>)
    reads ss
  {
    |rem| == |ss| && forall i :: 0 <= i < |ss| ==> rem[i] == ss[i].Remaining()
  }

  ghost predicate Due(s: WindowSlider, pos: nat)
    reads s
  {
    s.finished || pos <= s.windowBegin
  }

  /** Exponent i in a round. */
  method Turn<T(!new)>(g: Group<T>, ss: seq<WindowSlider>, bs: seq<array<T>>, i: nat, x: T, pos: nat, ghost base: T,
      ghost exps: seq<nat>, ghost rem: seq<nat>)
    returns (ghost rem': seq<nat>, ghost moved: bool)
    requires Distinct(ss, bs) && Lanes(g, ss, bs, base, exps) && Amounts(ss, rem) && x == Times(g, Pow2(pos), base)
    requires i < |ss| && Due(ss[i], pos)
    requires Laws(g)
    modifies ss[i], bs[i]
    ensures Lanes(g, ss, bs, base, exps) && Amounts(ss, rem') && Due(ss[i], pos + 1)
    ensures moved ==> Sum(rem') < Sum(rem)
    ensures !moved ==> rem' == rem && ss[i].finished == old(ss[i].finished)
    ensures !moved ==> ss[i].windowBegin == old(ss[i].windowBegin)
  {
    hide Laws, Times, Pow2, Lane, Sum, WindowSlider.Remaining, WindowSlider.Valid;
    rem', moved := rem, false;
    if !ss[i].finished && pos == ss[i].windowBegin {
      Consume(g, ss[i], bs[i], x, pos, base, exps[i]);
      SumUpdate(rem, i, ss[i].Remaining());
      rem', moved := rem[i := ss[i].Remaining()], true;
    }
  }

  /** One round: every exponent whose window starts here delivers its digit. */
  method Round<T(!new)>(g: Group<T>, ss: seq<WindowSlider>, bs: seq<array<T>>, x: T, pos: nat, ghost base: T,
      ghost exps: seq<nat>, ghost rem: seq<nat>)
    returns (notDone: bool, ghost rem': seq<nat>, ghost moved: bool)
    requires Distinct(ss, bs) && Lanes(g, ss, bs, base, exps) && Amounts(ss, rem) && x == Times(g, Pow2(pos), base)
    requires forall i :: 0 <= i < |ss| ==> Due(ss[i], pos)
    requires Laws(g)
    modifies ss, bs
    ensures Lanes(g, ss, bs, base, exps) && Amounts(ss, rem')
    ensures forall i :: 0 <= i < |ss| ==> Due(ss[i], pos + 1)
    ensures notDone <==> exists i :: 0 <= i < |ss| && !ss[i].finished
    ensures moved ==> Sum(rem') < Sum(rem)
    ensures !moved ==> rem' == rem && forall i :: 0 <= i < |ss| ==>
      ss[i].finished == old(ss[i].finished) && ss[i].windowBegin == old(ss[i].windowBegin)
  {
    hide Laws, Times, Pow2, Lane, Lanes, Amounts, Sum, WindowSlider.Remaining, WindowSlider.Valid;
    notDone, rem', moved := false, rem, false;
    var i := 0;
    while i < |ss|
      invariant 0 <= i <= |ss| && Lanes(g, ss, bs, base, exps) && Amounts(ss, rem')
      invariant forall k :: 0 <= k < i ==> Due(ss[k], pos + 1)
      invariant forall k :: i <= k < |ss| ==> Due(ss[k], pos)
      invariant notDone <==> exists k :: 0 <= k < i && !ss[k].finished
      invariant moved ==> Sum(rem') < Sum(rem)
      invariant !moved ==> rem' == rem && forall k :: 0 <= k < |ss| ==>
        ss[k].finished == old(ss[k].finished) && ss[k].windowBegin == old(ss[k].windowBegin)
    {
      ghost var m;
      rem', m := Turn(g, ss, bs, i, x, pos, base, exps, rem');
      moved := moved || m;
      notDone := notDone || !ss[i].finished;
      i := i + 1;
    }
  }

  /** Sets up all exponents. */
  method StartLanes<T(!new)>(g: Group<T>, exps: seq<nat>, inversionIsFast: bool, wordBits: nat, ghost base: T)
    returns (ss: seq<WindowSlider>, bs: seq<array<T>>, ghost rem: seq<nat>)
    requires wordBits >= 1
    requires Laws(g)
    ensures Distinct(ss, bs) && Lanes(g, ss, bs, base, exps) && Amounts(ss, rem)
    ensures forall i :: 0 <= i < |ss| ==> fresh(ss[i]) && fresh(bs[i])
  {
    hide Laws, Lane, WindowSlider.Remaining;
    ss, bs, rem := [], [], [];
    var i := 0;
    while i < |exps|
      invariant 0 <= i <= |exps| && |ss| == i && Distinct(ss, bs) && Lanes(g, ss, bs, base, exps[..i])
      invariant Amounts(ss, rem)
      invariant forall k :: 0 <= k < |ss| ==> fresh(ss[k]) && fresh(bs[k])
    {
      var s, b := StartLane(g, exps[i], inversionIsFast, wordBits, base);
      ss, bs, rem := ss + [s], bs + [b], rem + [s.Remaining()];
      i := i + 1;
    }
    assert exps[..i] == exps;
  }

  /** A position at or above every window that has been found. */
  ghost predicate LastWindow(ss: seq<WindowSlider>, last: nat)
    reads ss
  {
    forall i :: 0 <= i < |ss| && !ss[i].finished ==> ss[i].windowBegin <= last
  }

  lemma {:induction false} FindLast(ss: seq<WindowSlider>) returns (last: nat)
    ensures LastWindow(ss, last)
  {
    last := 0;
    if ss != [] {
      last := FindLast(ss[1..]);
      if ss[0].windowBegin > last {
        last := ss[0].windowBegin;
      }
      forall i | 0 <= i < |ss| && !ss[i].finished ensures ss[i].windowBegin <= last {
        assert i > 0 ==> ss[i] == ss[1..][i - 1];
      }
    }
  }

  /** Nothing left to deliver: the buckets hold the whole multiple. */
  lemma FinishedLane<T(!new)>(g: Group<T>, s: WindowSlider, b: seq<T>, base: T, e: nat)
    requires Lane(g, s, b, base, e) && s.finished
    requires Laws(g)
    ensures WeightedSum(g, b) == Times(g, e, base) && |b| >= 1
  {
    hide Laws, Times, WeightedSum, Pow2;
    ScaledNothing(s.windowBegin);
    Nothing(g, base);
    Zero(g, WeightedSum(g, b));
    assert Pow2(s.windowSize - 1) > 0;
  }

  lemma Nothing<T(!new)>(g: Group<T>, base: T)
    ensures Times(g, 0, base) == g.zero
  {
  }

  /** The common doubling of the base, with every exponent taking its digits on the way. */
  method Deliver<T(!new)>(g: Group<T>, ss: seq<WindowSlider>, bs: seq<array<T>>, base: T, ghost exps: seq<nat>,
      ghost rem0: seq<nat>)
    requires Distinct(ss, bs) && Lanes(g, ss, bs, base, exps) && Amounts(ss, rem0)
    requires Laws(g)
    modifies ss, bs
    ensures Lanes(g, ss, bs, base, exps) && forall i :: 0 <= i < |ss| ==> ss[i].finished
  {
    hide Laws, Times, Pow2, Lane, Sum, WindowSlider.Remaining, WindowSlider.Valid, Distinct, Amounts, Lanes;
    var expBitPosition: nat := 0;
    var x := base;
    var notDone := true;
    ghost var rem := rem0;
    ghost var last: nat := FindLast(ss);
    FirstPower(g, base);
    while notDone
      invariant Lanes(g, ss, bs, base, exps) && Amounts(ss, rem) && x == Times(g, Pow2(expBitPosition), base)
      invariant forall i :: 0 <= i < |ss| ==> Due(ss[i], expBitPosition)
      invariant LastWindow(ss, last) && (notDone ==> expBitPosition <= last + 1)
      invariant !notDone ==> forall i :: 0 <= i < |ss| ==> ss[i].finished
      decreases notDone, Sum(rem), if notDone then last + 1 - expBitPosition else 0
    {
      ghost var moved;
      notDone, rem, moved := Round(g, ss, bs, x, expBitPosition, base, exps, rem);
      if moved {
        last := FindLast(ss);
      }
      if notDone {
        DoublePower(g, expBitPosition, base);
        x := g.add(x, x);
        expBitPosition := expBitPosition + 1;
      }
    }
  }

  lemma FirstPower<T(!new)>(g: Group<T>, base: T)
    requires Laws(g)
    ensures Times(g, Pow2(0), base) == base
  {
    hide Laws;
    One(g, base);
    assert Pow2(0) == 1;
  }

  lemma DoublePower<T(!new)>(g: Group<T>, p: nat, base: T)
    requires Laws(g)
    ensures g.add(Times(g, Pow2(p), base), Times(g, Pow2(p), base)) == Times(g, Pow2(p + 1), base)
  {
    hide Laws, Times;
    Doubled(g, Pow2(p), base);
  }

  /** AbstractGroup::SimultaneousMultiply: in every commutative group, and whether or not inversion is fast,
      each result is its exponent times the base. */
  method SimultaneousMultiply<T(!new)>(g: Group<T>, results: array<T>, base: T, exps: seq<nat>, inversionIsFast: bool,
      wordBits: nat)
    requires wordBits >= 1 && results.Length >= |exps|
    requires Laws(g)
    modifies results
    ensures forall i :: 0 <= i < |exps| ==> results[i] == Times(g, exps[i], base)
    ensures forall i :: |exps| <= i < results.Length ==> results[i] == old(results[i])
  {
    hide Laws, Times, Lane, WeightedSum, WindowSlider.Remaining, WindowSlider.Valid, Amounts;
    var ss, bs;
    ghost var rem;
    ss, bs, rem := StartLanes(g, exps, inversionIsFast, wordBits, base);
    Deliver(g, ss, bs, base, exps, rem);
    var i := 0;
    while i < |exps|
      invariant 0 <= i <= |exps| && Distinct(ss, bs) && |ss| == |exps|
      invariant forall k :: i <= k < |exps| ==> Lane(g, ss[k], bs[k][..], base, exps[k]) && ss[k].finished
      invariant forall k :: 0 <= k < i ==> results[k] == Times(g, exps[k], base)
      invariant forall k :: |exps| <= k < results.Length ==> results[k] == old(results[k])
    {
      FinishedLane(g, ss[i], bs[i][..], base, exps[i]);
      var r := Collapse(g, bs[i]);
      results[i] := r;
      i := i + 1;
    }
  }

  /** AbstractGroup::ScalarMultiply */
  method ScalarMultiply<T(!new)>(g: Group<T>, base: T, exponent: nat, inversionIsFast: bool, wordBits: nat)
    returns (r: T)
    requires wordBits >= 1
    requires Laws(g)
    ensures r == Times(g, exponent, base)
  {
    var result := new T[1](_ => g.zero);
    SimultaneousMultiply(g, result, base, [exponent], inversionIsFast, wordBits);
    hide Laws, Times;
    r := result[0];
  }
}
