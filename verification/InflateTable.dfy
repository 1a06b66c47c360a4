/** The decoder's Huffman table: a 10-bit lookup whose negative entries lead into a binary tree packed
    into an array of children. The table is described by a map from bit strings (at least 10 long) to the
    entry found after reading them: a node number if negative, otherwise a symbol. */
module InflateTable {
  import opened Collections
  import opened Sums
  import opened Bits
  import opened CanonicalCode

  const FAST_LOOKUP_BITS := 10
  const FAST_LOOKUP_SIZE := 1024
  const TREE_SIZE := 576

  type Entries = map<seq<bool>, int>

  function Parent(p: seq<bool>): seq<bool>
    requires |p| > 0
  {
    p[..|p| - 1]
  }

  /** Every entry is reached through nodes, and nodes have distinct odd numbers above `next`. */
  ghost predicate WellNumbered(c: Entries, next: int) {
    && next < 0 && next % 2 == 1
    && (forall p :: p in c ==> |p| >= FAST_LOOKUP_BITS)
    && (forall p :: p in c && |p| > FAST_LOOKUP_BITS ==> Parent(p) in c && c[Parent(p)] < 0)
    && (forall p :: p in c && c[p] < 0 ==> next < c[p] && c[p] % 2 == 1)
    && (forall p, q :: p in c && q in c && c[p] == c[q] && c[p] < 0 ==> p == q)
  }

  /** Where the tree array keeps the entry reached from node `v` by bit `b`. */
  function Slot(v: int, b: bool): int {
    -v - 1 + B(b)
  }

  ghost predicate Stored(c: Entries, next: int, lu: seq<int>, tr: seq<int>) {
    && WellNumbered(c, next) && |lu| == FAST_LOOKUP_SIZE && |tr| == TREE_SIZE && -next - 1 <= TREE_SIZE
    && (forall p: seq<bool> {:trigger Val(p)} :: |p| == FAST_LOOKUP_BITS ==>
          Val(p) < |lu| && lu[Val(p)] == if p in c then c[p] else 0)
    && (forall p, b {:trigger Slot(c[p], b)} :: p in c && c[p] < 0 ==>
          0 <= Slot(c[p], b) < |tr| && tr[Slot(c[p], b)] == if p + [b] in c then c[p + [b]] else 0)
    && (forall e :: -next - 1 <= e < |tr| ==> tr[e] == 0)
  }

  lemma LastBit(p: seq<bool>)
    requires |p| > 0
    ensures Parent(p) + [p[|p| - 1]] == p
  {
  }

  lemma SlotInjective(v: int, a: bool, w: int, b: bool)
    requires v % 2 == 1 && w % 2 == 1 && Slot(v, a) == Slot(w, b)
    ensures v == w && a == b
  {
  }

  /** A new entry in the lookup table. */
  lemma PutLookUp(c: Entries, next: int, lu: seq<int>, tr: seq<int>, p: seq<bool>)
    requires Stored(c, next, lu, tr) && |p| == FAST_LOOKUP_BITS && p !in c && -next + 1 <= TREE_SIZE
    ensures Val(p) < |lu| && lu[Val(p)] == 0
    ensures Stored(c[p := next], next - 2, lu[Val(p) := next], tr)
  {
    hide WellNumbered, Slot;
    NumberedKeys(c, next);
    var c', lu' := c[p := next], lu[Val(p) := next];
    NewNode(c, next, p);
    FreshSlots(next);
    forall q: seq<bool> | |q| == FAST_LOOKUP_BITS
      ensures Val(q) < |lu'| && lu'[Val(q)] == if q in c' then c'[q] else 0
    {
      if Val(q) == Val(p) {
        ValInjective(p, q);
      }
    }
    forall q, b {:trigger Slot(c'[q], b)} | q in c' && c'[q] < 0
      ensures 0 <= Slot(c'[q], b) < |tr| && tr[Slot(c'[q], b)] == if q + [b] in c' then c'[q + [b]] else 0
    {
      assert |q + [b]| > |p|;
      if q == p {
        NoOrphans(c, next, p, b);
      } else {
        SlotRange(c, next, q, b);
        assert tr[Slot(c[q], b)] == if q + [b] in c then c[q + [b]] else 0;
      }
    }
  }

  lemma NumberedKeys(c: Entries, next: int)
    requires WellNumbered(c, next)
    ensures next < 0 && forall p :: p in c ==> |p| >= FAST_LOOKUP_BITS
  {
  }

  lemma NewNode(c: Entries, next: int, p: seq<bool>)
    requires WellNumbered(c, next) && p !in c && |p| >= FAST_LOOKUP_BITS
    requires |p| > FAST_LOOKUP_BITS ==> Parent(p) in c && c[Parent(p)] < 0
    ensures WellNumbered(c[p := next], next - 2)
  {
  }

  lemma NewSymbol(c: Entries, next: int, p: seq<bool>, v: nat)
    requires WellNumbered(c, next) && p !in c && |p| > FAST_LOOKUP_BITS && Parent(p) in c && c[Parent(p)] < 0
    ensures WellNumbered(c[p := v], next)
  {
  }

  lemma ChildEntry(c: Entries, next: int, tr: seq<int>, p: seq<bool>, v: int, s: int, q: seq<bool>, b: bool)
    requires WellNumbered(c, next) && |p| > FAST_LOOKUP_BITS && p !in c && Parent(p) in c && c[Parent(p)] < 0
    requires q in c && c[q] < 0 && |tr| == TREE_SIZE && -next - 1 <= TREE_SIZE && s == Slot(c[Parent(p)], p[|p| - 1])
    requires 0 <= Slot(c[q], b) < |tr| && tr[Slot(c[q], b)] == if q + [b] in c then c[q + [b]] else 0
    ensures 0 <= s < |tr|
    ensures tr[s := v][Slot(c[q], b)] == if q + [b] in c[p := v] then c[p := v][q + [b]] else 0
  {
    LastBit(p);
    assert Parent(q + [b]) == q && (q + [b])[|q|] == b;
    if Slot(c[q], b) == s {
      SlotInjective(c[q], b, c[Parent(p)], p[|p| - 1]);
      assert q + [b] == p;
    }
  }

  lemma SlotRange(c: Entries, next: int, q: seq<bool>, b: bool)
    requires WellNumbered(c, next) && q in c && c[q] < 0
    ensures 0 <= Slot(c[q], b) < -next - 1
  {
  }

  lemma NoOrphans(c: Entries, next: int, p: seq<bool>, b: bool)
    requires WellNumbered(c, next) && p !in c && |p| >= FAST_LOOKUP_BITS
    ensures p + [b] !in c
  {
    assert Parent(p + [b]) == p;
  }

  /** A new entry below node Parent(p): another node, or a symbol. */
  lemma PutTree(c: Entries, next: int, lu: seq<int>, tr: seq<int>, p: seq<bool>, v: int, next': int)
    requires Stored(c, next, lu, tr) && |p| > FAST_LOOKUP_BITS && p !in c && Parent(p) in c && c[Parent(p)] < 0
    requires (v >= 0 && next' == next) || (v == next && next' == next - 2 && -next + 1 <= TREE_SIZE)
    ensures var s := Slot(c[Parent(p)], p[|p| - 1]); 0 <= s < |tr| && tr[s] == 0
    ensures Stored(c[p := v], next', lu, tr[Slot(c[Parent(p)], p[|p| - 1]) := v])
  {
    hide WellNumbered, Slot;
    var c', u, s := c[p := v], Parent(p), Slot(c[Parent(p)], p[|p| - 1]);
    LastBit(p);
    SlotRange(c, next, u, p[|p| - 1]);
    if v >= 0 {
      NewSymbol(c, next, p, v);
    } else {
      NewNode(c, next, p);
      FreshSlots(next);
    }
    var tr' := tr[s := v];
    forall q, b {:trigger Slot(c'[q], b)} | q in c' && c'[q] < 0
      ensures 0 <= Slot(c'[q], b) < |tr'| && tr'[Slot(c'[q], b)] == if q + [b] in c' then c'[q + [b]] else 0
    {
      if q == p {
        NoOrphans(c, next, p, b);
        assert p + [b] != p;
      } else {
        SlotRange(c, next, q, b);
        assert tr[Slot(c[q], b)] == if q + [b] in c then c[q + [b]] else 0;
        ChildEntry(c, next, tr, p, v, s, q, b);
      }
    }
    assert Stored(c', next', lu, tr');
  }

  lemma FreshSlots(next: int)
    requires next < 0
    ensures forall b :: -next - 1 <= Slot(next, b) <= -next
  {
  }

  // ---------------------------------------------------------------- short codes

  ghost function Strings(): set<seq<bool>> {
    set x: nat | 0 <= x < FAST_LOOKUP_SIZE :: Bin(x, FAST_LOOKUP_BITS)
  }

  lemma AllStrings(p: seq<bool>)
    requires |p| == FAST_LOOKUP_BITS
    ensures p in Strings() && Val(p) < FAST_LOOKUP_SIZE
  {
    ValBound(p);
    TableSize();
    BinVal(p, FAST_LOOKUP_BITS);
  }

  lemma TableSize()
    ensures Pow2(FAST_LOOKUP_BITS) == FAST_LOOKUP_SIZE && Pow2(9) == 512
  {
    assert Pow2(5) == 32;
  }

  /** All lookups that start with code `w` answer `v`. */
  ghost function Cover(c: Entries, w: seq<bool>, v: int): Entries {
    c + map p | p in Strings() && w <= p :: v
  }

  lemma StartsWith(p: seq<bool>, w: seq<bool>)
    requires |w| <= |p|
    ensures w <= p <==> Val(p) % Pow2(|w|) == Val(w)
  {
    ValSplit(p, |w|);
    if Val(p[..|w|]) == Val(w) {
      ValInjective(p[..|w|], w);
    }
  }

  lemma CoverSpec(c: Entries, w: seq<bool>, v: int)
    requires |w| <= FAST_LOOKUP_BITS && forall p :: |p| == FAST_LOOKUP_BITS && w <= p ==> p !in c
    ensures forall p :: |p| == FAST_LOOKUP_BITS && w <= p ==> p in Cover(c, w, v) && Cover(c, w, v)[p] == v
    ensures forall p :: p in c ==> p in Cover(c, w, v) && Cover(c, w, v)[p] == c[p]
    ensures forall p :: p in Cover(c, w, v) && p !in c ==> |p| == FAST_LOOKUP_BITS && w <= p && Cover(c, w, v)[p] == v
  {
    forall p | |p| == FAST_LOOKUP_BITS && w <= p ensures p in Strings() {
      AllStrings(p);
    }
  }

  lemma NumberedMore(c: Entries, next: int, c': Entries)
    requires WellNumbered(c, next) && forall p :: p in c ==> p in c' && c'[p] == c[p]
    requires forall p :: p in c' && p !in c ==> |p| == FAST_LOOKUP_BITS && c'[p] >= 0
    ensures WellNumbered(c', next)
  {
  }

  /** The lookup table after all slots that start with `w` were set to v. */
  ghost predicate Filled(lu: seq<int>, lu': seq<int>, w: seq<bool>, v: int) {
    && |lu| == |lu'| == FAST_LOOKUP_SIZE
    && forall x :: 0 <= x < FAST_LOOKUP_SIZE ==> lu'[x] == if x % Pow2(|w|) == Val(w) then v else lu[x]
  }

  lemma FilledAt(lu: seq<int>, lu': seq<int>, w: seq<bool>, v: int, p: seq<bool>)
    requires Filled(lu, lu', w, v) && |p| == FAST_LOOKUP_BITS && |w| <= FAST_LOOKUP_BITS
    ensures |lu'| == |lu| == FAST_LOOKUP_SIZE && Val(p) < |lu'| && lu'[Val(p)] == if w <= p then v else lu[Val(p)]
  {
    AllStrings(p);
    StartsWith(p, w);
  }

  lemma ShortLookUps(c: Entries, next: int, lu: seq<int>, tr: seq<int>, w: seq<bool>, v: int, lu': seq<int>)
    requires Stored(c, next, lu, tr) && |w| <= FAST_LOOKUP_BITS && Filled(lu, lu', w, v)
    requires forall p :: |p| == FAST_LOOKUP_BITS && w <= p ==> p !in c
    ensures |lu'| == FAST_LOOKUP_SIZE
    ensures forall p: seq<bool> {:trigger Val(p)} :: |p| == FAST_LOOKUP_BITS ==>
      Val(p) < |lu'| && lu'[Val(p)] == if p in Cover(c, w, v) then Cover(c, w, v)[p] else 0
  {
    hide WellNumbered, Slot, Cover, Filled;
    CoverSpec(c, w, v);
    forall p: seq<bool> {:trigger Val(p)} | |p| == FAST_LOOKUP_BITS
      ensures Val(p) < |lu'| && lu'[Val(p)] == if p in Cover(c, w, v) then Cover(c, w, v)[p] else 0
    {
      FilledAt(lu, lu', w, v, p);
    }
    FilledAt(lu, lu', w, v, seq(FAST_LOOKUP_BITS, _ => false));
  }

  lemma PutShort(c: Entries, next: int, lu: seq<int>, tr: seq<int>, w: seq<bool>, v: int, lu': seq<int>)
    requires Stored(c, next, lu, tr) && |w| <= FAST_LOOKUP_BITS && v >= 0 && Filled(lu, lu', w, v)
    requires forall p :: |p| == FAST_LOOKUP_BITS && w <= p ==> p !in c
    ensures Stored(Cover(c, w, v), next, lu', tr)
  {
    hide WellNumbered, Slot, Cover, Filled, Val;
    var c' := Cover(c, w, v);
    CoverSpec(c, w, v);
    NumberedMore(c, next, c');
    ShortLookUps(c, next, lu, tr, w, v, lu');
    forall q, b {:trigger Slot(c'[q], b)} | q in c' && c'[q] < 0
      ensures 0 <= Slot(c'[q], b) < |tr| && tr[Slot(c'[q], b)] == if q + [b] in c' then c'[q + [b]] else 0
    {
      StoredSlot(c, next, lu, tr, q, b);
      LongKey(c, next, q);
    }
  }

  lemma LongKey(c: Entries, next: int, q: seq<bool>)
    requires WellNumbered(c, next) && q in c
    ensures |q| >= FAST_LOOKUP_BITS
  {
  }

  // ---------------------------------------------------------------- what the table says about a set of codes

  /** Symbol i can be decoded: its entries are in place. */
  ghost predicate HasSymbol(c: Entries, sz: seq<nat>, i: nat)
    requires i < |sz|
  {
    && (1 <= sz[i] <= FAST_LOOKUP_BITS ==>
          forall p :: |p| == FAST_LOOKUP_BITS && Word(sz, i) <= p ==> p in c && c[p] == 512 * sz[i] + i)
    && (sz[i] > FAST_LOOKUP_BITS ==>
          && Word(sz, i) in c && c[Word(sz, i)] == i
          && forall d :: FAST_LOOKUP_BITS <= d < sz[i] ==> Word(sz, i)[..d] in c && c[Word(sz, i)[..d]] < 0)
  }

  /** Entry (p, v) is there because of symbol i. */
  ghost predicate Owes(sz: seq<nat>, i: nat, p: seq<bool>, v: int)
    requires i < |sz|
  {
    || (1 <= sz[i] <= FAST_LOOKUP_BITS && |p| == FAST_LOOKUP_BITS && Word(sz, i) <= p && v >= 0)
    || (sz[i] > FAST_LOOKUP_BITS && p < Word(sz, i) && v < 0)
    || (sz[i] > FAST_LOOKUP_BITS && p == Word(sz, i) && v >= 0)
  }

  /** All entries come from the first k symbols. */
  ghost predicate OnlyFrom(c: Entries, sz: seq<nat>, k: nat)
    requires k <= |sz|
  {
    forall p :: p in c ==> exists i :: 0 <= i < k && Owes(sz, i, p, c[p])
  }

  /** The sizes the decoder accepts: all codes used up, or at most one symbol. */
  ghost predicate Accepted(sz: seq<nat>) {
    && Sizes(sz)
    && (First(sz, 16) == 0x10000
        || forall i, j :: 0 <= i < |sz| && 0 <= j < |sz| && sz[i] > 0 && sz[j] > 0 ==> i == j)
  }

  lemma AcceptedPrefixFree(sz: seq<nat>, i: nat, j: nat)
    requires Accepted(sz) && i < |sz| && j < |sz| && sz[i] > 0 && sz[j] > 0 && Word(sz, i) <= Word(sz, j)
    ensures i == j
  {
    if First(sz, 16) == 0x10000 {
      PrefixFree(sz, i, j);
    }
  }

  /** On the path of a symbol not yet in the table there are only nodes. */
  lemma PathIsNodes(c: Entries, sz: seq<nat>, k: nat, p: seq<bool>)
    requires Accepted(sz) && k < |sz| && sz[k] > 0 && OnlyFrom(c, sz, k)
    requires p in c && p <= Word(sz, k)
    ensures c[p] < 0 && p < Word(sz, k)
  {
    var i :| 0 <= i < k && Owes(sz, i, p, c[p]);
    if c[p] >= 0 {
      assert Word(sz, i) <= Word(sz, k);
      AcceptedPrefixFree(sz, i, k);
    } else if p == Word(sz, k) {
      assert Word(sz, k) <= Word(sz, i);
      AcceptedPrefixFree(sz, k, i);
    }
  }

  lemma NoShortClash(c: Entries, sz: seq<nat>, k: nat, p: seq<bool>)
    requires Accepted(sz) && k < |sz| && 1 <= sz[k] <= FAST_LOOKUP_BITS && OnlyFrom(c, sz, k)
    requires |p| == FAST_LOOKUP_BITS && Word(sz, k) <= p
    ensures p !in c
  {
    if p in c {
      var i :| 0 <= i < k && Owes(sz, i, p, c[p]);
      var w, u := Word(sz, k), Word(sz, i);
      if |w| <= |u| {
        assert w == p[..|w|] == u[..|w|];
        AcceptedPrefixFree(sz, k, i);
      } else {
        assert u == p[..|u|] == w[..|u|];
        AcceptedPrefixFree(sz, i, k);
      }
    }
  }

  // ---------------------------------------------------------------- the tree fits its array

  ghost function Range(d: nat, lo: nat, hi: nat): (s: set<seq<bool>>)
    ensures lo <= hi ==> |s| <= hi - lo
    ensures hi <= lo ==> s == {}
  {
    if hi <= lo then {} else Range(d, lo, hi - 1) + {Msb(hi - 1, d)}
  }

  lemma {:induction false} InRange(d: nat, lo: nat, hi: nat, v: nat)
    requires lo <= v < hi
    ensures Msb(v, d) in Range(d, lo, hi)
    decreases hi
  {
    if v < hi - 1 {
      InRange(d, lo, hi - 1, v);
    }
  }

  /** How many strings of length d are still open after all codes of up to d bits. */
  ghost function Open(sz: seq<nat>, d: nat): int {
    Pow2(d) - First(sz, d) - Cnt(sz, d)
  }

  /** The strings of length 10..d that can be proper prefixes of codes. */
  ghost function NodeSpace(sz: seq<nat>, d: nat): set<seq<bool>> {
    if d < FAST_LOOKUP_BITS then {} else NodeSpace(sz, d - 1) + Range(d, First(sz, d) + Cnt(sz, d), Pow2(d))
  }

  ghost function CntUpTo(sz: seq<nat>, a: nat, b: nat): nat {
    if b < a then 0 else Cnt(sz, b) + if b == 0 then 0 else CntUpTo(sz, a, b - 1)
  }

  lemma {:induction false} CntTotal(sz: seq<nat>, a: nat, b: nat)
    ensures CntUpTo(sz, a, b) <= |sz|
  {
    if sz != [] {
      var t := sz[..|sz| - 1];
      CntTotal(t, a, b);
      CntUpToStep(sz, a, b);
    } else {
      CntEmpty(a, b);
    }
  }

  lemma {:induction false} CntEmpty(a: nat, b: nat)
    ensures CntUpTo([], a, b) == 0
  {
    if a <= b && b > 0 {
      CntEmpty(a, b - 1);
    }
  }

  lemma {:induction false} CntUpToStep(sz: seq<nat>, a: nat, b: nat)
    requires sz != []
    ensures CntUpTo(sz, a, b) == CntUpTo(sz[..|sz| - 1], a, b) + if a <= sz[|sz| - 1] <= b then 1 else 0
  {
    if a <= b && b > 0 {
      CntUpToStep(sz, a, b - 1);
    }
  }

  /** Each open string of length d leads to two of length d+1, which are codes or open in turn. */
  lemma {:induction false} NodeSpaceSize(sz: seq<nat>, d: nat)
    requires Fits(sz) && 9 <= d <= 15
    ensures |NodeSpace(sz, d)| <= CntUpTo(sz, 10, d) + 2 * Open(sz, d) - 2 * Open(sz, 9)
    ensures Open(sz, d) >= 0
    decreases d
  {
    CodesFit(sz, d);
    if d >= 10 {
      NodeSpaceSize(sz, d - 1);
      CodesFit(sz, d - 1);
      assert Open(sz, d) == 2 * Open(sz, d - 1) - Cnt(sz, d);
    } else {
      assert CntUpTo(sz, 10, 9) == 0;
    }
  }

  lemma NodeSpaceHas(sz: seq<nat>, d: nat, p: seq<bool>)
    requires d >= FAST_LOOKUP_BITS && p in Range(d, First(sz, d) + Cnt(sz, d), Pow2(d))
    ensures p in NodeSpace(sz, d)
  {
    hide Range, First, Cnt, Pow2;
  }

  lemma InNodeSpace(sz: seq<nat>, i: nat, p: seq<bool>)
    requires Fits(sz) && i < |sz| && p < Word(sz, i) && |p| >= FAST_LOOKUP_BITS
    ensures p in NodeSpace(sz, 14)
  {
    hide Msb, Shr, Pow2, First, Cnt, Code, Range;
    var l, d, c := sz[i], |p|, Code(sz, i);
    assert d < l <= 15 && l - (l - d) == d && p == Msb(c, l)[..d];
    CodeRange(sz, i);
    CodeBound(sz, i);
    MsbPrefix(c, l, l - d);
    LongerAbove(sz, d, l, c);
    ShrBound(c, l, l - d);
    InRange(d, First(sz, d) + Cnt(sz, d), Pow2(d), Shr(c, l - d));
    assert p == Msb(Shr(c, l - d), d);
    NodeSpaceHas(sz, d, p);
    NodeSpaceGrows(sz, d, 14, p);
  }

  lemma {:induction false} NodeSpaceGrows(sz: seq<nat>, d: nat, e: nat, p: seq<bool>)
    requires d <= e && p in NodeSpace(sz, d)
    ensures p in NodeSpace(sz, e)
    decreases e
  {
    if d < e {
      assert d >= FAST_LOOKUP_BITS;
      NodeSpaceGrows(sz, d, e - 1, p);
    }
  }

  /** The prefixes of one string, at most n of them. */
  ghost function Prefixes(w: seq<bool>, n: nat): (s: set<seq<bool>>)
    ensures |s| <= n
  {
    if n == 0 then {} else Prefixes(w, n - 1) + if n - 1 <= |w| then {w[..n - 1]} else {}
  }

  lemma {:induction false} InPrefixes(w: seq<bool>, n: nat, p: seq<bool>)
    requires p <= w && |p| < n
    ensures p in Prefixes(w, n)
  {
    if |p| < n - 1 {
      InPrefixes(w, n - 1, p);
    } else {
      assert p == w[..n - 1];
    }
  }

  ghost function Nodes(c: Entries): set<seq<bool>> {
    set p | p in c && c[p] < 0
  }

  /** Node numbers are handed out consecutively. */
  ghost predicate NodesCounted(c: Entries, next: int) {
    2 * |Nodes(c)| == -next - 1
  }

  /** All entries come from the first k symbols or are nodes on the way to symbol k. */
  ghost predicate Partial(c: Entries, sz: seq<nat>, k: nat)
    requires k < |sz|
  {
    forall p :: p in c ==>
      || (exists i :: 0 <= i < k && Owes(sz, i, p, c[p]))
      || (sz[k] > FAST_LOOKUP_BITS && p < Word(sz, k) && c[p] < 0)
  }

  lemma PartialPathIsNodes(c: Entries, sz: seq<nat>, k: nat, p: seq<bool>)
    requires Accepted(sz) && k < |sz| && sz[k] > 0 && Partial(c, sz, k)
    requires p in c && p <= Word(sz, k)
    ensures c[p] < 0 && p < Word(sz, k)
  {
    if !(p < Word(sz, k) && c[p] < 0) {
      var c0: Entries := map[p := c[p]];
      PathIsNodes(c0, sz, k, p);
    }
  }

  /** Every node is a proper prefix of some code. */
  lemma NodesFromCodes(c: Entries, sz: seq<nat>, k: nat, p: seq<bool>) returns (i: nat)
    requires k < |sz| && Partial(c, sz, k) && p in Nodes(c)
    ensures i <= k && sz[i] > FAST_LOOKUP_BITS && p < Word(sz, i)
  {
    if exists i :: 0 <= i < k && Owes(sz, i, p, c[p]) {
      i :| 0 <= i < k && Owes(sz, i, p, c[p]);
    } else {
      i := k;
    }
  }

  /** There is room for one more node: the tree array never overflows. */
  lemma Room(c: Entries, next: int, sz: seq<nat>, k: nat, p: seq<bool>)
    requires Accepted(sz) && |sz| <= 288 && k < |sz| && sz[k] > FAST_LOOKUP_BITS
    requires WellNumbered(c, next) && NodesCounted(c, next) && Partial(c, sz, k) && p !in c && p < Word(sz, k)
    requires |p| >= FAST_LOOKUP_BITS
    ensures -next + 1 <= TREE_SIZE
  {
    var ns := Nodes(c) + {p};
    assert |ns| == |Nodes(c)| + 1;
    if First(sz, 16) == 0x10000 {
      forall q | q in ns ensures q in NodeSpace(sz, 14) {
        var i := k;
        if q != p {
          i := NodesFromCodes(c, sz, k, q);
        }
        InNodeSpace(sz, i, q);
      }
      SubsetSize(ns, NodeSpace(sz, 14));
      FullNodeSpace(sz);
    } else {
      forall q | q in ns ensures q in Prefixes(Word(sz, k), 16) {
        if q != p {
          var i := NodesFromCodes(c, sz, k, q);
        }
        InPrefixes(Word(sz, k), 16, q);
      }
      SubsetSize(ns, Prefixes(Word(sz, k), 16));
    }
  }

  lemma FullNodeSpace(sz: seq<nat>)
    requires Full(sz)
    ensures |NodeSpace(sz, 14)| <= |sz|
  {
    hide NodeSpace, Cnt;
    NodeSpaceSize(sz, 14);
    CodesFit(sz, 9);
    CntTotal(sz, 10, 15);
    assert CntUpTo(sz, 10, 15) == Cnt(sz, 15) + CntUpTo(sz, 10, 14);
    hide CntUpTo;
    assert First(sz, 16) == 2 * (First(sz, 15) + Cnt(sz, 15));
    assert First(sz, 15) == 2 * (First(sz, 14) + Cnt(sz, 14));
    hide First;
    assert Pow2(15) == 2 * Pow2(14) && Pow2(5) == 32 && Pow2(10) == 1024 && Pow2(15) == 0x8000;
  }

  /** One more node on the way to symbol k. */
  lemma AddNode(c: Entries, next: int, sz: seq<nat>, k: nat, p: seq<bool>)
    requires Accepted(sz) && |sz| <= 288 && k < |sz| && sz[k] > FAST_LOOKUP_BITS && next < 0
    requires NodesCounted(c, next) && Partial(c, sz, k) && p !in c && p < Word(sz, k)
    ensures NodesCounted(c[p := next], next - 2) && Partial(c[p := next], sz, k)
  {
    assert Nodes(c[p := next]) == Nodes(c) + {p};
  }

  // ---------------------------------------------------------------- building the table

  /** The table as left by the first k symbols. */
  ghost predicate Built(c: Entries, next: int, lu: seq<int>, tr: seq<int>, sz: seq<nat>, k: nat)
    requires k <= |sz|
  {
    && Stored(c, next, lu, tr) && NodesCounted(c, next) && OnlyFrom(c, sz, k)
    && forall i :: 0 <= i < k ==> HasSymbol(c, sz, i)
  }

  ghost predicate Extends(c: Entries, c': Entries) {
    forall p :: p in c ==> p in c' && c'[p] == c[p]
  }

  /** The next x with x % d == r is d further on. */
  lemma ModGap(x: nat, y: nat, d: nat)
    requires d > 0 && x < y < x + d
    ensures y % d != x % d && (x + d) % d == x % d
  {
    DivModUnique(x + d, d, x / d + 1, x % d);
    if y % d == x % d {
      DivModUnique(y, d, y / d, x % d);
      if y / d > x / d {
        MulStep(x / d, y / d, d);
      } else {
        MulUp(y / d, x / d, d);
      }
    }
  }

  lemma MulUp(a: int, b: int, d: nat)
    requires a <= b
    ensures a * d <= b * d
  {
  }

  /** The fill loop for a code of at most ten bits. */
  method FillLookUp(lu: array<int>, rev: nat, size: nat, v: int, ghost w: seq<bool>)
    requires lu.Length == FAST_LOOKUP_SIZE && 1 <= |w| == size <= FAST_LOOKUP_BITS && rev == Val(w)
    modifies lu
    ensures Filled(old(lu[..]), lu[..], w, v)
  {
    hide Pow2, Val;
    var x, d := rev, Pow2(size);
    ValBound(w);
    SmallMod(rev, d);
    while x < FAST_LOOKUP_SIZE
      invariant rev <= x && x % d == rev
      invariant forall y :: 0 <= y < FAST_LOOKUP_SIZE && y < x ==> lu[y] == if y % d == rev then v else old(lu[y])
      invariant forall y :: x <= y < FAST_LOOKUP_SIZE ==> lu[y] == old(lu[y])
    {
      lu[x] := v;
      forall y | x < y < x + d ensures y % d != rev {
        ModGap(x, y, d);
      }
      NextMod(x, d);
      x := x + d;
    }
  }

  lemma SmallMod(x: nat, d: nat)
    requires x < d
    ensures x % d == x && forall y :: 0 <= y < x ==> y % d != x
  {
  }

  lemma NextMod(x: nat, d: nat)
    requires d > 0
    ensures (x + d) % d == x % d
  {
    DivModUnique(x + d, d, x / d + 1, x % d);
  }

  /** There are nodes on the first d bits of code `w`. */
  ghost predicate PathNodes(c: Entries, w: seq<bool>, d: nat)
    requires d <= |w|
  {
    forall e :: FAST_LOOKUP_BITS <= e <= d ==> w[..e] in c && c[w[..e]] < 0
  }

  lemma PathGrows(c: Entries, w: seq<bool>, d: nat, v: int)
    requires FAST_LOOKUP_BITS <= d + 1 <= |w| && PathNodes(c, w, d) && v < 0
    ensures PathNodes(c[w[..d + 1] := v], w, d + 1)
    ensures w[..d + 1] in c && c[w[..d + 1]] < 0 ==> PathNodes(c, w, d + 1)
  {
    forall e | FAST_LOOKUP_BITS <= e <= d ensures w[..e] != w[..d + 1] {
      assert |w[..e]| != |w[..d + 1]|;
    }
  }

  /** The entry for the first ten bits: zero exactly when it is missing. */
  lemma LookUpStep(c: Entries, next: int, lu: seq<int>, tr: seq<int>, w: seq<bool>, p: seq<bool>)
    requires Stored(c, next, lu, tr) && |w| > FAST_LOOKUP_BITS && p == w[..FAST_LOOKUP_BITS]
    requires p in c ==> c[p] < 0
    requires p !in c ==> -next + 1 <= TREE_SIZE
    ensures Val(p) < |lu|
    ensures lu[Val(p)] != 0 ==> p in c && c[p] == lu[Val(p)] && PathNodes(c, w, FAST_LOOKUP_BITS)
    ensures lu[Val(p)] == 0 ==> p !in c && Stored(c[p := next], next - 2, lu[Val(p) := next], tr)
    ensures lu[Val(p)] == 0 ==> PathNodes(c[p := next], w, FAST_LOOKUP_BITS)
  {
    assert Val(p) < |lu| && next < 0;
    if p !in c {
      PutLookUp(c, next, lu, tr, p);
    }
    hide Stored;
    PathGrows(c, w, FAST_LOOKUP_BITS - 1, next);
  }

  /** The entry for the first d+1 bits, below the node on the first d. */
  lemma TreeStep(c: Entries, next: int, lu: seq<int>, tr: seq<int>, w: seq<bool>, d: nat, p: seq<bool>, s: int)
    requires Stored(c, next, lu, tr) && FAST_LOOKUP_BITS <= d < |w| && PathNodes(c, w, d) && p == w[..d + 1]
    requires p in c ==> c[p] < 0
    requires p !in c ==> -next + 1 <= TREE_SIZE
    requires s == Slot(c[w[..d]], w[d])
    ensures 0 <= s < |tr|
    ensures tr[s] != 0 ==> p in c && c[p] == tr[s] && PathNodes(c, w, d + 1)
    ensures tr[s] == 0 ==> p !in c && Stored(c[p := next], next - 2, lu, tr[s := next])
    ensures tr[s] == 0 ==> PathNodes(c[p := next], w, d + 1)
  {
    assert next < 0;
    TreeSlot(c, next, lu, tr, w, d, p, s);
    hide Stored, WellNumbered;
    PathGrows(c, w, d, next);
    if p !in c {
      PutTree(c, next, lu, tr, p, next, next - 2);
    }
  }

  lemma TreeSlot(c: Entries, next: int, lu: seq<int>, tr: seq<int>, w: seq<bool>, d: nat, p: seq<bool>, s: int)
    requires Stored(c, next, lu, tr) && FAST_LOOKUP_BITS <= d < |w| && PathNodes(c, w, d) && p == w[..d + 1]
    requires s == Slot(c[w[..d]], w[d])
    ensures 0 <= s < |tr| && tr[s] == (if p in c then c[p] else 0)
    ensures |p| > 0 && Parent(p) == w[..d] && p[|p| - 1] == w[d]
  {
    hide Stored, Slot;
    var u := w[..d];
    assert p == u + [w[d]] && Parent(p) == u;
    StoredSlot(c, next, lu, tr, u, w[d]);
  }

  lemma StoredSlot(c: Entries, next: int, lu: seq<int>, tr: seq<int>, u: seq<bool>, b: bool)
    requires Stored(c, next, lu, tr) && u in c && c[u] < 0
    ensures var s := Slot(c[u], b); 0 <= s < |tr| && tr[s] == if u + [b] in c then c[u + [b]] else 0
  {
    hide WellNumbered, Slot, Val;
  }

  /** One more node on the way to symbol k, and that there is room for it. */
  lemma PathRoom(c: Entries, next: int, sz: seq<nat>, k: nat, p: seq<bool>)
    requires Accepted(sz) && |sz| <= 288 && k < |sz| && sz[k] > FAST_LOOKUP_BITS
    requires WellNumbered(c, next) && NodesCounted(c, next) && Partial(c, sz, k)
    requires p < Word(sz, k) && |p| >= FAST_LOOKUP_BITS
    ensures p in c ==> c[p] < 0
    ensures p !in c ==> -next + 1 <= TREE_SIZE && NodesCounted(c[p := next], next - 2) && Partial(c[p := next], sz, k)
  {
    if p in c {
      PartialPathIsNodes(c, sz, k, p);
    } else {
      Room(c, next, sz, k, p);
      AddNode(c, next, sz, k, p);
    }
  }

  /** The symbol itself, at the end of its path. */
  lemma LeafStep(c: Entries, next: int, lu: seq<int>, tr: seq<int>, sz: seq<nat>, k: nat, w: seq<bool>, s: int)
    requires Accepted(sz) && k < |sz| && FAST_LOOKUP_BITS < sz[k] && w == Word(sz, k)
    requires Stored(c, next, lu, tr) && NodesCounted(c, next) && Partial(c, sz, k) && PathNodes(c, w, sz[k] - 1)
    requires s == Slot(c[w[..sz[k] - 1]], w[sz[k] - 1])
    ensures 0 <= s < |tr| && w !in c && Stored(c[w := k], next, lu, tr[s := k])
    ensures NodesCounted(c[w := k], next) && OnlyFrom(c[w := k], sz, k + 1) && HasSymbol(c[w := k], sz, k)
  {
    assert w[..sz[k]] == w;
    TreeSlot(c, next, lu, tr, w, sz[k] - 1, w, s);
    hide Stored, WellNumbered;
    if w in c {
      PartialPathIsNodes(c, sz, k, w);
    }
    PutTree(c, next, lu, tr, w, k, next);
    assert Nodes(c[w := k]) == Nodes(c);
    LeafOrigin(c, sz, k, w);
  }

  lemma LeafOrigin(c: Entries, sz: seq<nat>, k: nat, w: seq<bool>)
    requires k < |sz| && FAST_LOOKUP_BITS < sz[k] && w == Word(sz, k) && Partial(c, sz, k) && PathNodes(c, w, sz[k] - 1)
    ensures OnlyFrom(c[w := k], sz, k + 1) && HasSymbol(c[w := k], sz, k)
  {
    var c' := c[w := k];
    forall p | p in c' ensures exists i :: 0 <= i < k + 1 && Owes(sz, i, p, c'[p]) {
      if p == w {
        assert Owes(sz, k, p, c'[p]);
      } else if exists i :: 0 <= i < k && Owes(sz, i, p, c[p]) {
      } else {
        assert Owes(sz, k, p, c'[p]);
      }
    }
  }

  lemma SymbolKept(c: Entries, c': Entries, sz: seq<nat>, i: nat)
    requires Extends(c, c') && i < |sz| && HasSymbol(c, sz, i)
    ensures HasSymbol(c', sz, i)
  {
  }

  /** rev_code >>= n, for the bit string it holds. */
  lemma ShiftOut(s: seq<bool>)
    requires s != []
    ensures Val(s) / 2 == Val(s[1..]) && Val(s) % 2 == B(s[0])
  {
  }

  lemma TenBits(w: seq<bool>)
    requires |w| > FAST_LOOKUP_BITS
    ensures Val(w) % FAST_LOOKUP_SIZE == Val(w[..FAST_LOOKUP_BITS]) && Val(w) / 512 == Val(w[9..])
  {
    TableSize();
    ValSplit(w, FAST_LOOKUP_BITS);
    ValSplit(w, 9);
  }

  /** The table on the way to symbol k, with nodes on the first d bits of its code. */
  ghost predicate OnPath(c: Entries, next: int, lu: seq<int>, tr: seq<int>, sz: seq<nat>, k: nat, d: nat)
    requires k < |sz| && d <= sz[k]
  {
    && Accepted(sz) && |sz| <= 288 && sz[k] > FAST_LOOKUP_BITS
    && Stored(c, next, lu, tr) && NodesCounted(c, next) && Partial(c, sz, k) && PathNodes(c, Word(sz, k), d)
  }

  lemma FirstStep(c: Entries, next: int, lu: seq<int>, tr: seq<int>, sz: seq<nat>, k: nat, w: seq<bool>, p: seq<bool>)
    requires k < |sz| && OnPath(c, next, lu, tr, sz, k, 0) && w == Word(sz, k) && p == w[..FAST_LOOKUP_BITS]
    ensures Val(p) < |lu|
    ensures lu[Val(p)] != 0 ==> OnPath(c, next, lu, tr, sz, k, FAST_LOOKUP_BITS) && p in c && c[p] == lu[Val(p)]
    ensures lu[Val(p)] == 0 ==> p !in c
    ensures lu[Val(p)] == 0 ==> OnPath(c[p := next], next - 2, lu[Val(p) := next], tr, sz, k, FAST_LOOKUP_BITS)
  {
    assert WellNumbered(c, next);
    hide Accepted, Stored, NodesCounted, Partial, PathNodes, WellNumbered, Word, Val;
    PathRoom(c, next, sz, k, p);
    LookUpStep(c, next, lu, tr, w, p);
  }

  lemma WalkStep(c: Entries, next: int, lu: seq<int>, tr: seq<int>, sz: seq<nat>, k: nat, w: seq<bool>, d: nat,
      p: seq<bool>, cur: int)
    requires k < |sz| && w == Word(sz, k) && FAST_LOOKUP_BITS <= d && d + 1 < sz[k]
    requires OnPath(c, next, lu, tr, sz, k, d) && p == w[..d + 1]
    requires w[..d] in c && cur == c[w[..d]]
    ensures 0 <= Slot(cur, w[d]) < |tr|
    ensures tr[Slot(cur, w[d])] != 0 ==> OnPath(c, next, lu, tr, sz, k, d + 1) && p in c && c[p] == tr[Slot(cur, w[d])]
    ensures tr[Slot(cur, w[d])] == 0 ==> p !in c
    ensures tr[Slot(cur, w[d])] == 0 ==>
      OnPath(c[p := next], next - 2, lu, tr[Slot(cur, w[d]) := next], sz, k, d + 1)
  {
    assert WellNumbered(c, next);
    hide Accepted, Stored, NodesCounted, Partial, PathNodes, WellNumbered, Word, Slot;
    PathRoom(c, next, sz, k, p);
    TreeStep(c, next, lu, tr, w, d, p, Slot(cur, w[d]));
  }

  /** The loop that follows a code from its tenth bit to the last but one, adding the nodes that are missing. */
  method WalkTree(lu: array<int>, tr: array<int>, sym: nat, size: nat, rev0: nat, cur0: int, next0: int,
      ghost sz: seq<nat>, ghost c0: Entries)
    returns (rev: nat, cur: int, next: int, ghost c: Entries)
    requires lu != tr && sym < |sz| && size == sz[sym] > FAST_LOOKUP_BITS
    requires OnPath(c0, next0, lu[..], tr[..], sz, sym, FAST_LOOKUP_BITS)
    requires rev0 == Val(Word(sz, sym)[9..])
    requires Word(sz, sym)[..FAST_LOOKUP_BITS] in c0 && cur0 == c0[Word(sz, sym)[..FAST_LOOKUP_BITS]]
    modifies tr
    ensures OnPath(c, next, lu[..], tr[..], sz, sym, size - 1) && Extends(c0, c)
    ensures rev == Val(Word(sz, sym)[size - 2..])
    ensures Word(sz, sym)[..size - 1] in c && cur == c[Word(sz, sym)[..size - 1]]
  {
    hide Word, OnPath, Val, Slot;
    ghost var w := Word(sz, sym);
    rev, cur, next, c := rev0, cur0, next0, c0;
    var j := size;
    ghost var d := FAST_LOOKUP_BITS;
    while j > FAST_LOOKUP_BITS + 1
      invariant FAST_LOOKUP_BITS + 1 <= j <= size && d == size - j + FAST_LOOKUP_BITS
      invariant OnPath(c, next, lu[..], tr[..], sz, sym, d) && Extends(c0, c)
      invariant rev == Val(w[d - 1..]) && w[..d] in c && cur == c[w[..d]]
    {
      ghost var p := w[..d + 1];
      WalkStep(c, next, lu[..], tr[..], sz, sym, w, d, p, cur);
      ShiftOut(w[d - 1..]);
      assert w[d - 1..][1..] == w[d..];
      ShiftOut(w[d..]);
      rev := rev / 2;
      SlotIndex(cur, w[d]);
      cur := cur - rev % 2;
      if tr[-cur - 1] == 0 {
        tr[-cur - 1] := next;
        cur := next;
        c := c[p := next];
        next := next - 2;
      } else {
        cur := tr[-cur - 1];
      }
      j := j - 1;
      d := d + 1;
    }
  }

  lemma SlotIndex(cur: int, b: bool)
    ensures Slot(cur, b) == -(cur - B(b)) - 1
  {
  }

  /** Enters a code of more than ten bits: a path of nodes and the symbol at its end. */
  method InsertLong(lu: array<int>, tr: array<int>, sym: nat, size: nat, rev0: nat, next0: int,
      ghost sz: seq<nat>, ghost c0: Entries)
    returns (next: int, ghost c: Entries)
    requires lu != tr && sym < |sz| && size == sz[sym] > FAST_LOOKUP_BITS
    requires OnPath(c0, next0, lu[..], tr[..], sz, sym, 0) && rev0 == Val(Word(sz, sym))
    modifies lu, tr
    ensures Stored(c, next, lu[..], tr[..]) && NodesCounted(c, next) && OnlyFrom(c, sz, sym + 1)
    ensures HasSymbol(c, sz, sym)
    ensures Extends(c0, c)
  {
    hide Word, OnPath, Val, Slot, Stored, NodesCounted, OnlyFrom, HasSymbol;
    ghost var w := Word(sz, sym);
    var rev, cur := rev0, 0;
    c, next := c0, next0;
    ghost var p := w[..FAST_LOOKUP_BITS];
    TenBits(w);
    FirstStep(c, next, lu[..], tr[..], sz, sym, w, p);
    cur := lu[rev % FAST_LOOKUP_SIZE];
    if cur == 0 {
      lu[rev % FAST_LOOKUP_SIZE] := next;
      cur := next;
      c := c[p := next];
      next := next - 2;
    }
    ghost var c1 := c;
    rev, cur, next, c := WalkTree(lu, tr, sym, size, rev / 512, cur, next, sz, c1);
    LastStep(c, next, lu[..], tr[..], sz, sym, w, Slot(cur, w[size - 1]));
    ShiftOut(w[size - 2..]);
    assert w[size - 2..][1..] == w[size - 1..];
    ShiftOut(w[size - 1..]);
    SlotIndex(cur, w[size - 1]);
    cur := cur - (rev / 2) % 2;
    tr[-cur - 1] := sym;
    c := c[w := sym];
  }

  lemma LastStep(c: Entries, next: int, lu: seq<int>, tr: seq<int>, sz: seq<nat>, k: nat, w: seq<bool>, s: int)
    requires k < |sz| && FAST_LOOKUP_BITS < sz[k] && w == Word(sz, k) && OnPath(c, next, lu, tr, sz, k, sz[k] - 1)
    requires w[..sz[k] - 1] in c && s == Slot(c[w[..sz[k] - 1]], w[sz[k] - 1])
    ensures 0 <= s < |tr| && w !in c && Stored(c[w := k], next, lu, tr[s := k])
    ensures NodesCounted(c[w := k], next) && OnlyFrom(c[w := k], sz, k + 1) && HasSymbol(c[w := k], sz, k)
  {
    hide Accepted, Stored, NodesCounted, Partial, PathNodes, Word, Slot, OnlyFrom, HasSymbol;
    LeafStep(c, next, lu, tr, sz, k, w, s);
  }

  lemma StepDone(c0: Entries, next0: int, lu0: seq<int>, tr0: seq<int>, c: Entries, next: int, lu: seq<int>,
      tr: seq<int>, sz: seq<nat>, k: nat)
    requires k < |sz| && Built(c0, next0, lu0, tr0, sz, k) && Extends(c0, c)
    requires Stored(c, next, lu, tr) && NodesCounted(c, next) && OnlyFrom(c, sz, k + 1) && HasSymbol(c, sz, k)
    ensures Built(c, next, lu, tr, sz, k + 1)
  {
    hide Stored, NodesCounted, OnlyFrom;
    forall i | 0 <= i < k + 1 ensures HasSymbol(c, sz, i) {
      if i < k {
        SymbolKept(c0, c, sz, i);
      }
    }
  }

  lemma BuiltParts(c: Entries, next: int, lu: seq<int>, tr: seq<int>, sz: seq<nat>, k: nat)
    requires k <= |sz| && Built(c, next, lu, tr, sz, k)
    ensures Stored(c, next, lu, tr) && OnlyFrom(c, sz, k) && NodesCounted(c, next)
  {
  }

  lemma CoverNodes(c: Entries, c': Entries)
    requires Extends(c, c') && forall p :: p in c' && p !in c ==> c'[p] >= 0
    ensures Nodes(c') == Nodes(c)
  {
  }

  lemma CoverHasSymbol(c': Entries, sz: seq<nat>, k: nat, w: seq<bool>, v: int)
    requires k < |sz| && 1 <= sz[k] <= FAST_LOOKUP_BITS && w == Word(sz, k) && v == 512 * sz[k] + k
    requires forall p :: |p| == FAST_LOOKUP_BITS && w <= p ==> p in c' && c'[p] == v
    ensures HasSymbol(c', sz, k)
  {
    hide Word;
  }

  lemma NoClashes(c: Entries, sz: seq<nat>, k: nat, w: seq<bool>)
    requires Accepted(sz) && k < |sz| && OnlyFrom(c, sz, k) && 1 <= sz[k] <= FAST_LOOKUP_BITS && w == Word(sz, k)
    ensures forall p :: |p| == FAST_LOOKUP_BITS && w <= p ==> p !in c
  {
    hide Accepted, OnlyFrom, Word;
    forall p | |p| == FAST_LOOKUP_BITS && w <= p ensures p !in c {
      NoShortClash(c, sz, k, p);
    }
  }

  /** Entering a short code covers all lookups that start with it. */
  lemma ShortStep(c: Entries, next: int, lu: seq<int>, tr: seq<int>, sz: seq<nat>, k: nat, lu': seq<int>, w: seq<bool>)
    requires Accepted(sz) && k < |sz| && Built(c, next, lu, tr, sz, k) && 1 <= sz[k] <= FAST_LOOKUP_BITS
    requires w == Word(sz, k) && Filled(lu, lu', w, 512 * sz[k] + k)
    ensures Built(Cover(c, w, 512 * sz[k] + k), next, lu', tr, sz, k + 1)
  {
    hide Cover, Stored, Filled, Accepted, Word, Built, HasSymbol, OnlyFrom;
    BuiltParts(c, next, lu, tr, sz, k);
    var v := 512 * sz[k] + k;
    var c' := Cover(c, w, v);
    NoClashes(c, sz, k, w);
    CoverSpec(c, w, v);
    PutShort(c, next, lu, tr, w, v, lu');
    CoverNodes(c, c');
    CoverHasSymbol(c', sz, k, w, v);
    ShortOrigin(c, c', sz, k, w, v);
    StepDone(c, next, lu, tr, c', next, lu', tr, sz, k);
  }

  lemma ShortOrigin(c: Entries, c': Entries, sz: seq<nat>, k: nat, w: seq<bool>, v: int)
    requires k < |sz| && OnlyFrom(c, sz, k) && w == Word(sz, k) && 1 <= sz[k] <= FAST_LOOKUP_BITS && v >= 0
    requires Extends(c, c') && forall p :: p in c' && p !in c ==> |p| == FAST_LOOKUP_BITS && w <= p && c'[p] == v
    ensures OnlyFrom(c', sz, k + 1)
  {
    hide Word;
    forall p | p in c' ensures exists i :: 0 <= i < k + 1 && Owes(sz, i, p, c'[p]) {
      if p in c {
        var i :| 0 <= i < k && Owes(sz, i, p, c[p]);
        assert Owes(sz, i, p, c'[p]);
      } else {
        assert Owes(sz, k, p, c'[p]);
      }
    }
  }

  lemma SkipStep(c: Entries, next: int, lu: seq<int>, tr: seq<int>, sz: seq<nat>, k: nat)
    requires k < |sz| && Built(c, next, lu, tr, sz, k) && sz[k] == 0
    ensures Built(c, next, lu, tr, sz, k + 1)
  {
    forall p | p in c ensures exists i :: 0 <= i < k + 1 && Owes(sz, i, p, c[p]) {
      var i :| 0 <= i < k && Owes(sz, i, p, c[p]);
    }
  }

  lemma PathStart(c: Entries, next: int, lu: seq<int>, tr: seq<int>, sz: seq<nat>, k: nat)
    requires Accepted(sz) && |sz| <= 288 && k < |sz| && Built(c, next, lu, tr, sz, k) && sz[k] > FAST_LOOKUP_BITS
    ensures OnPath(c, next, lu, tr, sz, k, 0)
  {
    hide Stored, NodesCounted;
  }

  /** Reverses the low `size` bits of a code, so that its first bit comes out first. */
  method ReverseCode(code: nat, size: nat) returns (rev: nat)
    ensures rev == Val(Msb(code, size))
  {
    rev := 0;
    var l, cur := size, code;
    ghost var tail: seq<bool> := [];
    assert Msb(code, size) == Msb(cur, l) + tail;
    while l > 0
      invariant 0 <= l <= size && Msb(code, size) == Msb(cur, l) + tail && rev == Val(tail)
    {
      ghost var t := tail;
      rev := 2 * rev + cur % 2;
      tail := [cur % 2 == 1] + t;
      assert tail[1..] == t;
      cur := cur / 2;
      l := l - 1;
    }
    assert tail == Msb(code, size);
  }

  /** Enters symbol k, as one pass of the source's symbol loop does. */
  method InsertSymbol(lu: array<int>, tr: array<int>, k: nat, size: nat, code: nat, next0: int, ghost sz: seq<nat>,
      ghost c0: Entries)
    returns (next: int, ghost c: Entries)
    requires lu != tr && lu.Length == FAST_LOOKUP_SIZE && Accepted(sz) && |sz| <= 288 && k < |sz| && size == sz[k] > 0
    requires code == Code(sz, k)
    requires Built(c0, next0, lu[..], tr[..], sz, k)
    modifies lu, tr
    ensures Built(c, next, lu[..], tr[..], sz, k + 1)
  {
    hide Accepted, Built, Code;
    ghost var w := Word(sz, k);
    var rev := ReverseCode(code, size);
    if size <= FAST_LOOKUP_BITS {
      ghost var lu0 := lu[..];
      FillLookUp(lu, rev, size, 512 * size + k, w);
      c, next := Cover(c0, w, 512 * size + k), next0;
      ShortStep(c0, next0, lu0, tr[..], sz, k, lu[..], w);
    } else {
      ghost var lu0, tr0 := lu[..], tr[..];
      PathStart(c0, next0, lu0, tr0, sz, k);
      next, c := InsertLong(lu, tr, k, size, rev, next0, sz, c0);
      StepDone(c0, next0, lu0, tr0, c, next, lu[..], tr[..], sz, k);
    }
  }
}
