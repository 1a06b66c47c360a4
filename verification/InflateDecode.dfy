/** Decoding one Huffman symbol: the fast path, the path that feeds single bytes near the end of the
    input, and the walk down the tree. */
module InflateDecode {
  import opened Sums
  import opened Bits
  import opened CanonicalCode
  import opened InflateTable
  import opened BitReader

  /** The stream starts with the code of symbol s. */
  ghost predicate Starts(sz: seq<nat>, s: nat, bits: seq<bool>) {
    s < |sz| && sz[s] > 0 && Word(sz, s) <= bits
  }

  /** A finished table for the sizes `sz`. */
  ghost predicate Table(sz: seq<nat>, c: Entries, next: int, lu: seq<int>, tr: seq<int>) {
    Accepted(sz) && |sz| <= 288 && Built(c, next, lu, tr, sz, |sz|)
  }

  /** What decoding finds at the beginning of the bits: a symbol and how many bits it takes, or no whole code. */
  datatype Finding = NoCode | Found(sym: nat, size: nat)

  /** Ten or more bits with which a longer code goes on. */
  ghost predicate BeginsLong(sz: seq<nat>, p: seq<bool>) {
    |p| >= FAST_LOOKUP_BITS && exists s: nat :: Within(sz, s, p)
  }

  ghost predicate Within(sz: seq<nat>, s: nat, p: seq<bool>) {
    s < |sz| && |p| < sz[s] && p == Word(sz, s)[..|p|]
  }

  /** With bit number n the stream leaves the path of all long codes. */
  ghost predicate Leaves(sz: seq<nat>, bits: seq<bool>, n: nat) {
    FAST_LOOKUP_BITS < n <= |bits| && BeginsLong(sz, bits[..n - 1]) && !BeginsLong(sz, bits[..n])
  }

  /** The symbol that the bits start with. When they start with none, which happens to at least 15 bits only if the
      code has at most one symbol, the decoder takes them for symbol 0: it drops the bits up to where they leave the
      path of a code of more than ten bits, and none if they never were on it. */
  ghost function CodeAt(sz: seq<nat>, bits: seq<bool>): (f: Finding)
    ensures f.Found? ==> f.size <= |bits|
    ensures f.Found? ==> f.sym == 0 || (f.sym < |sz| && sz[f.sym] > 0)
    ensures f.NoCode? ==> |bits| < 15
  {
    if exists s: nat :: Starts(sz, s, bits) then
      var s: nat :| Starts(sz, s, bits);
      Found(s, sz[s])
    else if exists n: nat :: Leaves(sz, bits, n) then
      var n: nat :| Leaves(sz, bits, n);
      Found(0, n)
    else if |bits| >= 15 then Found(0, 0) else NoCode
  }

  /** The bits decide the symbol. */
  lemma StartsFound(sz: seq<nat>, s: nat, bits: seq<bool>)
    requires Accepted(sz) && Starts(sz, s, bits)
    ensures CodeAt(sz, bits) == Found(s, sz[s]) && sz[s] <= |bits|
  {
    hide Accepted;
    var t: nat :| Starts(sz, t, bits) && CodeAt(sz, bits) == Found(t, sz[t]);
    assert Starts(sz, t, bits);
    if sz[s] <= sz[t] {
      PrefixOfBoth(Word(sz, s), Word(sz, t), bits);
      AcceptedPrefixFree(sz, s, t);
    } else {
      PrefixOfBoth(Word(sz, t), Word(sz, s), bits);
      AcceptedPrefixFree(sz, t, s);
    }
  }

  lemma PrefixOfBoth(u: seq<bool>, v: seq<bool>, bits: seq<bool>)
    requires u <= bits && v <= bits && |u| <= |v|
    ensures u <= v
  {
  }

  lemma BeginsLongBefore(sz: seq<nat>, bits: seq<bool>, k: nat, n: nat)
    requires FAST_LOOKUP_BITS <= k <= n <= |bits| && BeginsLong(sz, bits[..n])
    ensures BeginsLong(sz, bits[..k])
  {
    hide Word;
    var s: nat :| Within(sz, s, bits[..n]);
    WordSize(sz, s);
    assert bits[..k] == bits[..n][..k] == Word(sz, s)[..k];
    assert Within(sz, s, bits[..k]);
  }

  lemma LeavesOnce(sz: seq<nat>, bits: seq<bool>, n: nat, m: nat)
    requires Leaves(sz, bits, n) && Leaves(sz, bits, m)
    ensures n == m
  {
    hide BeginsLong;
    if n < m {
      BeginsLongBefore(sz, bits, n, m - 1);
    } else if m < n {
      BeginsLongBefore(sz, bits, m, n - 1);
    }
  }

  lemma LeavesFound(sz: seq<nat>, bits: seq<bool>, n: nat)
    requires Leaves(sz, bits, n) && forall s: nat :: !Starts(sz, s, bits)
    ensures CodeAt(sz, bits) == Found(0, n)
  {
    hide Leaves, Starts;
    var m: nat :| Leaves(sz, bits, m) && CodeAt(sz, bits) == Found(0, m);
    LeavesOnce(sz, bits, n, m);
  }

  lemma TableSizes(sz: seq<nat>, c: Entries, next: int, lu: seq<int>, tr: seq<int>)
    requires Table(sz, c, next, lu, tr)
    ensures |lu| == FAST_LOOKUP_SIZE && |tr| == TREE_SIZE && |sz| <= 288
    ensures forall i :: 0 <= i < |sz| ==> sz[i] <= 15
  {
  }

  lemma LookUpValue(sz: seq<nat>, c: Entries, next: int, lu: seq<int>, tr: seq<int>, e: seq<bool>)
    requires Table(sz, c, next, lu, tr) && |e| >= FAST_LOOKUP_BITS
    ensures var p := e[..FAST_LOOKUP_BITS]; Val(p) < |lu| && lu[Val(p)] == if p in c then c[p] else 0
  {
  }

  /** Nodes are proper prefixes of codes, hence at most 14 bits long. */
  lemma NodeDepth(sz: seq<nat>, c: Entries, next: int, lu: seq<int>, tr: seq<int>, p: seq<bool>)
    requires Table(sz, c, next, lu, tr) && p in c && c[p] < 0
    ensures FAST_LOOKUP_BITS <= |p| < 15
  {
    hide Accepted, Stored, NodesCounted, HasSymbol, Word;
    TableSizes(sz, c, next, lu, tr);
    StoredNumbers(c, next, lu, tr);
    var i :| 0 <= i < |sz| && Owes(sz, i, p, c[p]);
    WordSize(sz, i);
  }

  /** The nodes of the table are the paths of the codes of more than ten bits. */
  lemma NodesArePaths(sz: seq<nat>, c: Entries, next: int, lu: seq<int>, tr: seq<int>, p: seq<bool>)
    requires Table(sz, c, next, lu, tr) && |p| >= FAST_LOOKUP_BITS
    ensures p in c && c[p] < 0 <==> BeginsLong(sz, p)
  {
    hide Accepted, Stored, NodesCounted, Word;
    if p in c && c[p] < 0 {
      var i :| 0 <= i < |sz| && Owes(sz, i, p, c[p]);
      WordSize(sz, i);
      assert Within(sz, i, p);
    }
    if BeginsLong(sz, p) {
      var s: nat :| Within(sz, s, p);
      WordSize(sz, s);
      assert HasSymbol(c, sz, s);
      assert Word(sz, s)[..|p|] in c;
    }
  }

  lemma WordSize(sz: seq<nat>, i: nat)
    requires i < |sz|
    ensures |Word(sz, i)| == sz[i]
  {
  }

  lemma StoredNumbers(c: Entries, next: int, lu: seq<int>, tr: seq<int>)
    requires Stored(c, next, lu, tr)
    ensures forall p :: p in c ==> |p| >= FAST_LOOKUP_BITS
  {
  }

  lemma NodeNext(sz: seq<nat>, c: Entries, next: int, lu: seq<int>, tr: seq<int>, e: seq<bool>, d: nat)
    requires Table(sz, c, next, lu, tr) && FAST_LOOKUP_BITS <= d < |e| && e[..d] in c && c[e[..d]] < 0
    ensures var s := Slot(c[e[..d]], e[d]); 0 <= s < |tr| && tr[s] == if e[..d + 1] in c then c[e[..d + 1]] else 0
  {
    hide Accepted, WellNumbered, NodesCounted, OnlyFrom, HasSymbol, Slot, Val, Pow2, Bin;
    var p := e[..d];
    assert e[..d + 1] == p + [e[d]];
    assert Stored(c, next, lu, tr);
    var s := Slot(c[p], e[d]);
    assert 0 <= s < |tr| && tr[s] == if p + [e[d]] in c then c[p + [e[d]]] else 0;
  }

  /** What the table holds along the code of a symbol. */
  lemma SymbolPath(sz: seq<nat>, c: Entries, next: int, lu: seq<int>, tr: seq<int>, s: nat, e: seq<bool>)
    requires Table(sz, c, next, lu, tr) && s < |sz| && sz[s] > 0
    ensures sz[s] <= FAST_LOOKUP_BITS && |e| >= FAST_LOOKUP_BITS && Word(sz, s) <= e ==>
              e[..FAST_LOOKUP_BITS] in c && c[e[..FAST_LOOKUP_BITS]] == 512 * sz[s] + s
    ensures sz[s] > FAST_LOOKUP_BITS && Word(sz, s) <= e ==> e[..sz[s]] in c && c[e[..sz[s]]] == s
    ensures forall d :: FAST_LOOKUP_BITS <= d < sz[s] && d <= |e| && e[..d] <= Word(sz, s) ==>
      e[..d] in c && c[e[..d]] < 0
  {
    assert HasSymbol(c, sz, s);
    hide Word, Table;
    if Word(sz, s) <= e {
      assert e[..sz[s]] == Word(sz, s);
    }
    forall d | FAST_LOOKUP_BITS <= d < sz[s] && d <= |e| && e[..d] <= Word(sz, s) ensures e[..d] in c && c[e[..d]] < 0 {
      assert e[..d] == Word(sz, s)[..d];
    }
  }

  /** A hit whose code fits the valid bits can only be the symbol the stream starts with. */
  lemma HitIsSymbol(sz: seq<nat>, c: Entries, next: int, lu: seq<int>, tr: seq<int>, s: nat, e: seq<bool>, n: nat)
    requires Table(sz, c, next, lu, tr) && s < |sz| && sz[s] > 0
    requires FAST_LOOKUP_BITS <= |e| && n <= |e| && e[..n] <= Word(sz, s)
    requires e[..FAST_LOOKUP_BITS] in c && c[e[..FAST_LOOKUP_BITS]] > 0 && c[e[..FAST_LOOKUP_BITS]] / 512 <= n
    ensures n >= sz[s]
  {
    hide Stored, NodesCounted, Word, Accepted, HasSymbol;
    var p := e[..FAST_LOOKUP_BITS];
    var i :| 0 <= i < |sz| && Owes(sz, i, p, c[p]);
    WordSize(sz, i);
    WordSize(sz, s);
    assert HasSymbol(c, sz, i);
    EntryOf(sz, c, i, p);
    assert c[p] == 512 * sz[i] + i;
    assert sz[i] <= n;
    assert Word(sz, i) == e[..sz[i]] == Word(sz, s)[..sz[i]];
    AcceptedPrefixFree(sz, i, s);
  }

  /** `do { temp = tree[~temp + bit] } while (temp < 0)`, reading bits of the buffer from the eleventh on and
      stopping early when only `limit` of them are valid. */
  method Walk(tr: array<int>, temp0: int, bitBuf: nat, limit: nat, ghost e: seq<bool>,
      ghost sz: seq<nat>, ghost c: Entries, ghost next: int, ghost lu: seq<int>)
    returns (temp: int, codeLen: nat)
    requires Table(sz, c, next, lu, tr[..]) && e == Bin(bitBuf, BUFFER_BITS)
    requires e[..FAST_LOOKUP_BITS] in c && temp0 == c[e[..FAST_LOOKUP_BITS]] < 0 && FAST_LOOKUP_BITS < limit
    ensures FAST_LOOKUP_BITS < codeLen <= 15 && codeLen <= limit
    ensures temp == (if e[..codeLen] in c then c[e[..codeLen]] else 0)
    ensures forall d :: FAST_LOOKUP_BITS <= d < codeLen ==> e[..d] in c && c[e[..d]] < 0
    ensures temp >= 0 || codeLen == limit
  {
    hide Table, Bin, Shr, Slot;
    temp, codeLen := temp0, FAST_LOOKUP_BITS;
    while true
      invariant FAST_LOOKUP_BITS <= codeLen < 15 && codeLen < limit
      invariant forall d :: FAST_LOOKUP_BITS <= d <= codeLen ==> e[..d] in c && c[e[..d]] < 0
      invariant temp == c[e[..codeLen]]
      decreases 15 - codeLen
    {
      NodeNext(sz, c, next, lu, tr[..], e, codeLen);
      ShrBit(bitBuf, BUFFER_BITS, codeLen);
      SlotIndex(temp, e[codeLen]);
      SlotForm(temp, e[codeLen]);
      temp := tr[-temp - 1 + Shr(bitBuf, codeLen) % 2];
      codeLen := codeLen + 1;
      if !(temp < 0 && limit >= codeLen + 1) {
        if temp < 0 {
          NodeDepth(sz, c, next, lu, tr[..], e[..codeLen]);
        }
        return;
      }
      NodeDepth(sz, c, next, lu, tr[..], e[..codeLen]);
    }
  }

  lemma SlotForm(temp: int, b: bool)
    ensures Slot(temp, b) == -temp - 1 + B(b)
  {
  }

  /** How many bits the table takes off a stream that starts with `e`. */
  ghost predicate LengthAt(c: Entries, e: seq<bool>, l: nat)
    requires |e| >= FAST_LOOKUP_BITS
  {
    var p := e[..FAST_LOOKUP_BITS];
    if p in c && c[p] < 0 then
      && FAST_LOOKUP_BITS < l <= |e|
      && (forall d :: FAST_LOOKUP_BITS <= d < l ==> e[..d] in c && c[e[..d]] < 0)
      && !(e[..l] in c && c[e[..l]] < 0)
    else
      l == if p in c then c[p] / 512 else 0
  }

  lemma LengthUnique(c: Entries, e: seq<bool>, l: nat, l': nat)
    requires |e| >= FAST_LOOKUP_BITS && LengthAt(c, e, l) && LengthAt(c, e, l')
    ensures l == l'
  {
  }

  /** A direct hit is a code of at most ten bits. */
  lemma HitLength(sz: seq<nat>, c: Entries, next: int, lu: seq<int>, tr: seq<int>, p: seq<bool>)
    requires Table(sz, c, next, lu, tr) && |p| == FAST_LOOKUP_BITS && p in c && c[p] >= 0
    ensures 1 <= c[p] / 512 <= FAST_LOOKUP_BITS
  {
    var i :| 0 <= i < |sz| && Owes(sz, i, p, c[p]);
    assert HasSymbol(c, sz, i);
  }

  lemma EntryOf(sz: seq<nat>, c: Entries, i: nat, p: seq<bool>)
    requires i < |sz| && HasSymbol(c, sz, i) && p in c && Owes(sz, i, p, c[p]) && c[p] >= 0
    ensures c[p] == if sz[i] <= FAST_LOOKUP_BITS then 512 * sz[i] + i else i
  {
    hide Word;
  }

  /** The stream's symbol decides what the table finds, as soon as its code is in the buffer. */
  lemma FindsSymbol(sz: seq<nat>, c: Entries, next: int, lu: seq<int>, tr: seq<int>, s: nat, e: seq<bool>)
    requires Table(sz, c, next, lu, tr) && Starts(sz, s, e) && |e| >= 15
    ensures LengthAt(c, e, sz[s])
    ensures sz[s] <= FAST_LOOKUP_BITS ==> e[..FAST_LOOKUP_BITS] in c && c[e[..FAST_LOOKUP_BITS]] == 512 * sz[s] + s
    ensures sz[s] > FAST_LOOKUP_BITS ==> e[..sz[s]] in c && c[e[..sz[s]]] == s
  {
    hide Table, Word, LengthAt;
    SymbolPath(sz, c, next, lu, tr, s, e);
    TableSizes(sz, c, next, lu, tr);
    assert e[..sz[s]] == Word(sz, s);
    forall d | FAST_LOOKUP_BITS <= d < sz[s] ensures e[..d] <= Word(sz, s) && e[..d] in c && c[e[..d]] < 0 {
      assert e[..d] == Word(sz, s)[..d];
    }
    LengthOnPath(c, e, sz[s], s);
  }

  lemma LengthOnPath(c: Entries, e: seq<bool>, l: nat, s: nat)
    requires 1 <= l <= |e| && |e| >= FAST_LOOKUP_BITS && s < 512
    requires l <= FAST_LOOKUP_BITS ==> e[..FAST_LOOKUP_BITS] in c && c[e[..FAST_LOOKUP_BITS]] == 512 * l + s
    requires l > FAST_LOOKUP_BITS ==> e[..l] in c && c[e[..l]] == s && forall d :: FAST_LOOKUP_BITS <= d < l ==>
      e[..d] in c && c[e[..d]] < 0
    ensures LengthAt(c, e, l)
  {
  }

  /** Bits in the buffer are the first bits of the stream. */
  lemma BufferedBits(r: BitReader, n: nat)
    requires r.Valid() && n <= r.numBits
    ensures Bin(r.bitBuf, BUFFER_BITS)[..n] == r.Remaining()[..n]
  {
    BinExtend(r.bitBuf, r.numBits, BUFFER_BITS);
    var e := Bin(r.bitBuf, BUFFER_BITS);
    assert e[..n] == e[..r.numBits][..n];
  }

  /** The table answers only when the buffer holds the whole code of the stream's symbol. */
  lemma AnswerIsWhole(sz: seq<nat>, c: Entries, next: int, lu: seq<int>, tr: seq<int>, s: nat, r: BitReader, l: nat)
    requires Table(sz, c, next, lu, tr) && r.Valid() && Starts(sz, s, r.Remaining())
    requires LengthAt(c, Bin(r.bitBuf, BUFFER_BITS), l) && 1 <= l <= r.numBits
    ensures r.numBits >= sz[s]
  {
    hide Table, Word, Bin;
    var e, n := Bin(r.bitBuf, BUFFER_BITS), r.numBits;
    BufferedBits(r, n);
    TableSizes(sz, c, next, lu, tr);
    var p := e[..FAST_LOOKUP_BITS];
    if n < sz[s] {
      assert e[..n] == Word(sz, s)[..n];
      assert e[..l] == e[..n][..l] == Word(sz, s)[..l];
      if p in c && c[p] < 0 {
        SymbolPath(sz, c, next, lu, tr, s, e);
      } else {
        HitIsSymbol(sz, c, next, lu, tr, s, e, n);
      }
    }
  }

  lemma Hit(c: Entries, e: seq<bool>)
    requires |e| >= FAST_LOOKUP_BITS && (e[..FAST_LOOKUP_BITS] in c ==> c[e[..FAST_LOOKUP_BITS]] >= 0)
    ensures forall l: nat :: LengthAt(c, e, l) <==>
      l == if e[..FAST_LOOKUP_BITS] in c then c[e[..FAST_LOOKUP_BITS]] / 512 else 0
  {
  }

  /** A walk over nodes only: it ends the code at l if there is no node, and otherwise goes further. */
  lemma Walked(c: Entries, e: seq<bool>, l: nat)
    requires FAST_LOOKUP_BITS <= l <= |e| && forall d :: FAST_LOOKUP_BITS <= d < l ==> e[..d] in c && c[e[..d]] < 0
    requires e[..FAST_LOOKUP_BITS] in c && c[e[..FAST_LOOKUP_BITS]] < 0
    ensures e[..l] in c && c[e[..l]] < 0 ==> forall k: nat :: LengthAt(c, e, k) ==> k > l
    ensures FAST_LOOKUP_BITS < l && !(e[..l] in c && c[e[..l]] < 0) ==> LengthAt(c, e, l)
  {
  }

  /** What the table answers after l bits. */
  ghost function Answer(c: Entries, e: seq<bool>, l: nat): int
    requires FAST_LOOKUP_BITS <= |e| && l <= |e|
  {
    var p := e[..FAST_LOOKUP_BITS];
    if p in c && c[p] < 0 then (if e[..l] in c then c[e[..l]] else 0) else if p in c then c[p] % 512 else 0
  }

  /** A direct hit within the valid bits is the symbol they start with. */
  lemma HitFound(sz: seq<nat>, c: Entries, next: int, lu: seq<int>, tr: seq<int>, e: seq<bool>, bits: seq<bool>, n: nat)
    requires Table(sz, c, next, lu, tr) && FAST_LOOKUP_BITS <= |e| && n <= |e| && n <= |bits| && e[..n] == bits[..n]
    requires var p := e[..FAST_LOOKUP_BITS]; p in c && c[p] >= 0 && c[p] / 512 <= n
    ensures var p := e[..FAST_LOOKUP_BITS]; CodeAt(sz, bits) == Found(c[p] % 512, c[p] / 512)
  {
    hide Stored, NodesCounted, Word, Accepted, HasSymbol, CodeAt;
    var p := e[..FAST_LOOKUP_BITS];
    var i :| 0 <= i < |sz| && Owes(sz, i, p, c[p]);
    WordSize(sz, i);
    assert HasSymbol(c, sz, i);
    EntryOf(sz, c, i, p);
    assert Word(sz, i) == p[..sz[i]] == e[..n][..sz[i]] == bits[..n][..sz[i]] == bits[..sz[i]];
    StartsFound(sz, i, bits);
  }

  /** So is the symbol at the end of a walk. */
  lemma LeafFound(sz: seq<nat>, c: Entries, next: int, lu: seq<int>, tr: seq<int>, bits: seq<bool>, l: nat)
    requires Table(sz, c, next, lu, tr) && FAST_LOOKUP_BITS < l <= |bits| && bits[..l] in c && c[bits[..l]] >= 0
    ensures CodeAt(sz, bits) == Found(c[bits[..l]], l)
  {
    hide Stored, NodesCounted, Word, Accepted, HasSymbol, CodeAt;
    var p := bits[..l];
    var i :| 0 <= i < |sz| && Owes(sz, i, p, c[p]);
    WordSize(sz, i);
    assert HasSymbol(c, sz, i);
    EntryOf(sz, c, i, p);
    StartsFound(sz, i, bits);
  }

  /** Where the table has no entry, no symbol starts. */
  lemma MissStarts(sz: seq<nat>, c: Entries, next: int, lu: seq<int>, tr: seq<int>, r: BitReader, l: nat, s: nat)
    requires Table(sz, c, next, lu, tr) && r.Valid() && LengthAt(c, Bin(r.bitBuf, BUFFER_BITS), l)
    requires l <= r.numBits && (l >= 1 || r.numBits >= 15)
    requires l > 0 ==> l > FAST_LOOKUP_BITS && Bin(r.bitBuf, BUFFER_BITS)[..l] !in c
    ensures !Starts(sz, s, r.Remaining())
  {
    hide Table, Word, Bin, LengthAt;
    var e, bits := Bin(r.bitBuf, BUFFER_BITS), r.Remaining();
    if Starts(sz, s, bits) {
      TableSizes(sz, c, next, lu, tr);
      if l >= 1 {
        AnswerIsWhole(sz, c, next, lu, tr, s, r, l);
      }
      BufferedBits(r, sz[s]);
      FindsSymbol(sz, c, next, lu, tr, s, e);
      LengthUnique(c, e, l, sz[s]);
    }
  }

  /** The walk has left the tree without a symbol. */
  lemma WalkLeaves(sz: seq<nat>, c: Entries, next: int, lu: seq<int>, tr: seq<int>, e: seq<bool>, l: nat)
    requires Table(sz, c, next, lu, tr) && FAST_LOOKUP_BITS < l <= |e| && LengthAt(c, e, l)
    requires e[..FAST_LOOKUP_BITS] in c && c[e[..FAST_LOOKUP_BITS]] < 0
    ensures BeginsLong(sz, e[..l - 1]) && !BeginsLong(sz, e[..l])
  {
    hide Table, BeginsLong;
    NodesArePaths(sz, c, next, lu, tr, e[..l - 1]);
    NodesArePaths(sz, c, next, lu, tr, e[..l]);
  }

  lemma MissFound(sz: seq<nat>, c: Entries, next: int, lu: seq<int>, tr: seq<int>, r: BitReader, l: nat)
    requires Table(sz, c, next, lu, tr) && r.Valid() && LengthAt(c, Bin(r.bitBuf, BUFFER_BITS), l)
    requires FAST_LOOKUP_BITS < l <= r.numBits && Bin(r.bitBuf, BUFFER_BITS)[..l] !in c
    requires var p := Bin(r.bitBuf, BUFFER_BITS)[..FAST_LOOKUP_BITS]; p in c && c[p] < 0
    ensures CodeAt(sz, r.Remaining()) == Found(0, l)
  {
    hide Table, Bin, Starts, BeginsLong, LengthAt, CodeAt;
    var e, bits := Bin(r.bitBuf, BUFFER_BITS), r.Remaining();
    forall s: nat ensures !Starts(sz, s, bits) {
      MissStarts(sz, c, next, lu, tr, r, l, s);
    }
    WalkLeaves(sz, c, next, lu, tr, e, l);
    BufferedBits(r, l);
    BufferedBits(r, l - 1);
    assert Leaves(sz, bits, l);
    LeavesFound(sz, bits, l);
  }

  lemma EmptyFound(sz: seq<nat>, c: Entries, next: int, lu: seq<int>, tr: seq<int>, r: BitReader)
    requires Table(sz, c, next, lu, tr) && r.Valid() && r.numBits >= 15 && LengthAt(c, Bin(r.bitBuf, BUFFER_BITS), 0)
    requires Bin(r.bitBuf, BUFFER_BITS)[..FAST_LOOKUP_BITS] !in c
    ensures CodeAt(sz, r.Remaining()) == Found(0, 0)
  {
    hide Table, Bin, Starts, BeginsLong, LengthAt;
    var e, bits := Bin(r.bitBuf, BUFFER_BITS), r.Remaining();
    forall s: nat ensures !Starts(sz, s, bits) {
      MissStarts(sz, c, next, lu, tr, r, 0, s);
    }
    BufferedBits(r, FAST_LOOKUP_BITS);
    NodesArePaths(sz, c, next, lu, tr, e[..FAST_LOOKUP_BITS]);
    forall n: nat ensures !Leaves(sz, bits, n) {
      if Leaves(sz, bits, n) {
        BeginsLongBefore(sz, bits, FAST_LOOKUP_BITS, n - 1);
      }
    }
  }

  /** An answer from valid bits is what the input says. */
  lemma Settles(sz: seq<nat>, c: Entries, next: int, lu: seq<int>, tr: seq<int>, r: BitReader, l: nat)
    requires Table(sz, c, next, lu, tr) && r.Valid() && LengthAt(c, Bin(r.bitBuf, BUFFER_BITS), l)
    requires l <= r.numBits && (l >= 1 || r.numBits >= 15)
    ensures CodeAt(sz, r.Remaining()).Found? && CodeAt(sz, r.Remaining()).size == l
    ensures CodeAt(sz, r.Remaining()).sym == Answer(c, Bin(r.bitBuf, BUFFER_BITS), l)
  {
    hide Table, Bin, CodeAt;
    var e := Bin(r.bitBuf, BUFFER_BITS);
    var p := e[..FAST_LOOKUP_BITS];
    BufferedBits(r, r.numBits);
    assert e[..r.numBits] == r.Remaining()[..r.numBits];
    if p in c && c[p] < 0 {
      if e[..l] in c {
        BufferedBits(r, l);
        LeafFound(sz, c, next, lu, tr, r.Remaining(), l);
      } else {
        MissFound(sz, c, next, lu, tr, r, l);
      }
    } else if p in c {
      HitFound(sz, c, next, lu, tr, e, r.Remaining(), r.numBits);
    } else {
      EmptyFound(sz, c, next, lu, tr, r);
    }
  }

  lemma LeavesLength(sz: seq<nat>, c: Entries, next: int, lu: seq<int>, tr: seq<int>, e: seq<bool>, bits: seq<bool>,
      n: nat)
    requires Table(sz, c, next, lu, tr) && Leaves(sz, bits, n) && n <= |e| && e[..n] == bits[..n]
    ensures LengthAt(c, e, n)
  {
    hide Table, BeginsLong;
    forall d | FAST_LOOKUP_BITS <= d < n ensures e[..d] in c && c[e[..d]] < 0 {
      BeginsLongBefore(sz, bits, d, n - 1);
      assert e[..d] == e[..n][..d] == bits[..d];
      NodesArePaths(sz, c, next, lu, tr, e[..d]);
    }
    NodesArePaths(sz, c, next, lu, tr, e[..n]);
  }

  /** With all input in the buffer, no answer means that the input does not start with a code. */
  lemma Exhausted(sz: seq<nat>, c: Entries, next: int, lu: seq<int>, tr: seq<int>, r: BitReader)
    requires Table(sz, c, next, lu, tr) && r.Valid() && r.cur == |r.input| && r.numBits < 15
    requires forall l: nat :: 1 <= l <= r.numBits ==> !LengthAt(c, Bin(r.bitBuf, BUFFER_BITS), l)
    ensures CodeAt(sz, r.Remaining()) == NoCode
  {
    hide Table, Word, Bin, LengthAt, Leaves;
    var e, bits := Bin(r.bitBuf, BUFFER_BITS), r.Remaining();
    BufferedBits(r, r.numBits);
    assert bits[..r.numBits] == bits;
    forall s: nat ensures !Starts(sz, s, bits) {
      if Starts(sz, s, bits) {
        FindsSymbol(sz, c, next, lu, tr, s, e);
      }
    }
    forall n: nat ensures !Leaves(sz, bits, n) {
      if Leaves(sz, bits, n) {
        LeavesRange(sz, bits, n);
        BufferedBits(r, n);
        LeavesLength(sz, c, next, lu, tr, e, bits, n);
      }
    }
  }

  lemma LeavesRange(sz: seq<nat>, bits: seq<bool>, n: nat)
    requires Leaves(sz, bits, n)
    ensures 1 <= n <= |bits|
  {
  }

  /** Tries to settle the length of the next code with the bits at hand. */
  method TryLength(r: BitReader, lu: array<int>, tr: array<int>, ghost sz: seq<nat>, ghost c: Entries, ghost next: int)
    returns (found: bool, ghost l: nat)
    requires r.Valid() && r.numBits < 15 && Table(sz, c, next, lu[..], tr[..])
    ensures found ==> 1 <= l <= r.numBits && LengthAt(c, Bin(r.bitBuf, BUFFER_BITS), l)
    ensures !found ==> forall l: nat :: 1 <= l <= r.numBits ==> !LengthAt(c, Bin(r.bitBuf, BUFFER_BITS), l)
  {
    hide Table, Word, Bin, LengthAt;
    found, l := false, 0;
    TableSizes(sz, c, next, lu[..], tr[..]);
    ghost var e := Bin(r.bitBuf, BUFFER_BITS);
    LowBitsBin(r.bitBuf, BUFFER_BITS, FAST_LOOKUP_BITS);
    LookUpValue(sz, c, next, lu[..], tr[..], e);
    var temp := lu[LowBits(r.bitBuf, FAST_LOOKUP_BITS)];
    if temp >= 0 {
      var codeLen := temp / 512;
      Hit(c, e);
      if codeLen != 0 && r.numBits >= codeLen {
        found, l := true, codeLen;
      }
    } else {
      Walked(c, e, FAST_LOOKUP_BITS);
      if r.numBits > FAST_LOOKUP_BITS {
        var codeLen;
        temp, codeLen := Walk(tr, temp, r.bitBuf, r.numBits, e, sz, c, next, lu[..]);
        Walked(c, e, codeLen);
        if temp >= 0 {
          found, l := true, codeLen;
        }
      }
    }
  }

  /** The buffer holds enough bits to settle the next symbol. */
  ghost predicate Enough(r: BitReader, c: Entries)
    reads r
  {
    r.numBits >= 15 || exists l :: 1 <= l <= r.numBits && LengthAt(c, Bin(r.bitBuf, BUFFER_BITS), l)
  }

  /** TINFL_HUFF_BITBUF_FILL: reads single bytes until a whole code is buffered, or 15 bits are. */
  method Fill(r: BitReader, lu: array<int>, tr: array<int>, ghost sz: seq<nat>, ghost c: Entries, ghost next: int)
    returns (ok: bool)
    requires r.Valid() && r.numBits < 15 && Table(sz, c, next, lu[..], tr[..])
    modifies r
    ensures r.Valid() && r.Remaining() == old(r.Remaining()) && r.Left() == old(r.Left())
    ensures ok ==> Enough(r, c)
    ensures !ok ==> CodeAt(sz, r.Remaining()) == NoCode
  {
    hide Table, Bin, LengthAt, CodeAt;
    while true
      invariant r.Valid() && r.Remaining() == old(r.Remaining()) && r.numBits < 15 && r.Left() == old(r.Left())
      decreases |r.input| - r.cur
    {
      ghost var l;
      ok, l := TryLength(r, lu, tr, sz, c, next);
      if ok {
        return;
      }
      if r.cur >= |r.input| {
        Exhausted(sz, c, next, lu[..], tr[..], r);
        return;
      }
      r.TakeByte();
      if r.numBits >= 15 {
        ok := true;
        return;
      }
    }
  }

  /** TINFL_HUFF_DECODE: on any input, what the lookup table, the tree and the careful refill near the end of the input
      decode is what the bits say, and exactly its bits are consumed. */
  method HuffDecode(r: BitReader, lu: array<int>, tr: array<int>, ghost sz: seq<nat>, ghost c: Entries, ghost next: int)
    returns (ok: bool, sym: nat)
    requires r.Valid() && Table(sz, c, next, lu[..], tr[..])
    modifies r
    ensures r.Valid() && (!ok ==> r.Remaining() == old(r.Remaining()))
    ensures ok <==> CodeAt(sz, old(r.Remaining())).Found?
    ensures ok ==> sym == CodeAt(sz, old(r.Remaining())).sym
    ensures ok ==> r.Remaining() == old(r.Remaining())[CodeAt(sz, old(r.Remaining())).size..]
  {
    hide Table, Bin, CodeAt, LengthAt;
    sym := 0;
    ok := true;
    if r.numBits < 15 {
      if |r.input| - r.cur < 2 {
        ok := Fill(r, lu, tr, sz, c, next);
        if !ok {
          return;
        }
      } else {
        r.TakeByte();
        r.TakeByte();
      }
    }
    var codeLen;
    sym, codeLen := Decode(r, lu, tr, sz, c, next);
    r.Drop(codeLen);
  }

  /** Looks the next symbol up in a buffer that holds enough bits. */
  method Decode(r: BitReader, lu: array<int>, tr: array<int>, ghost sz: seq<nat>, ghost c: Entries, ghost next: int)
    returns (sym: nat, codeLen: nat)
    requires r.Valid() && Table(sz, c, next, lu[..], tr[..]) && Enough(r, c)
    ensures codeLen <= r.numBits && CodeAt(sz, r.Remaining()) == Found(sym, codeLen)
  {
    hide Table, Word, Bin, LengthAt, CodeAt;
    TableSizes(sz, c, next, lu[..], tr[..]);
    ghost var e := Bin(r.bitBuf, BUFFER_BITS);
    LowBitsBin(r.bitBuf, BUFFER_BITS, FAST_LOOKUP_BITS);
    LookUpValue(sz, c, next, lu[..], tr[..], e);
    var temp := lu[LowBits(r.bitBuf, FAST_LOOKUP_BITS)];
    if temp >= 0 {
      codeLen := temp / 512;
      sym := temp % 512;
      Hit(c, e);
      if e[..FAST_LOOKUP_BITS] in c {
        HitLength(sz, c, next, lu[..], tr[..], e[..FAST_LOOKUP_BITS]);
      }
    } else {
      temp, codeLen := Walk(tr, temp, r.bitBuf, BUFFER_BITS, e, sz, c, next, lu[..]);
      Walked(c, e, codeLen);
      sym := temp;
    }
    ghost var len := codeLen;
    LengthsAgree(c, e, len);
    Settles(sz, c, next, lu[..], tr[..], r, len);
  }

  lemma LengthsAgree(c: Entries, e: seq<bool>, l: nat)
    requires |e| >= FAST_LOOKUP_BITS && LengthAt(c, e, l)
    ensures forall k: nat :: LengthAt(c, e, k) ==> k == l
  {
    hide LengthAt;
    forall k: nat | LengthAt(c, e, k) ensures k == l {
      LengthUnique(c, e, k, l);
    }
  }
}
