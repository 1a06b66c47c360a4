/** Reading the token buffer back and writing its tokens with the block's codes (the byte-wise
    tdefl_compress_lz_codes). */
module BlockWriter {
  import opened Sums
  import opened Bits
  import opened CanonicalCode
  import opened HuffmanCodes
  import opened LzTokens
  import opened LzBuffer
  import opened BitWriter

  // ---------------------------------------------------------------- the bits of a block

  /** All symbols of the token have codes. */
  ghost predicate Coded(l: seq<nat>, d: seq<nat>, t: Token) {
    && WellFormed(t) && LitLenSym(t) < |l| && l[LitLenSym(t)] > 0
    && (t.Match? ==> DistSym(t.dist - 1) < |d| && d[DistSym(t.dist - 1)] > 0)
  }

  ghost function MatchTail(d: seq<nat>, t: Token): seq<bool>
    requires WellFormed(t) && t.Match? && DistSym(t.dist - 1) < |d|
  {
    var x, y := t.len - 3, t.dist - 1;
    Bin(x, LenExtra(x)) + Word(d, DistSym(y)) + Bin(y, DistExtra(y))
  }

  ghost function TokenBits(l: seq<nat>, d: seq<nat>, t: Token): seq<bool>
    requires Coded(l, d, t)
  {
    Word(l, LitLenSym(t)) + if t.Match? then MatchTail(d, t) else []
  }

  ghost predicate AllCoded(l: seq<nat>, d: seq<nat>, ts: seq<Token>) {
    forall i :: 0 <= i < |ts| ==> Coded(l, d, ts[i])
  }

  ghost function TokensBits(l: seq<nat>, d: seq<nat>, ts: seq<Token>): seq<bool>
    requires AllCoded(l, d, ts)
  {
    if ts == [] then [] else TokensBits(l, d, ts[..|ts| - 1]) + TokenBits(l, d, ts[|ts| - 1])
  }

  /** The body of a block: the tokens, then the end-of-block code. */
  ghost function BodyBits(l: seq<nat>, d: seq<nat>, ts: seq<Token>): seq<bool>
    requires AllCoded(l, d, ts) && |l| > 256
  {
    TokensBits(l, d, ts) + Word(l, 256)
  }

  lemma TokensBitsPush(l: seq<nat>, d: seq<nat>, ts: seq<Token>, t: Token)
    requires AllCoded(l, d, ts) && Coded(l, d, t)
    ensures AllCoded(l, d, ts + [t]) && TokensBits(l, d, ts + [t]) == TokensBits(l, d, ts) + TokenBits(l, d, t)
  {
    assert (ts + [t])[..|ts|] == ts;
  }

  lemma {:induction false} TokensBitsFirst(l: seq<nat>, d: seq<nat>, ts: seq<Token>)
    requires AllCoded(l, d, ts) && ts != []
    ensures TokensBits(l, d, ts) == TokenBits(l, d, ts[0]) + TokensBits(l, d, ts[1..])
  {
    hide TokensBits, TokenBits, Coded;
    var u, t := ts[..|ts| - 1], ts[|ts| - 1];
    NoTokens(l, d);
    assert ts == u + [t];
    TokensBitsPush(l, d, u, t);
    if u == [] {
      assert ts[1..] == [];
    } else {
      TokensBitsFirst(l, d, u);
      assert ts[1..] == u[1..] + [t];
      TokensBitsPush(l, d, u[1..], t);
    }
  }

  // ---------------------------------------------------------------- reading groups

  ghost function Falses(n: nat): (s: seq<bool>)
    ensures |s| == n && forall i :: 0 <= i < n ==> !s[i]
  {
    if n == 0 then [] else [false] + Falses(n - 1)
  }

  /** What the flag register holds while the tokens `g` of a group are still to come: a sentinel bit above
      `pad` unused places. */
  ghost function Register(g: seq<Token>, pad: nat): seq<bool> {
    Flags(g) + Falses(pad) + [true]
  }

  lemma RegisterStep(g: seq<Token>, pad: nat)
    requires g != []
    ensures Val(Register(g, pad)) % 2 == B(g[0].Match?) && Val(Register(g, pad)) / 2 == Val(Register(g[1..], pad))
    ensures Val(Register(g, pad)) != 1
  {
    var s := Register(g, pad);
    assert s[1..] == Register(g[1..], pad);
    SentinelPositive(Flags(g[1..]) + Falses(pad));
  }

  lemma {:induction false} SentinelPositive(s: seq<bool>)
    ensures Val(s + [true]) >= 1
  {
    if s != [] {
      SentinelPositive(s[1..]);
      assert (s + [true])[1..] == s[1..] + [true];
    }
  }

  lemma EmptyRegister(pad: nat)
    ensures pad == 0 ==> Val(Register([], pad)) == 1
  {
    if pad == 0 {
      assert Register([], 0) == [true];
      assert [true][1..] == [];
    }
  }

  /** The flag byte of a group with the sentinel above it. */
  lemma FreshRegister(g: seq<Token>)
    requires |g| <= 8
    ensures Val(Flags(g)) < 256 && Val(Flags(g)) + 256 == Val(Register(g, 8 - |g|))
  {
    hide Val, Pow2, Flags, Falses;
    var s := Flags(g) + Falses(8 - |g|);
    ByteOf();
    ValBound(Flags(g));
    Pow2Monotone(|g|, 8);
    ValAppend(Flags(g), Falses(8 - |g|));
    FalsesZero(8 - |g|);
    TimesZero(Pow2(|g|));
    ValAppend(s, [true]);
  }

  lemma ByteOf()
    ensures Pow2(8) == 256 && Val([true]) == 1
  {
    assert [true][1..] == [];
    assert Pow2(3) == 8;
  }

  lemma TimesZero(x: nat)
    ensures x * 0 == 0
  {
  }

  lemma {:induction false} FalsesZero(n: nat)
    ensures Val(Falses(n)) == 0
  {
    if n > 0 {
      FalsesZero(n - 1);
      assert Falses(n)[1..] == Falses(n - 1);
    }
  }

  lemma ItemsFirst(g: seq<Token>)
    requires g != []
    ensures Items(g) == ItemBytes(g[0]) + Items(g[1..])
  {
    assert g == [g[0]] + g[1..];
    ItemsConcat([g[0]], g[1..]);
    assert [g[0]] == [] + [g[0]];
    ItemsPush([], g[0]);
  }

  /** Where the reader stands: `g` left of the current group, `rest` behind it, the bytes from p on to come. */
  ghost predicate Reading(buf: seq<nat>, p: nat, end: nat, flags: nat, g: seq<Token>, pad: nat, rest: seq<Token>) {
    && p <= end <= |buf| && buf[p..end] == Items(g) + Groups(rest) && flags == Val(Register(g, pad))
    && |g| + pad <= 8 && (pad > 0 ==> rest == [])
  }

  lemma OpenGroup(buf: seq<nat>, p: nat, end: nat, ts: seq<Token>) returns (g: seq<Token>, rest: seq<Token>)
    requires p < end <= |buf| && buf[p..end] == Groups(ts) && ts != []
    ensures ts == g + rest && 1 <= |g| <= 8 && buf[p] < 256 && Reading(buf, p + 1, end, buf[p] + 256, g, 8 - |g|, rest)
  {
    var n := if |ts| < 8 then |ts| else 8;
    g, rest := ts[..n], ts[n..];
    hide Items, Flags, Val, Register;
    assert Groups(ts) == [Val(Flags(g))] + Items(g) + Groups(rest);
    FreshRegister(g);
    assert buf[p] == buf[p..end][0] == Val(Flags(g));
    assert buf[p + 1..end] == buf[p..end][1..] == Items(g) + Groups(rest);
  }

  lemma ReadToken(buf: seq<nat>, p: nat, end: nat, flags: nat, g: seq<Token>, pad: nat, rest: seq<Token>)
    requires Reading(buf, p, end, flags, g, pad, rest) && g != []
    ensures flags != 1 && flags % 2 == B(g[0].Match?)
    ensures p + |ItemBytes(g[0])| <= end && buf[p..p + |ItemBytes(g[0])|] == ItemBytes(g[0])
    ensures var n := |ItemBytes(g[0])|; Reading(buf, p + n, end, flags / 2, g[1..], pad, rest)
  {
    hide Items, Register, Groups, Val, ItemBytes;
    RegisterStep(g, pad);
    ItemsFirst(g);
    var n, s := |ItemBytes(g[0])|, buf[p..end];
    assert s == ItemBytes(g[0]) + (Items(g[1..]) + Groups(rest));
    assert buf[p..p + n] == s[..n];
    assert buf[p + n..end] == s[n..];
  }

  /** Between groups the register is down to its sentinel; after the last token nothing is left. */
  lemma GroupEnd(buf: seq<nat>, p: nat, end: nat, flags: nat, pad: nat, rest: seq<Token>)
    requires Reading(buf, p, end, flags, [], pad, rest)
    ensures buf[p..end] == Groups(rest) && (rest == [] <==> p == end) && (rest != [] ==> flags == 1)
  {
    hide Register, Val;
    EmptyRegister(pad);
    assert Items([]) == [];
    if rest == [] {
      assert Groups(rest) == [];
    } else {
      assert |Groups(rest)| > 0;
    }
  }

  // ---------------------------------------------------------------- writing

  /** Writes one Huffman code. */
  method PutSymbol(w: BitWriter, codes: array<nat>, sizes: array<nat>, sym: nat, ghost sz: seq<nat>)
    requires w.Valid() && sym < |sz| <= sizes.Length && |sz| <= codes.Length && sz == sizes[..|sz|]
    requires CodeTable(codes[..], sz, |sz|) && sz[sym] > 0 && Sizes(sz)
    modifies w
    ensures w.Valid() && old(|w.out|) <= |w.out|
    ensures |w.out| < w.capacity ==> w.Written() == old(w.Written()) + Word(sz, sym)
    ensures |w.Written()| <= |old(w.Written())| + sz[sym]
  {
    hide Word, Val, Bin;
    assert sizes[sym] == sz[sym];
    assert codes[sym] == codes[..][sym];
    ValBound(Word(sz, sym));
    BinVal(Word(sz, sym), sz[sym]);
    w.PutBits(codes[sym], sizes[sym]);
  }

  lemma ExtraBitsFit(v: nat, n: nat)
    ensures LowBits(v, n) < Pow2(n) && Bin(LowBits(v, n), n) == Bin(v, n)
  {
    LowBitsBound(v, n);
    LowBitsBin(v, n, n);
    assert Bin(v, n)[..n] == Bin(v, n);
    BinVal(Bin(v, n), n);
  }

  lemma SymbolExtras(t: Token)
    requires WellFormed(t) && t.Match?
    ensures LenExtra(t.len - 3) <= 13 && DistExtra(t.dist - 1) <= 13
  {
    LengthRoundTrip(t.len - 3);
    DistanceRoundTrip(t.dist - 1);
  }

  /** The codes of one block, as both sides of the encoder agree on them. */
  ghost predicate Books(codes: seq<nat>, sizes: seq<nat>, sz: seq<nat>) {
    |sz| <= |sizes| && |sz| <= |codes| && sz == sizes[..|sz|] && Sizes(sz) && CodeTable(codes, sz, |sz|)
  }

  /** A match: length code and extra bits, distance code and extra bits. */
  method PutMatch(w: BitWriter, x: nat, y: nat, litCodes: array<nat>, litSizes: array<nat>, distCodes: array<nat>,
      distSizes: array<nat>,
      ghost l: seq<nat>, ghost d: seq<nat>)
    requires w.Valid() && x < 256 && y < DICT_SIZE && WellFormed(Match(x + 3, y + 1))
    requires Coded(l, d, Match(x + 3, y + 1))
    requires Books(litCodes[..], litSizes[..], l) && Books(distCodes[..], distSizes[..], d)
    modifies w
    ensures w.Valid() && old(|w.out|) <= |w.out|
    ensures |w.out| < w.capacity ==> w.Written() == old(w.Written()) + TokenBits(l, d, Match(x + 3, y + 1))
    ensures |w.Written()| <= |old(w.Written())| + |TokenBits(l, d, Match(x + 3, y + 1))|
  {
    hide Word, Bin, LowBits, Pow2, LenSym, LenExtra, SmallDistSym, SmallDistExtra, LargeDistSym, LargeDistExtra,
      CodeTable;
    ghost var t := Match(x + 3, y + 1);
    SymbolExtras(t);
    PutSymbol(w, litCodes, litSizes, LenSym(x), l);
    var n := LenExtra(x);
    ExtraBitsFit(x, n);
    w.PutBits(LowBits(x, n), n);
    var sym, extra;
    if y < 512 {
      sym, extra := SmallDistSym(y), SmallDistExtra(y);
    } else {
      sym, extra := LargeDistSym(y / 256), LargeDistExtra(y / 256);
    }
    assert sym == DistSym(y) && extra == DistExtra(y);
    PutSymbol(w, distCodes, distSizes, sym, d);
    ExtraBitsFit(y, extra);
    w.PutBits(LowBits(y, extra), extra);
    if |w.out| < w.capacity {
      Rejoin(old(w.Written()), Word(l, LenSym(x)), Bin(x, n), Word(d, sym), Bin(y, extra));
    }
  }

  lemma Rejoin(a: seq<bool>, b: seq<bool>, c: seq<bool>, d: seq<bool>, e: seq<bool>)
    ensures a + b + c + d + e == a + (b + (c + d + e))
  {
  }

  /** One token, read from the buffer and written. */
  method PutToken(w: BitWriter, buf: array<nat>, p: nat, isMatch: bool, litCodes: array<nat>, litSizes: array<nat>,
      distCodes: array<nat>, distSizes: array<nat>,
      ghost l: seq<nat>, ghost d: seq<nat>, ghost t: Token)
    returns (p': nat)
    requires w.Valid() && Coded(l, d, t) && Books(litCodes[..], litSizes[..], l)
    requires Books(distCodes[..], distSizes[..], d)
    requires p + |ItemBytes(t)| <= buf.Length && buf[p..p + |ItemBytes(t)|] == ItemBytes(t) && isMatch == t.Match?
    modifies w
    ensures w.Valid() && old(|w.out|) <= |w.out| && p' == p + |ItemBytes(t)|
    ensures |w.out| < w.capacity ==> w.Written() == old(w.Written()) + TokenBits(l, d, t)
    ensures |w.Written()| <= |old(w.Written())| + |TokenBits(l, d, t)|
  {
    hide Word, Books, LenSym, LenExtra, DistSym, DistExtra;
    assert forall i :: 0 <= i < |ItemBytes(t)| ==> buf[p + i] == ItemBytes(t)[i];
    if isMatch {
      var matchLen, matchDist := buf[p], buf[p + 1] + 256 * buf[p + 2];
      assert matchLen == t.len - 3 && matchDist == t.dist - 1;
      p' := p + 3;
      PutMatch(w, matchLen, matchDist, litCodes, litSizes, distCodes, distSizes, l, d);
    } else {
      var lit := buf[p];
      p' := p + 1;
      BookOf(litCodes[..], litSizes[..], l);
      PutSymbol(w, litCodes, litSizes, lit, l);
    }
  }

  lemma BookOf(codes: seq<nat>, sizes: seq<nat>, sz: seq<nat>)
    requires Books(codes, sizes, sz)
    ensures |sz| <= |sizes| && |sz| <= |codes| && sz == sizes[..|sz|] && Sizes(sz) && CodeTable(codes, sz, |sz|)
  {
  }

  /** tdefl_compress_lz_codes: writes all recorded tokens and the end-of-block code, unless the output is full. */
  method CompressLzCodes(w: BitWriter, buf: array<nat>, end: nat, litCodes: array<nat>, litSizes: array<nat>,
      distCodes: array<nat>, distSizes: array<nat>,
      ghost l: seq<nat>, ghost d: seq<nat>, ghost ts: seq<Token>)
    returns (ok: bool)
    requires w.Valid() && end <= buf.Length && buf[..end] == Groups(ts)
    requires Books(litCodes[..], litSizes[..], l) && Books(distCodes[..], distSizes[..], d)
    requires AllCoded(l, d, ts) && |l| > 256 && l[256] > 0
    modifies w
    ensures w.Valid() && (ok <==> |w.out| < w.capacity) && old(|w.out|) <= |w.out|
    ensures ok ==> w.Written() == old(w.Written()) + BodyBits(l, d, ts)
    ensures |w.Written()| <= |old(w.Written())| + |BodyBits(l, d, ts)|
  {
    hide Word, Books, Coded, TokensBits, TokenBits, AllCoded, Reading, Groups, Items, Val, Register, ItemBytes,
      BodyBits, Bin;
    var flags: nat, p: nat := 1, 0;
    ghost var g: seq<Token>, rest: seq<Token>, pad: nat, done: seq<Token> := [], ts, 0, [];
    StartReading(buf[..], end, ts);
    NoTokens(l, d);
    while p < end
      invariant w.Valid() && old(|w.out|) <= |w.out| && p <= end
      invariant Reading(buf[..], p, end, flags, g, pad, rest) && ts == done + g + rest
      invariant AllCoded(l, d, done)
      invariant |w.out| < w.capacity ==> w.Written() == old(w.Written()) + TokensBits(l, d, done)
      invariant |w.Written()| <= |old(w.Written())| + |TokensBits(l, d, done)|
      decreases |ts| - |done|
    {
      if g != [] {
        ReadToken(buf[..], p, end, flags, g, pad, rest);
      } else {
        GroupEnd(buf[..], p, end, flags, pad, rest);
      }
      if flags == 1 {
        g, rest := OpenGroup(buf[..], p, end, rest);
        pad := 8 - |g|;
        flags := buf[p] % 256 + 256;
        p := p + 1;
        ReadToken(buf[..], p, end, flags, g, pad, rest);
      }
      ghost var t := g[0];
      assert t == ts[|done|];
      CodedAt(l, d, ts, |done|);
      assert buf[..][p..p + |ItemBytes(t)|] == buf[p..p + |ItemBytes(t)|];
      p := PutToken(w, buf, p, flags % 2 == 1, litCodes, litSizes, distCodes, distSizes, l, d, t);
      flags := flags / 2;
      WrittenStep(old(w.Written()), l, d, done, t);
      MoveOn(done, g, rest);
      done, g := done + [t], g[1..];
    }
    if g != [] {
      ReadToken(buf[..], p, end, flags, g, pad, rest);
      ItemPresent(g[0]);
    }
    GroupEnd(buf[..], p, end, flags, pad, rest);
    assert done == ts;
    BookOf(litCodes[..], litSizes[..], l);
    PutSymbol(w, litCodes, litSizes, 256, l);
    ok := |w.out| < w.capacity;
    FinishBody(old(w.Written()), l, d, ts);
  }

  lemma WrittenStep(a: seq<bool>, l: seq<nat>, d: seq<nat>, done: seq<Token>, t: Token)
    requires AllCoded(l, d, done) && Coded(l, d, t)
    ensures AllCoded(l, d, done + [t])
    ensures a + TokensBits(l, d, done) + TokenBits(l, d, t) == a + TokensBits(l, d, done + [t])
  {
    hide TokensBits, TokenBits, Coded;
    TokensBitsPush(l, d, done, t);
  }

  lemma MoveOn(done: seq<Token>, g: seq<Token>, rest: seq<Token>)
    requires g != []
    ensures done + [g[0]] + g[1..] + rest == done + g + rest
  {
  }

  lemma FinishBody(a: seq<bool>, l: seq<nat>, d: seq<nat>, ts: seq<Token>)
    requires AllCoded(l, d, ts) && |l| > 256
    ensures a + TokensBits(l, d, ts) + Word(l, 256) == a + BodyBits(l, d, ts)
  {
    hide Word, TokensBits;
  }

  lemma ItemPresent(t: Token)
    ensures |ItemBytes(t)| > 0
  {
  }

  lemma CodedAt(l: seq<nat>, d: seq<nat>, ts: seq<Token>, i: nat)
    requires AllCoded(l, d, ts) && i < |ts|
    ensures Coded(l, d, ts[i])
  {
  }

  lemma NoTokens(l: seq<nat>, d: seq<nat>)
    ensures AllCoded(l, d, []) && TokensBits(l, d, []) == []
  {
  }

  lemma StartReading(buf: seq<nat>, end: nat, ts: seq<Token>)
    requires end <= |buf| && buf[..end] == Groups(ts)
    ensures Reading(buf, 0, end, 1, [], 0, ts)
  {
    hide Register, Val, Groups;
    EmptyRegister(0);
    assert Items([]) == [];
  }
}
