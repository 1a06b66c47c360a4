/** The parser: fills the dictionary, searches it greedily or lazily, and records tokens. */
module LzParser {
  import opened Words
  import opened Sums
  import opened Bits
  import opened LzTokens
  import opened LzBuffer
  import opened LzParse
  import opened MatchFinder
  import opened LongestMatch

  // ---------------------------------------------------------------- what has been parsed

  /** The recorded tokens stand for the text from `flushed` on, up to position `pos`, except for one byte when
      a match found there is being held back. */
  ghost predicate Parsed(text: seq<nat>, flushed: nat, pos: nat, ts: seq<Token>, lit: nat, dist: nat, len: nat) {
    && flushed <= Done(pos, len) <= pos <= |text|
    && Valid(ts, text[..flushed]) && Expand(ts, text[..flushed]) == text[..Done(pos, len)]
    && (len > 0 ==> pos > 0 && lit == text[pos - 1] && 3 <= len < 128 && dist <= DICT_SIZE)
    && (len > 0 ==> IsMatch(text, pos - 1, dist, len))
  }

  /** How much of the text the tokens cover. */
  function Done(pos: nat, savedLen: nat): int {
    if savedLen > 0 then pos - 1 else pos
  }

  lemma LiteralParsed(text: seq<nat>, flushed: nat, pos: nat, ts: seq<Token>, b: nat)
    requires Parsed(text, flushed, pos, ts, 0, 0, 0) && pos < |text| && b == text[pos] < 256
    ensures Parsed(text, flushed, pos + 1, ts + [Literal(b)], 0, 0, 0)
  {
    hide Valid, Expand;
    PushToken(ts, Literal(b), text[..flushed]);
    assert text[..pos + 1] == text[..pos] + [b];
  }

  lemma MatchParsed(text: seq<nat>, flushed: nat, pos: nat, ts: seq<Token>, dist: nat, len: nat)
    requires Parsed(text, flushed, pos, ts, 0, 0, 0) && IsMatch(text, pos, dist, len) && 3 <= len <= MAX_MATCH_LEN
    requires dist <= DICT_SIZE
    ensures WellFormed(Match(len, dist)) && Parsed(text, flushed, pos + len, ts + [Match(len, dist)], 0, 0, 0)
  {
    hide Valid, Expand;
    PushToken(ts, Match(len, dist), text[..flushed]);
    var u := text[..pos + len];
    assert u[..|text[..pos]|] == text[..pos];
    forall i | pos <= i < |u| ensures u[i] == u[i - dist] {
      assert text[i] == text[i - dist];
    }
    CopyUnique(text[..pos], dist, len, u);
  }

  /** Holding a match back costs one byte, which is kept as a literal. */
  lemma SavedParsed(text: seq<nat>, flushed: nat, pos: nat, ts: seq<Token>, dist: nat, len: nat)
    requires Parsed(text, flushed, pos, ts, 0, 0, 0) && IsMatch(text, pos, dist, len) && 3 <= len < 128
    requires dist <= DICT_SIZE
    ensures Parsed(text, flushed, pos + 1, ts, text[pos], dist, len)
  {
    hide Valid, Expand, IsMatch;
    assert pos + len <= |text| by { MatchRange(text, pos, dist, len); }
  }

  lemma MatchRange(text: seq<nat>, pos: nat, dist: nat, len: nat)
    requires IsMatch(text, pos, dist, len)
    ensures 1 <= dist <= pos && pos + len <= |text|
  {
  }

  /** Dropping the held match and taking its byte as a literal. */
  lemma UnsaveLiteral(text: seq<nat>, flushed: nat, pos: nat, ts: seq<Token>, lit: nat, dist: nat, len: nat)
    requires Parsed(text, flushed, pos, ts, lit, dist, len) && len > 0 && lit < 256
    ensures Parsed(text, flushed, pos, ts + [Literal(lit)], 0, 0, 0)
  {
    hide Valid, Expand, IsMatch;
    assert Parsed(text, flushed, pos - 1, ts, 0, 0, 0);
    LiteralParsed(text, flushed, pos - 1, ts, lit);
  }

  /** Taking the held match. */
  lemma UnsaveMatch(text: seq<nat>, flushed: nat, pos: nat, ts: seq<Token>, lit: nat, dist: nat, len: nat)
    requires Parsed(text, flushed, pos, ts, lit, dist, len) && len > 0
    ensures WellFormed(Match(len, dist)) && Parsed(text, flushed, pos - 1 + len, ts + [Match(len, dist)], 0, 0, 0)
    ensures pos - 1 + len <= |text|
  {
    hide Valid, Expand, IsMatch;
    assert Parsed(text, flushed, pos - 1, ts, 0, 0, 0);
    MatchRange(text, pos - 1, dist, len);
    MatchParsed(text, flushed, pos - 1, ts, dist, len);
  }

  /** More input changes nothing about what has been parsed. */
  lemma ParsedMore(text: seq<nat>, flushed: nat, pos: nat, ts: seq<Token>, lit: nat, dist: nat, len: nat,
      text': seq<nat>)
    requires Parsed(text, flushed, pos, ts, lit, dist, len) && text <= text'
    ensures Parsed(text', flushed, pos, ts, lit, dist, len)
  {
    hide Valid, Expand;
    assert text'[..flushed] == text[..flushed] && text'[..Done(pos, len)] == text[..Done(pos, len)];
  }

  lemma ParsedFacts(text: seq<nat>, flushed: nat, pos: nat, ts: seq<Token>, lit: nat, dist: nat, len: nat)
    requires Parsed(text, flushed, pos, ts, lit, dist, len)
    ensures pos <= |text| && len < 128 && flushed <= Done(pos, len) <= pos
    ensures len > 0 ==> 3 <= len && pos > 0 && lit == text[pos - 1] && pos - 1 + len <= |text|
    ensures TotalLength(ts) == Done(pos, len) - flushed
  {
    CoveredLength(ts, text[..flushed]);
    hide Valid, Expand;
  }

  lemma {:induction false} CoveredLength(ts: seq<Token>, out: seq<nat>)
    requires Valid(ts, out)
    ensures |Expand(ts, out)| == |out| + TotalLength(ts)
  {
    if ts != [] {
      CoveredLength(ts[..|ts| - 1], out);
    }
  }

  /** After a flush the recorded text starts over. */
  lemma ParsedFlushed(text: seq<nat>, flushed: nat, pos: nat, ts: seq<Token>, lit: nat, dist: nat, len: nat)
    requires Parsed(text, flushed, pos, ts, lit, dist, len)
    ensures Done(pos, len) >= 0 && Parsed(text, Done(pos, len), pos, [], lit, dist, len)
  {
  }

  lemma NextSlot(a: int)
    ensures Slot(Slot(a) + 1) == Slot(a + 1) && U32(U32(a) + 1) == U32(a + 1)
  {
    var q, r := a / 32768, a % 32768;
    assert a == q * 32768 + r;
    SlotShift(r + 1, q);
  }

  lemma Wraps(a: nat, b: int)
    ensures U32(U32(a) + b) == U32(a + b) && Slot(U32(a + b)) == Slot(a + b) && Slot(U32(a) + b) == Slot(a + b)
  {
    SlotWrap(a + b);
    SlotWrap(U32(a) + b);
    var q := a / 0x1_0000_0000;
    assert a + b == q * 0x1_0000_0000 + (U32(a) + b);
    WrapShift(U32(a) + b, q);
  }

  lemma WrapShift(x: int, q: int)
    ensures U32(q * 0x1_0000_0000 + x) == U32(x)
  {
    var a, r := x / 0x1_0000_0000, x % 0x1_0000_0000;
    var y := q * 0x1_0000_0000 + x;
    assert y == (q + a) * 0x1_0000_0000 + r;
    var b, t := y / 0x1_0000_0000, y % 0x1_0000_0000;
    assert y == b * 0x1_0000_0000 + t;
  }

  /** A run of one byte repeats at distance one. */
  lemma RunIsMatch(text: seq<nat>, pos: nat, n: nat, c: nat)
    requires 1 <= pos && pos + n <= |text| && text[pos - 1] == c && forall j :: pos <= j < pos + n ==> text[j] == c
    ensures IsMatch(text, pos, 1, n)
  {
  }

  /** And for no longer, where it stops. */
  lemma RunEnds(text: seq<nat>, pos: nat, n: nat, most: nat)
    requires 1 <= pos && n <= most && |text| == pos + most && (n < most ==> text[pos + n] != text[pos - 1])
    requires forall j :: pos <= j < pos + n ==> text[j] == text[pos - 1]
    ensures NoLonger(text, pos, 1, n, most) && (n < 3 ==> !IsMatch(text, pos, 1, 3))
  {
    MatchAt(text, pos, 1, n + 1, pos + n);
    MatchAt(text, pos, 1, 3, pos + n);
  }

  lemma MatchAt(text: seq<nat>, pos: nat, dist: nat, len: nat, i: nat)
    ensures IsMatch(text, pos, dist, len) && pos <= i < pos + len ==>
      1 <= dist <= i < |text| && text[i] == text[i - dist]
  {
  }

  /** What is recorded in one step, what is held back after it, and by how much it moves on. */
  datatype Choice = Choice(tokens: seq<Token>, lit: nat, dist: nat, len: nat, move: nat)

  /** The choice between the match found, the one held back, and a literal. */
  function Chosen(savedLit: nat, savedDist: nat, savedLen: nat, dist: nat, len: nat, here: nat, greedy: bool): Choice
    requires savedLen != 1
  {
    if savedLen != 0 then
      if len <= savedLen then Choice([Match(savedLen, savedDist)], 0, 0, 0, savedLen - 1)
      else if len >= 128 then Choice([Literal(savedLit), Match(len, dist)], 0, 0, 0, len)
      else Choice([Literal(savedLit)], here, dist, len, 1)
    else if dist == 0 then Choice([Literal(here)], 0, 0, 0, 1)
    else if greedy || len >= 128 then Choice([Match(len, dist)], 0, 0, 0, len)
    else Choice([], here, dist, len, 1)
  }

  /** Lazy parsing loses a match only to a longer one at the next position: what is held back is recorded unless the
      search finds more; what the search finds is recorded, held back, or no longer than what is recorded; and a
      literal is recorded only where there is no match, or in front of a longer one. */
  lemma ChoiceKeepsMatches(savedLit: nat, savedDist: nat, savedLen: nat, dist: nat, len: nat, here: nat, greedy: bool)
    requires savedLen != 1 && (dist > 0 ==> len >= 3)
    ensures var c := Chosen(savedLit, savedDist, savedLen, dist, len, here, greedy);
            && (savedLen > 0 && len <= savedLen ==> c.tokens == [Match(savedLen, savedDist)] && c.len == 0)
            && (dist > 0 && len > savedLen ==>
                  Match(len, dist) in c.tokens || (c.len, c.dist, c.lit) == (len, dist, here))
            && (greedy && savedLen == 0 && dist > 0 ==> c.tokens == [Match(len, dist)])
            && (!greedy && len < 128 && len > savedLen && dist > 0 ==> c.len == len && Match(len, dist) !in c.tokens)
            && (forall b :: Literal(b) in c.tokens ==> if savedLen > 0 then b == savedLit && len > savedLen
                                                       else b == here && dist == 0)
  {
    if savedLen > 0 && len > savedLen && len >= 128 {
      assert [Literal(savedLit), Match(len, dist)][1] == Match(len, dist);
    }
  }

  // ---------------------------------------------------------------- after a full flush

  /** Neither the tokens nor a match held back reach further back than to `base`. */
  ghost predicate Near(text: seq<nat>, base: nat, flushed: nat, pos: nat, ts: seq<Token>, dist: nat, len: nat) {
    base <= flushed <= |text| && Valid(ts, text[base..flushed]) && (len > 0 ==> base + dist < pos)
  }

  /** A token that looks back no further than that may follow. */
  lemma NearToken(text: seq<nat>, base: nat, flushed: nat, pos: nat, ts: seq<Token>, t: Token, pos': nat, dist: nat,
      len: nat)
    requires Near(text, base, flushed, pos, ts, 0, 0) && WellFormed(t) && (len > 0 ==> base + dist < pos')
    requires t.Match? ==> base + t.dist <= flushed + TotalLength(ts)
    ensures Near(text, base, flushed, pos', ts + [t], dist, len)
    ensures TotalLength(ts + [t]) == TotalLength(ts) + Length(t)
  {
    CoveredLength(ts, text[base..flushed]);
    PushToken(ts, t, text[base..flushed]);
    assert (ts + [t])[..|ts|] == ts;
    hide Valid, Expand;
  }

  lemma NearHeld(text: seq<nat>, base: nat, flushed: nat, pos: nat, ts: seq<Token>, dist: nat, len: nat)
    requires Near(text, base, flushed, pos, ts, dist, len)
    ensures Near(text, base, flushed, pos, ts, 0, 0) && (len > 0 ==> base + dist < pos)
  {
    hide Valid;
  }

  /** One step with a match held back... */
  lemma NearSaved(text: seq<nat>, base: nat, flushed: nat, pos: nat, ts: seq<Token>, lit: nat, savedDist: nat,
      savedLen: nat, dist: nat, len: nat)
    requires Parsed(text, flushed, pos, ts, lit, savedDist, savedLen) && savedLen > 0 && AllBytes(text)
    requires Near(text, base, flushed, pos, ts, savedDist, savedLen)
    requires len > savedLen ==> 1 <= dist && base + dist <= pos && dist <= DICT_SIZE && 3 <= len <= MAX_MATCH_LEN
    ensures len <= savedLen ==> Near(text, base, flushed, pos - 1 + savedLen, ts + [Match(savedLen, savedDist)], 0, 0)
    ensures len > savedLen ==> Near(text, base, flushed, pos + 1, ts + [Literal(lit)], dist, len)
    ensures len > savedLen ==> Near(text, base, flushed, pos + len, ts + [Literal(lit), Match(len, dist)], 0, 0)
  {
    ParsedFacts(text, flushed, pos, ts, lit, savedDist, savedLen);
    SavedRange(text, flushed, pos, ts, lit, savedDist, savedLen);
    NearHeld(text, base, flushed, pos, ts, savedDist, savedLen);
    hide Parsed, TotalLength, Near;
    if len > savedLen {
      NearToken(text, base, flushed, pos, ts, Literal(lit), pos + 1, dist, len);
      NearToken(text, base, flushed, pos, ts, Literal(lit), pos + 1, 0, 0);
      NearToken(text, base, flushed, pos + 1, ts + [Literal(lit)], Match(len, dist), pos + len, 0, 0);
      assert ts + [Literal(lit)] + [Match(len, dist)] == ts + [Literal(lit), Match(len, dist)];
    } else {
      NearToken(text, base, flushed, pos, ts, Match(savedLen, savedDist), pos - 1 + savedLen, 0, 0);
    }
  }

  /** ... and without one. */
  lemma NearFresh(text: seq<nat>, base: nat, flushed: nat, pos: nat, ts: seq<Token>, lit: nat, savedDist: nat,
      dist: nat, len: nat, here: nat)
    requires Parsed(text, flushed, pos, ts, lit, savedDist, 0) && here < 256
    requires Near(text, base, flushed, pos, ts, savedDist, 0)
    requires dist > 0 ==> base + dist <= pos && dist <= DICT_SIZE && 3 <= len <= MAX_MATCH_LEN
    ensures Near(text, base, flushed, pos + 1, ts + [Literal(here)], 0, 0)
    ensures dist > 0 ==> Near(text, base, flushed, pos + len, ts + [Match(len, dist)], 0, 0)
    ensures dist > 0 ==> Near(text, base, flushed, pos + 1, ts + [], dist, len)
  {
    ParsedFacts(text, flushed, pos, ts, lit, savedDist, 0);
    NearHeld(text, base, flushed, pos, ts, savedDist, 0);
    hide Parsed, TotalLength;
    assert ts + [] == ts;
    NearToken(text, base, flushed, pos, ts, Literal(here), pos + 1, 0, 0);
    if dist > 0 {
      NearToken(text, base, flushed, pos, ts, Match(len, dist), pos + len, 0, 0);
    }
  }

  lemma NearStep(text: seq<nat>, base: nat, flushed: nat, pos: nat, ts: seq<Token>, savedLit: nat, savedDist: nat,
      savedLen: nat, dist: nat, len: nat, here: nat, greedy: bool)
    requires Parsed(text, flushed, pos, ts, savedLit, savedDist, savedLen) && savedLen != 1 && AllBytes(text)
    requires Near(text, base, flushed, pos, ts, savedDist, savedLen) && here < 256
    requires dist > 0 ==> base + dist <= pos && dist <= DICT_SIZE && len <= MAX_MATCH_LEN
    requires if savedLen > 0 then len > savedLen ==> dist > 0 else dist > 0 ==> len >= 3
    ensures var c := Chosen(savedLit, savedDist, savedLen, dist, len, here, greedy);
            Near(text, base, flushed, pos + c.move, ts + c.tokens, c.dist, c.len)
  {
    ParsedFacts(text, flushed, pos, ts, savedLit, savedDist, savedLen);
    hide Parsed, Near;
    if savedLen > 0 {
      NearSaved(text, base, flushed, pos, ts, savedLit, savedDist, savedLen, dist, len);
    } else {
      NearFresh(text, base, flushed, pos, ts, savedLit, savedDist, dist, len, here);
    }
  }

  lemma NothingHeld(text: seq<nat>, base: nat, flushed: nat, pos: nat, ts: seq<Token>, dist: nat, dist': nat)
    requires Near(text, base, flushed, pos, ts, dist, 0)
    ensures Near(text, base, flushed, pos, ts, dist', 0)
  {
    hide Valid;
  }

  lemma NearMore(text: seq<nat>, base: nat, flushed: nat, pos: nat, ts: seq<Token>, dist: nat, len: nat,
      text': seq<nat>)
    requires Near(text, base, flushed, pos, ts, dist, len) && text <= text'
    ensures Near(text', base, flushed, pos, ts, dist, len)
  {
    hide Valid;
    assert text'[base..flushed] == text[base..flushed];
  }

  lemma SavedRange(text: seq<nat>, flushed: nat, pos: nat, ts: seq<Token>, lit: nat, dist: nat, len: nat)
    requires Parsed(text, flushed, pos, ts, lit, dist, len)
    ensures len > 0 ==> 1 <= dist <= DICT_SIZE
  {
    hide Valid, Expand;
  }

  /** tdefl_compressor, as far as parsing is concerned. */
  class Parser {
    const d: Dictionary
    const tb: TokenBuffer
    const probes0: nat
    const probes1: nat
    const greedy: bool
    const rle: bool
    const filter: bool
    const raw: bool
    var lookaheadPos: nat
    var lookaheadSize: nat
    var dictSize: nat
    var savedLit: nat
    var savedDist: nat
    var savedLen: nat
    ghost var pos: nat
    ghost var flushed: nat

    ghost predicate Separate()
      reads this
    {
      {d.bytes, d.next, d.hash} !! {tb.buf, tb.litCounts, tb.distCounts}
    }

    /** Where the parser stands in the text: 32-bit positions, and a dictionary that looks back as far as the hash
        chains go, or as far as there is room. */
    ghost predicate Placed()
      reads this, d
    {
      && lookaheadPos == U32(pos) && |d.text| == pos + lookaheadSize && lookaheadSize <= MAX_MATCH_LEN
      && probes0 >= 1 && probes1 >= 1 && d.base + dictSize <= pos
      && (dictSize + lookaheadSize < DICT_SIZE ==> d.base + dictSize == pos)
    }

    /** No token since the last flush looks back beyond the last full flush. */
    ghost predicate LooksNear()
      reads this, d, tb
    {
      Near(d.text, d.base, flushed, pos, tb.tokens, savedDist, savedLen)
    }

    ghost predicate Valid()
      reads this, d, d.bytes, d.next, d.hash, tb, tb.buf, tb.litCounts, tb.distCounts
    {
      && Separate() && d.Valid() && d.Complete() && tb.Valid() && Placed() && dictSize + lookaheadSize <= DICT_SIZE
      && Parsed(d.text, flushed, pos, tb.tokens, savedLit, savedDist, savedLen)
      && (rle || raw ==> savedLen == 0)
    }

    /** tdefl_init: `probes` are the low twelve flag bits; hash chains may hold anything. */
    constructor (probes: nat, isGreedy: bool, rleMatches: bool, filterMatches: bool, rawBlocks: bool, heads: seq<nat>,
        links: seq<nat>)
      requires probes <= 0xFFF && |heads| == LZ_HASH_SIZE && |links| == DICT_SIZE
      requires (forall i :: 0 <= i < |heads| ==> heads[i] < 0x10000)
      requires forall i :: 0 <= i < |links| ==> links[i] < 0x10000
      ensures Valid() && pos == flushed == 0 && d.text == [] && tb.tokens == [] && tb.pos == 1 && lookaheadSize == 0
      ensures savedLen == 0 && (greedy, rle, filter, raw) == (isGreedy, rleMatches, filterMatches, rawBlocks)
      ensures probes <= 3 * (probes0 - 1) < probes + 3 && probes / 4 <= 3 * (probes1 - 1) < probes / 4 + 3
      ensures fresh(d) && fresh(tb) && fresh({d.bytes, d.next, d.hash, tb.buf, tb.litCounts, tb.distCounts})
    {
      hide Window, Chained, Parsed, Buffered, Counted, TotalLength;
      d := new Dictionary(heads, links);
      tb := new TokenBuffer();
      probes0, probes1 := 1 + (probes + 2) / 3, 1 + (probes / 4 + 2) / 3;
      greedy, rle, filter, raw := isGreedy, rleMatches, filterMatches, rawBlocks;
      lookaheadPos, lookaheadSize, dictSize, savedLit, savedDist, savedLen := 0, 0, 0, 0, 0, 0;
      pos, flushed := 0, 0;
      new;
      NothingParsed();
    }

    /** The fast way to take in input, when there are at least two bytes before the new ones. */
    method TakeRun(src: seq<nat>, srcPos: nat) returns (srcPos': nat)
      requires d.Valid() && d.Complete() && Placed() && srcPos <= |src| && AllBytes(src)
      requires lookaheadSize + dictSize >= 2
      modifies this`lookaheadSize, d, d.bytes, d.next, d.hash
      ensures d.Valid() && d.Complete() && d.base == old(d.base) && Placed()
      ensures srcPos <= srcPos' <= |src| && d.text == old(d.text) + src[srcPos..srcPos']
      ensures lookaheadSize == MAX_MATCH_LEN || srcPos' == |src|
    {
      hide Slot, U32, Window, Chained, Xor, U16, Hash3, HashAt, Rolling;
      var dst := Slot(lookaheadPos + lookaheadSize);
      var insPos := U32(lookaheadPos + lookaheadSize - 2);
      Wraps(pos, lookaheadSize);
      Wraps(pos, lookaheadSize - 2);
      LinkRange(|d.text| - 2);
      SlotBelow(insPos);
      SlotBelow(insPos + 1);
      DictionarySize(d);
      HashRange();
      var h := Xor(32 * d.bytes[Slot(insPos)], d.bytes[Slot(insPos + 1)], 13);
      StartRolling(d, insPos, h);
      var n := if |src| - srcPos < MAX_MATCH_LEN - lookaheadSize then |src| - srcPos else MAX_MATCH_LEN - lookaheadSize;
      srcPos' := srcPos;
      ghost var text0 := d.text;
      lookaheadSize := lookaheadSize + n;
      while srcPos' != srcPos + n
        invariant srcPos <= srcPos' <= srcPos + n && d.Valid() && d.text == text0 + src[srcPos..srcPos']
        invariant d.base == old(d.base) && d.linked + 2 == |d.text| && insPos == U32(d.linked) && Rolling(d.text, h)
        invariant dst == Slot(|d.text|) && lookaheadSize == old(lookaheadSize) + n
        decreases srcPos + n - srcPos'
      {
        var c := src[srcPos'];
        NextSlot(|d.text|);
        NextSlot(d.linked);
        Rolled(d.text, h, c);
        d.Put(dst, c);
        h := Xor(32 * h, c, 15);
        d.Link(insPos, h);
        dst := Slot(dst + 1);
        insPos := U32(insPos + 1);
        assert src[srcPos..srcPos' + 1] == src[srcPos..srcPos'] + [c];
        srcPos' := srcPos' + 1;
      }
    }

    /** One byte goes into the dictionary, and its hash into the table. */
    method TakeByte(c: nat)
      requires d.Valid() && d.Complete() && Placed() && lookaheadSize < MAX_MATCH_LEN && c < 256
      requires lookaheadSize + dictSize < DICT_SIZE
      modifies this`lookaheadSize, d, d.bytes, d.next, d.hash
      ensures d.Valid() && d.Complete() && d.base == old(d.base) && Placed()
      ensures d.text == old(d.text) + [c] && lookaheadSize == old(lookaheadSize) + 1
    {
      hide Slot, U32, Window, Chained, Xor, U16, Hash3, HashAt;
      Wraps(pos, lookaheadSize);
      var dst := Slot(lookaheadPos + lookaheadSize);
      d.Put(dst, c);
      lookaheadSize := lookaheadSize + 1;
      if lookaheadSize + dictSize >= MIN_MATCH_LEN {
        var insPos := U32(lookaheadPos + (lookaheadSize - 1) - 2);
        Wraps(pos, (lookaheadSize - 1) - 2);
        SlotBelow(insPos);
        SlotBelow(insPos + 1);
        DictionarySize(d);
        HashRange();
        var h := Xor(Xor(1024 * d.bytes[Slot(insPos)], 32 * d.bytes[Slot(insPos + 1)], 15), c, 15);
        DirectHash(d, insPos, h);
        d.Link(insPos, h);
      }
    }

    /** The first bytes, one at a time. */
    method TakeFirst(src: seq<nat>, srcPos: nat) returns (srcPos': nat)
      requires d.Valid() && d.Complete() && Placed() && srcPos <= |src| && AllBytes(src)
      requires lookaheadSize + dictSize < 2
      modifies this`lookaheadSize, d, d.bytes, d.next, d.hash
      ensures d.Valid() && d.Complete() && d.base == old(d.base) && Placed()
      ensures srcPos <= srcPos' <= |src| && d.text == old(d.text) + src[srcPos..srcPos']
      ensures lookaheadSize == MAX_MATCH_LEN || srcPos' == |src|
    {
      hide Window, Chained;
      srcPos' := srcPos;
      ghost var text0 := d.text;
      while srcPos' < |src| && lookaheadSize < MAX_MATCH_LEN
        invariant srcPos <= srcPos' <= |src| && d.Valid() && d.Complete() && Placed() && d.base == old(d.base)
        invariant d.text == text0 + src[srcPos..srcPos']
        decreases |src| - srcPos'
      {
        TakeByte(src[srcPos']);
        assert src[srcPos..srcPos' + 1] == src[srcPos..srcPos'] + [src[srcPos']];
        srcPos' := srcPos' + 1;
      }
    }

    /** Takes in input until the lookahead is full or the input is used up, and shrinks the searchable
        dictionary so that it and the lookahead fit the buffer together. */
    method Fill(src: seq<nat>, srcPos: nat) returns (srcPos': nat)
      requires Valid() && srcPos <= |src| && AllBytes(src)
      modifies this`lookaheadSize, this`dictSize, d, d.bytes, d.next, d.hash
      ensures Valid() && srcPos <= srcPos' <= |src| && d.text == old(d.text) + src[srcPos..srcPos']
      ensures lookaheadSize == MAX_MATCH_LEN || srcPos' == |src|
      ensures d.base == old(d.base) && (old(LooksNear()) ==> LooksNear())
    {
      hide Slot, U32, Window, Chained, Parsed, Near, Buffered, Counted, TotalLength;
      ghost var text0 := d.text;
      if lookaheadSize + dictSize >= MIN_MATCH_LEN - 1 {
        srcPos' := TakeRun(src, srcPos);
      } else {
        srcPos' := TakeFirst(src, srcPos);
      }
      ParsedMore(text0, flushed, pos, tb.tokens, savedLit, savedDist, savedLen, d.text);
      if old(LooksNear()) {
        NearMore(text0, d.base, flushed, pos, tb.tokens, savedDist, savedLen, d.text);
      }
      dictSize := if DICT_SIZE - lookaheadSize < dictSize then DICT_SIZE - lookaheadSize else dictSize;
    }

    /** The RLE-only search: a run of the byte before. */
    method FindRun() returns (dist: nat, len: nat)
      requires Valid() && dictSize > 0 && lookaheadSize >= 1
      ensures (dist == 0 && len == 0) || (dist == 1 && 3 <= len <= lookaheadSize && IsMatch(d.text, pos, 1, len))
      ensures if dist == 0 then !IsMatch(d.text, pos, 1, 3) else NoLonger(d.text, pos, 1, len, lookaheadSize)
    {
      hide Slot, U32, Window, Chained, Parsed, Buffered, Counted, TotalLength, IsMatch;
      Wraps(pos, 0);
      var at := Slot(lookaheadPos);
      PreviousSlot(pos);
      SlotBelow(at - 1);
      DictionarySize(d);
      WindowRead(d.bytes[..], d.text, pos - 1, 0);
      var c := d.bytes[Slot(at - 1)];
      dist, len := 0, 0;
      while len < lookaheadSize
        invariant 0 <= len <= lookaheadSize && forall j :: pos <= j < pos + len ==> d.text[j] == c
      {
        WindowRead(d.bytes[..], d.text, pos, len);
        if d.bytes[at + len] != c {
          break;
        }
        len := len + 1;
      }
      RunIsMatch(d.text, pos, len, c);
      RunEnds(d.text, pos, len, lookaheadSize);
      if len < MIN_MATCH_LEN {
        len := 0;
      } else {
        dist := 1;
      }
    }

    /** What the search of this step promises. */
    ghost predicate Found(dist: nat, len: nat)
      reads this, d
    {
      && (raw ==> dist == 0)
      && (if savedLen > 0 then len > savedLen ==> dist > 0 else dist > 0 ==> len >= 3)
      && (dist > 0 ==> len <= lookaheadSize && dist <= dictSize && IsMatch(d.text, pos, dist, len))
    }

    /** What the search at position p may come to, with `maxDist` bytes to look back on, `maxLen` to look at, and a
        match of length `held` held back: no match in raw blocks, the whole run of the byte before if only runs are
        wanted, and otherwise the longest match that the probes suffice for. */
    ghost predicate Outcome(p: nat, maxDist: nat, maxLen: nat, held: nat, dist: nat, len: nat)
      reads d, d.next
    {
      var start := if held != 0 then held else MIN_MATCH_LEN - 1;
      var probes := if start >= 32 then probes1 else probes0;
      if raw || (rle && maxDist == 0) then (dist, len) == (0, start)
      else if rle then
        if dist == 0 then len == 0 && !IsMatch(d.text, p, 1, 3)
        else dist == 1 && 3 <= len && IsMatch(d.text, p, 1, len) && NoLonger(d.text, p, 1, len, maxLen)
      else
        && d.next.Length == DICT_SIZE && BestOf(d.next[..], d.text, p, maxDist, len, maxLen, probes - 1)
        && Longest(d.text, p, maxDist, len, maxLen, probes)
        && ((dist, len) == (0, start) ||
            (start < len && FromChain(d.next[..], d.text, p, maxDist, dist, len, maxLen, 3 * (probes - 1))))
    }

    /** Short matches that are far away, or all short ones, are not worth it; nor is one at the distance of the slot. */
    predicate Dropped(p: nat, dist: nat, len: nat) {
      (len == MIN_MATCH_LEN && dist >= 8 * 1024) || Slot(p) == dist || (filter && len <= 5)
    }

    /** Searches for a match at the current position. */
    method Search() returns (dist: nat, len: nat, ghost dist0: nat, ghost len0: nat)
      requires Valid() && lookaheadSize >= 1
      ensures Found(dist, len) && Outcome(pos, dictSize, lookaheadSize, savedLen, dist0, len0)
      ensures (dist, len) == if Dropped(pos, dist0, len0) then (0, 0) else (dist0, len0)
    {
      hide Slot, U32, Window, Chained, Parsed, Buffered, Counted, TotalLength, IsMatch, BestOf, Longest, NoLonger,
        FromChain;
      ParsedFacts(d.text, flushed, pos, tb.tokens, savedLit, savedDist, savedLen);
      Wraps(pos, 0);
      var at := Slot(lookaheadPos);
      dist, len := 0, if savedLen != 0 then savedLen else MIN_MATCH_LEN - 1;
      if rle || raw {
        if dictSize != 0 && !raw {
          dist, len := FindRun();
        }
      } else {
        dist, len := SearchChain(len);
      }
      dist0, len0 := dist, len;
      if (len == MIN_MATCH_LEN && dist >= 8 * 1024) || at == dist || (filter && len <= 5) {
        dist, len := 0, 0;
      }
    }

    /** The search along the hash chain. */
    method SearchChain(start: nat) returns (dist: nat, len: nat)
      requires Valid() && lookaheadSize >= 1 && 2 <= start < 128
      ensures var probes := if start >= 32 then probes1 else probes0;
              && BestOf(d.next[..], d.text, pos, dictSize, len, lookaheadSize, probes - 1)
              && Longest(d.text, pos, dictSize, len, lookaheadSize, probes)
              && ((dist, len) == (0, start) || (start < len &&
                    FromChain(d.next[..], d.text, pos, dictSize, dist, len, lookaheadSize, 3 * (probes - 1))))
      ensures (dist, len) == (0, start) ||
        (start < len <= lookaheadSize && 1 <= dist <= dictSize && IsMatch(d.text, pos, dist, len))
    {
      hide Slot, U32, Window, Chained, Parsed, Buffered, Counted, TotalLength, IsMatch, BestOf, Longest, OnChain,
        NoLonger, ChainDist;
      var probes := if start >= 32 then probes1 else probes0;
      dist, len := FindMatch(d.bytes, d.next, probes, lookaheadPos, dictSize, lookaheadSize, 0, start, d.text, pos);
      ChainsAreWhole(d, pos, lookaheadSize, dictSize, len, probes);
      if dist > 0 {
        MatchRange(d.text, pos, dist, len);
      } else {
        NoDistance(d.text, pos, dist, len);
      }
    }

    /** The state machine: whether to take the match found, hold it back, or take the one held back. Returns by
        how much to move on. */
    method Decide(dist: nat, len: nat) returns (move: nat)
      requires Valid() && lookaheadSize >= 1 && Found(dist, len) && tb.pos + 6 <= LZ_CODE_BUF_SIZE
      modifies this`savedLit, this`savedDist, this`savedLen, tb, tb.buf, tb.litCounts, tb.distCounts
      ensures tb.Valid() && tb.pos <= old(tb.pos) + 6 && 1 <= move <= lookaheadSize && (rle || raw ==> savedLen == 0)
      ensures Parsed(d.text, flushed, pos + move, tb.tokens, savedLit, savedDist, savedLen)
      ensures old(savedLen) != 1 && Carried(old(tb.tokens), move,
                Chosen(old(savedLit), old(savedDist), old(savedLen), dist, len, d.text[pos], greedy || rle))
    {
      hide Slot, U32, Window, Chained, Parsed, Buffered, Counted, TotalLength, IsMatch;
      ghost var ts := tb.tokens;
      ParsedFacts(d.text, flushed, pos, ts, savedLit, savedDist, savedLen);
      Wraps(pos, 0);
      var at := Slot(lookaheadPos);
      var here := d.TextAt(pos, at);
      Unsaved(d.text, flushed, pos, ts, savedLit, savedDist);
      move := 1;
      if savedLen != 0 {
        if len > savedLen {
          TextByte(d, pos - 1);
          UnsaveLiteral(d.text, flushed, pos, ts, savedLit, savedDist, savedLen);
          tb.RecordLiteral(savedLit);
          move := Take(dist, len, here, len >= 128);
          assert ts + [Literal(old(savedLit))] + [Match(len, dist)] == ts + [Literal(old(savedLit)), Match(len, dist)];
        } else {
          UnsaveMatch(d.text, flushed, pos, ts, savedLit, savedDist, savedLen);
          tb.RecordMatch(savedLen, savedDist);
          move := savedLen - 1;
          savedLen := 0;
          Unsaved(d.text, flushed, pos + move, tb.tokens, savedLit, savedDist);
        }
      } else if dist == 0 {
        LiteralParsed(d.text, flushed, pos, ts, here);
        tb.RecordLiteral(here);
        Unsaved(d.text, flushed, pos + 1, tb.tokens, savedLit, savedDist);
      } else {
        move := Take(dist, len, here, greedy || rle || len >= 128);
      }
      assert ts + [] == ts;
    }

    /** The tokens and what is held back are those of the choice. */
    ghost predicate Carried(ts: seq<Token>, move: nat, c: Choice)
      reads this, tb
    {
      && tb.tokens == ts + c.tokens && move == c.move && savedLen == c.len
      && (savedLen > 0 ==> savedLit == c.lit && savedDist == c.dist)
    }

    /** Takes a match at once, or holds it back in favour of the current byte. */
    method Take(dist: nat, len: nat, here: nat, now: bool) returns (move: nat)
      requires d.Valid() && tb.Valid() && Placed() && Parsed(d.text, flushed, pos, tb.tokens, 0, 0, 0)
      requires 1 <= dist && 3 <= len <= lookaheadSize && dist <= dictSize && dictSize + lookaheadSize <= DICT_SIZE
      requires IsMatch(d.text, pos, dist, len)
      requires here == d.text[pos] && tb.pos + 4 <= LZ_CODE_BUF_SIZE && (len >= 128 ==> now) && (rle || raw ==> now)
      modifies this`savedLit, this`savedDist, this`savedLen, tb, tb.buf, tb.litCounts, tb.distCounts
      ensures tb.Valid() && tb.pos <= old(tb.pos) + 4 && 1 <= move <= lookaheadSize && (now ==> savedLen == 0)
      ensures Carried(old(tb.tokens), move, if now then Choice([Match(len, dist)], 0, 0, 0, len)
                                            else Choice([], here, dist, len, 1))
      ensures Parsed(d.text, flushed, pos + move, tb.tokens, savedLit, savedDist, savedLen)
    {
      hide Slot, U32, Window, Chained, Parsed, Buffered, Counted, TotalLength, IsMatch;
      move := 1;
      if now {
        MatchParsed(d.text, flushed, pos, tb.tokens, dist, len);
        tb.RecordMatch(len, dist);
        savedLen := 0;
        move := len;
        Unsaved(d.text, flushed, pos + move, tb.tokens, savedLit, savedDist);
      } else {
        SavedParsed(d.text, flushed, pos, tb.tokens, dist, len);
        savedLit, savedDist, savedLen := here, dist, len;
        assert tb.tokens + [] == tb.tokens;
      }
    }

    /** Moves the lookahead forward. */
    method Advance(move: nat)
      requires Placed() && 1 <= move <= lookaheadSize && dictSize + lookaheadSize <= DICT_SIZE
      modifies this`lookaheadPos, this`lookaheadSize, this`dictSize, this`pos
      ensures Placed() && pos == old(pos) + move && lookaheadSize == old(lookaheadSize) - move
      ensures dictSize + lookaheadSize <= DICT_SIZE
    {
      hide U32;
      Wraps(pos, move);
      lookaheadPos := U32(lookaheadPos + move);
      lookaheadSize := lookaheadSize - move;
      dictSize := if dictSize + move < DICT_SIZE then dictSize + move else DICT_SIZE;
      pos := pos + move;
    }

    lemma StaysNear(dist: nat, len: nat)
      requires Valid() && lookaheadSize >= 1 && Found(dist, len)
      ensures savedLen != 1
      ensures LooksNear() ==>
        var c := Chosen(savedLit, savedDist, savedLen, dist, len, d.text[pos], greedy || rle);
        Near(d.text, d.base, flushed, pos + c.move, tb.tokens + c.tokens, c.dist, c.len)
    {
      hide Slot, U32, Window, Chained, Parsed, Near, Buffered, Counted, TotalLength, IsMatch, Chosen;
      ParsedFacts(d.text, flushed, pos, tb.tokens, savedLit, savedDist, savedLen);
      if LooksNear() {
        TextByte(d, pos);
        DictionaryBytes(d);
        if dist > 0 {
          MatchRange(d.text, pos, dist, len);
        }
        NearStep(d.text, d.base, flushed, pos, tb.tokens, savedLit, savedDist, savedLen, dist, len, d.text[pos],
          greedy || rle);
      }
    }

    /** One step of the parser: the tokens keep standing for exactly the text that has been passed. The search comes to
        (dist0, len0), and tokens, held-back match and position change by the choice that follows from it. */
    method Step() returns (ghost dist0: nat, ghost len0: nat)
      requires Valid() && lookaheadSize >= 1 && tb.pos + 6 <= LZ_CODE_BUF_SIZE
      modifies this`lookaheadPos, this`lookaheadSize, this`dictSize, this`pos, this`savedLit, this`savedDist,
        this`savedLen, tb, tb.buf, tb.litCounts, tb.distCounts
      ensures Valid() && d.text == old(d.text) && lookaheadSize < old(lookaheadSize) && tb.pos <= old(tb.pos) + 6
      ensures Outcome(old(pos), old(dictSize), old(lookaheadSize), old(savedLen), dist0, len0)
      ensures old(savedLen) != 1 && old(pos) < pos <= |d.text|
      ensures var (dist, len) := if Dropped(old(pos), dist0, len0) then (0, 0) else (dist0, len0);
              Carried(old(tb.tokens), pos - old(pos),
                Chosen(old(savedLit), old(savedDist), old(savedLen), dist, len, d.text[old(pos)], greedy || rle))
      ensures old(LooksNear()) ==> LooksNear()
    {
      hide Slot, U32, Window, Chained, Parsed, Near, Buffered, Counted, TotalLength, IsMatch, BestOf, Longest, NoLonger,
        FromChain, Chosen, Dropped;
      var dist, len;
      dist, len, dist0, len0 := Search();
      StaysNear(dist, len);
      ghost var c := Chosen(savedLit, savedDist, savedLen, dist, len, d.text[pos], greedy || rle);
      var move := Decide(dist, len);
      if old(LooksNear()) && savedLen == 0 {
        NothingHeld(d.text, d.base, flushed, pos + move, tb.tokens, c.dist, savedDist);
      }
      Advance(move);
    }
  }

  lemma TooShort(text: seq<nat>, pos: nat, maxDist: nat, len: nat, maxLen: nat, probes: nat)
    requires |text| < pos + 3
    ensures Longest(text, pos, maxDist, len, maxLen, probes)
  {
    hide IsMatch, Reachable, Rivals;
  }

  /** The chains of the dictionary hold all positions, so that the search along them is exhaustive. */
  lemma ChainsAreWhole(d: Dictionary, pos: nat, maxLen: nat, maxDist: nat, len: nat, probes: nat)
    requires d.Valid() && d.Complete() && |d.text| == pos + maxLen && d.base + maxDist <= pos
    requires maxDist + maxLen <= DICT_SIZE && BestOf(d.next[..], d.text, pos, maxDist, len, maxLen, probes - 1)
    ensures Longest(d.text, pos, maxDist, len, maxLen, probes)
  {
    hide Window, Chained, BestOf, Findable;
    if d.base + 2 <= |d.text| {
      ChainFindsLongest(d.hash[..], d.next[..], d.text, d.base, d.linked, pos, maxDist, len, maxLen, probes);
    } else {
      TooShort(d.text, pos, maxDist, len, maxLen, probes);
    }
  }

  /** The hash so far is that of the last two bytes, to which any third one may be added. */
  ghost predicate Rolling(text: seq<nat>, h: nat)
    requires |text| >= 2
  {
    forall c: nat :: Xor(32 * h, c, 15) == Hash3(text[|text| - 2], text[|text| - 1], c)
  }

  lemma StartRolling(d: Dictionary, insPos: nat, h: nat)
    requires d.Valid() && |d.text| >= 2 && insPos == U32(|d.text| - 2)
    requires 0 <= Slot(insPos) < d.bytes.Length && 0 <= Slot(insPos + 1) < d.bytes.Length
    requires h == Xor(32 * d.bytes[Slot(insPos)], d.bytes[Slot(insPos + 1)], 13)
    ensures Rolling(d.text, h)
  {
    hide Slot, U32, Window, Chained, Xor, Hash3;
    LastTwo(d, |d.text| - 2, insPos);
    forall c: nat ensures Xor(32 * h, c, 15) == Hash3(d.text[|d.text| - 2], d.text[|d.text| - 1], c) {
      HashIs(d.text[|d.text| - 2], d.text[|d.text| - 1], c);
    }
  }

  /** The dictionary bytes at a position and the next one are those of the text. */
  lemma LastTwo(d: Dictionary, p: nat, at: nat)
    requires d.Valid() && p + 2 <= |d.text| <= p + DICT_SIZE && at == U32(p)
    ensures 0 <= Slot(at) < d.bytes.Length && 0 <= Slot(at + 1) < d.bytes.Length
    ensures d.bytes[Slot(at)] == d.text[p] && d.bytes[Slot(at + 1)] == d.text[p + 1]
  {
    hide Window, Chained, Slot, U32;
    DictionarySize(d);
    SlotBelow(at);
    SlotBelow(at + 1);
    Wraps(p, 0);
    Wraps(p, 1);
    WindowRead(d.bytes[..], d.text, p, 0);
    WindowRead(d.bytes[..], d.text, p + 1, 0);
  }

  lemma Rolled(text: seq<nat>, h: nat, c: nat)
    requires |text| >= 2 && Rolling(text, h)
    ensures Xor(32 * h, c, 15) == HashAt(text + [c], |text| - 2) && Rolling(text + [c], Xor(32 * h, c, 15))
  {
    hide Xor, Hash3;
    var a, b := text[|text| - 2], text[|text| - 1];
    assert Xor(32 * h, c, 15) == Hash3(a, b, c);
    forall e: nat ensures Xor(32 * Hash3(a, b, c), e, 15) == Hash3(b, c, e) {
      HashRolls(a, b, c, e);
    }
  }

  lemma DirectHash(d: Dictionary, insPos: nat, h: nat)
    requires d.Valid() && |d.text| >= 3 && insPos == U32(|d.text| - 3)
    requires 0 <= Slot(insPos) < d.bytes.Length && 0 <= Slot(insPos + 1) < d.bytes.Length
    requires h == Xor(Xor(1024 * d.bytes[Slot(insPos)], 32 * d.bytes[Slot(insPos + 1)], 15), d.text[|d.text| - 1], 15)
    ensures h == HashAt(d.text, |d.text| - 3)
  {
    hide Slot, U32, Window, Chained, Xor, Hash3;
    LastTwo(d, |d.text| - 3, insPos);
    HashDirect(d.text[|d.text| - 3], d.text[|d.text| - 2], d.text[|d.text| - 1]);
  }

  lemma NothingParsed()
    ensures Parsed([], 0, 0, [], 0, 0, 0) && U32(0) == 0
  {
  }

  lemma PreviousSlot(pos: nat)
    requires pos >= 1
    ensures Slot(Slot(pos) - 1) == Slot(pos - 1)
  {
    var q, r := pos / 32768, pos % 32768;
    assert pos == q * 32768 + r;
    SlotShift(r - 1, q);
  }

  lemma NoDistance(text: seq<nat>, pos: nat, dist: nat, len: nat)
    requires dist == 0
    ensures !IsMatch(text, pos, dist, len)
  {
  }

  lemma Unsaved(text: seq<nat>, flushed: nat, pos: nat, ts: seq<Token>, lit: nat, dist: nat)
    ensures Parsed(text, flushed, pos, ts, lit, dist, 0) <==> Parsed(text, flushed, pos, ts, 0, 0, 0)
  {
    hide Valid, Expand, IsMatch;
  }

  lemma TextByte(d: Dictionary, p: nat)
    requires d.Valid() && p < |d.text|
    ensures d.text[p] < 256
  {
  }

  lemma DictionaryBytes(d: Dictionary)
    requires d.Valid()
    ensures AllBytes(d.text)
  {
  }

  lemma DictionarySize(d: Dictionary)
    requires d.Valid()
    ensures d.bytes.Length == DICT_BYTES && d.bytes != d.next && d.bytes != d.hash
  {
    WindowSize(d.bytes[..], d.text);
  }
}