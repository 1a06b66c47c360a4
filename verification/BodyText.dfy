/** Inflating the body of a compressed block gives the text of its tokens. */
module BodyText {
  import opened Sums
  import opened Bits
  import opened CanonicalCode
  import opened InflateTable
  import opened InflateDecode
  import opened InflateSpec
  import opened LzTokens
  import opened LzBuffer
  import opened BlockWriter

  /** The result is this text and the bits behind it, or as much of the text as the buffer holds. */
  ghost predicate Yields(e: End, text: seq<nat>, rest: seq<bool>) {
    if |text| <= |e.place.out| then
      e.status == Done && e.place.pos == |text| && e.place.out[..|text|] == text && e.place.bits == rest
    else
      e.status == HasMoreOutput && e.place.pos == |e.place.out| && e.place.out == text[..|e.place.out|]
  }

  // ---------------------------------------------------------------- numbers and symbols

  lemma NumberFirst(v: nat, n: nat, tail: seq<bool>)
    ensures |Bin(v, n) + tail| >= n && (Bin(v, n) + tail)[n..] == tail && Val((Bin(v, n) + tail)[..n]) == v % Pow2(n)
  {
    LowBitsMod(v, n);
    LowBitsBin(v, n, n);
    hide Bin;
    assert (Bin(v, n) + tail)[..n] == Bin(v, n) == Bin(v, n)[..n];
  }

  lemma SymbolFirst(sz: seq<nat>, s: nat, tail: seq<bool>)
    requires Accepted(sz) && s < |sz| && sz[s] > 0
    ensures CodeAt(sz, Word(sz, s) + tail) == Found(s, sz[s]) && (Word(sz, s) + tail)[sz[s]..] == tail
  {
    hide Accepted, Word, CodeAt;
    assert Starts(sz, s, Word(sz, s) + tail);
    StartsFound(sz, s, Word(sz, s) + tail);
  }

  // ---------------------------------------------------------------- one token

  /** Both codes are usable and can express the end of a block. */
  ghost predicate GoodCodes(l: seq<nat>, d: seq<nat>) {
    TwoCodes(l, d) && Accepted(l) && Accepted(d) && l[256] > 0
  }

  lemma LiteralStep(l: seq<nat>, d: seq<nat>, t: Token, tail: seq<bool>)
    requires GoodCodes(l, d) && Coded(l, d, t) && t.Literal?
    ensures NextStep(l, d, TokenBits(l, d, t) + tail) == PutByte(t.b, tail)
  {
    hide CodeAt, Word, Accepted;
    assert TokenBits(l, d, t) + tail == Word(l, LitLenSym(t)) + tail;
    SymbolFirst(l, LitLenSym(t), tail);
  }

  lemma EndStep(l: seq<nat>, d: seq<nat>, tail: seq<bool>)
    requires GoodCodes(l, d)
    ensures NextStep(l, d, Word(l, 256) + tail) == EndOfBlock(tail)
  {
    hide CodeAt, Word, Accepted;
    SymbolFirst(l, 256, tail);
  }

  lemma DistanceStep(d: seq<nat>, sym: nat, len: nat, y: nat, tail: seq<bool>)
    requires 1 <= |d| <= 32 && Accepted(d) && y < DICT_SIZE && DistSym(y) < |d| && d[DistSym(y)] > 0
    ensures AfterLength(d, sym, len, Word(d, DistSym(y)) + (Bin(y, DistExtra(y)) + tail))
         == CopyBack(sym, len, y + 1, tail)
  {
    hide CodeAt, Word, Accepted, DistSym, DistExtra, DIST_BASE, DIST_EXTRA, Bin, Val, Pow2;
    var t := Bin(y, DistExtra(y)) + tail;
    SymbolFirst(d, DistSym(y), t);
    DistanceRoundTrip(y);
    NumberFirst(y, DistExtra(y), tail);
  }

  lemma MatchStep(l: seq<nat>, d: seq<nat>, t: Token, tail: seq<bool>)
    requires GoodCodes(l, d) && Coded(l, d, t) && t.Match?
    ensures NextStep(l, d, TokenBits(l, d, t) + tail) == CopyBack(LitLenSym(t), t.len, t.dist, tail)
  {
    hide CodeAt, Word, Accepted, LenSym, LenExtra, DistSym, DistExtra, LENGTH_BASE, LENGTH_EXTRA, Bin, Val, Pow2,
      AfterLength;
    var x, y := t.len - 3, t.dist - 1;
    var t2 := Word(d, DistSym(y)) + (Bin(y, DistExtra(y)) + tail);
    var t1 := Bin(x, LenExtra(x)) + t2;
    assert TokenBits(l, d, t) + tail == Word(l, LenSym(x)) + t1 by {
      MatchBits(Word(l, LenSym(x)), Bin(x, LenExtra(x)), Word(d, DistSym(y)), Bin(y, DistExtra(y)), tail);
    }
    SymbolFirst(l, LenSym(x), t1);
    LengthRoundTrip(x);
    NumberFirst(x, LenExtra(x), t2);
    DistanceStep(d, LenSym(x), t.len, y, tail);
  }

  lemma MatchBits(a: seq<bool>, b: seq<bool>, c: seq<bool>, e: seq<bool>, tail: seq<bool>)
    ensures a + (b + c + e) + tail == a + (b + (c + (e + tail)))
  {
  }

  lemma {:induction false} CopyPrefix(out: seq<nat>, dist: nat, len: nat, n: nat)
    requires 1 <= dist <= |out| && n <= len
    ensures Copy(out, dist, len)[..|out| + n] == Copy(out, dist, n)
    decreases len
  {
    if n < len {
      CopyPrefix(out, dist, len - 1, n);
    }
  }

  /** Copying inside the buffer appends the overlapping copy to the text. */
  lemma {:induction false} CopyInIsCopy(out: seq<nat>, pos: nat, dist: nat, len: nat)
    requires 1 <= dist <= pos && pos + len <= |out|
    ensures CopyIn(out, pos, dist, len)[..pos + len] == Copy(out[..pos], dist, len)
  {
    if len > 0 {
      CopyInIsCopy(out, pos, dist, len - 1);
      var r := CopyIn(out, pos, dist, len - 1);
      assert CopyIn(out, pos, dist, len)[..pos + len] == r[..pos + len - 1] + [r[pos + len - 1 - dist]];
    }
  }

  /** What a token does to the buffer. */
  lemma TokenTaken(s: Step, t: Token, p: Place)
    requires p.pos <= |p.out| && Applies(t, p.out[..p.pos])
    requires t.Literal? ==> s.PutByte? && s.b == t.b
    requires t.Match? ==> s.CopyBack? && s.len == t.len && s.dist == t.dist
    ensures var text := LzTokens.Apply(p.out[..p.pos], t);
            if |text| <= |p.out| then
              Goes(s, p) && Take(s, p).pos == |text| && Take(s, p).out[..|text|] == text && Take(s, p).bits == s.rest
            else
              !Goes(s, p) && StopAt(s, p).status == HasMoreOutput && StopAt(s, p).place.out == text[..|p.out|]
  {
    hide CopyIn, Copy;
    var n := |p.out|;
    if t.Match? {
      if p.pos + t.len <= n {
        CopyInIsCopy(p.out, p.pos, t.dist, t.len);
      } else {
        CopyInIsCopy(p.out, p.pos, t.dist, n - p.pos);
        CopyPrefix(p.out[..p.pos], t.dist, t.len, n - p.pos);
        var c := CopyIn(p.out, p.pos, t.dist, n - p.pos);
        assert c[..n] == c;
      }
    } else if p.pos < n {
      assert p.out[p.pos := t.b][..p.pos + 1] == p.out[..p.pos] + [t.b];
    } else {
      assert p.out[..n] == p.out == (p.out[..p.pos] + [t.b])[..n];
    }
  }

  // ---------------------------------------------------------------- all tokens

  /** A body with one token more in front. */
  lemma BodyFirst(l: seq<nat>, d: seq<nat>, ts: seq<Token>, rest: seq<bool>)
    requires AllCoded(l, d, ts) && |l| > 256 && ts != []
    ensures AllCoded(l, d, ts[1..]) && Coded(l, d, ts[0])
    ensures BodyBits(l, d, ts) + rest == TokenBits(l, d, ts[0]) + (BodyBits(l, d, ts[1..]) + rest)
  {
    hide TokenBits, Word, TokensBits, Coded;
    TokensBitsFirst(l, d, ts);
    Regroup(TokenBits(l, d, ts[0]), TokensBits(l, d, ts[1..]), Word(l, 256), rest);
  }

  lemma Regroup(a: seq<bool>, b: seq<bool>, c: seq<bool>, rest: seq<bool>)
    ensures a + b + c + rest == a + (b + c + rest)
  {
  }

  lemma TextFirst(ts: seq<Token>, before: seq<nat>)
    requires Valid(ts, before) && ts != []
    ensures Applies(ts[0], before) && Valid(ts[1..], LzTokens.Apply(before, ts[0]))
    ensures Expand(ts, before) == Expand(ts[1..], LzTokens.Apply(before, ts[0]))
    ensures LzTokens.Apply(before, ts[0]) <= Expand(ts, before)
  {
    hide LzTokens.Apply, Applies;
    Split(ts, 1, before);
    assert ts[..1] == [] + [ts[0]];
    PushToken([], ts[0], before);
    ExpandKeeps(ts[1..], LzTokens.Apply(before, ts[0]));
  }

  lemma StepBody(l: seq<nat>, d: seq<nat>, p: Place)
    requires TwoCodes(l, d) && p.pos <= |p.out|
    ensures var s := NextStep(l, d, p.bits);
            BodyEnd(l, d, p) == if Goes(s, p) then BodyEnd(l, d, Take(s, p)) else StopAt(s, p)
  {
    hide NextStep;
    if Goes(NextStep(l, d, p.bits), p) {
      TakeOnward(l, d, p);
    }
  }

  /** For any block the codes can express, inflating its bits gives the expansion of its tokens, overlapping copies
      included, and leaves exactly what follows; a full buffer holds the beginning of the text. */
  lemma {:induction false} BodyInflates(l: seq<nat>, d: seq<nat>, ts: seq<Token>, p: Place, rest: seq<bool>)
    requires GoodCodes(l, d) && AllCoded(l, d, ts) && p.pos <= |p.out| && Valid(ts, p.out[..p.pos])
    requires p.bits == BodyBits(l, d, ts) + rest
    ensures Yields(BodyEnd(l, d, p), Expand(ts, p.out[..p.pos]), rest)
    decreases |ts|
  {
    hide NextStep, Coded, TokenBits, BodyBits, Goes, Take, StopAt, BodyEnd, Valid, Accepted, LzTokens.Apply, Applies,
      Word;
    StepBody(l, d, p);
    if ts == [] {
      EmptyBody(l, d, p, rest);
    } else {
      var t, s := ts[0], NextStep(l, d, p.bits);
      var tail := BodyBits(l, d, ts[1..]) + rest;
      BodyFirst(l, d, ts, rest);
      TextFirst(ts, p.out[..p.pos]);
      if t.Literal? {
        LiteralStep(l, d, t, tail);
      } else {
        MatchStep(l, d, t, tail);
      }
      TokenTaken(s, t, p);
      if Goes(s, p) {
        BodyInflates(l, d, ts[1..], Take(s, p), rest);
      } else {
        OutKept(s, p);
      }
    }
  }

  lemma OutKept(s: Step, p: Place)
    requires p.pos <= |p.out| && !Goes(s, p)
    ensures |StopAt(s, p).place.out| == |p.out|
  {
    hide CopyIn;
  }

  lemma EmptyBody(l: seq<nat>, d: seq<nat>, p: Place, rest: seq<bool>)
    requires GoodCodes(l, d) && AllCoded(l, d, []) && p.pos <= |p.out| && p.bits == BodyBits(l, d, []) + rest
    ensures var s := NextStep(l, d, p.bits);
            !Goes(s, p) && Yields(StopAt(s, p), Expand([], p.out[..p.pos]), rest)
  {
    hide NextStep, Word, Accepted;
    NoTokens(l, d);
    assert BodyBits(l, d, []) == Word(l, 256);
    EndStep(l, d, rest);
  }
}
