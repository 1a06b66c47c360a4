/** The decoder's tables, and its loops over the body of a compressed block. */
module InflateBlock {
  import opened Words
  import opened Bits
  import opened CanonicalCode
  import opened InflateTable
  import opened InflateBuild
  import opened InflateDecode
  import opened InflateSpec
  import opened BitReader

  /** tinfl_huff_table */
  class HuffTable {
    const codeSize: array<nat>
    const lookUp: array<int>
    const tree: array<int>
    ghost var sz: seq<nat>
    ghost var entries: Entries
    ghost var next: int

    ghost predicate Shape() {
      codeSize.Length == 288 && lookUp.Length == FAST_LOOKUP_SIZE && tree.Length == TREE_SIZE && lookUp != tree
    }

    /** The table has been built for the sizes `sz`. */
    ghost predicate Ready()
      reads this, lookUp, tree
    {
      Shape() && Table(sz, entries, next, lookUp[..], tree[..])
    }

    constructor ()
      ensures Shape() && fresh(codeSize) && fresh(lookUp) && fresh(tree)
    {
      codeSize := new nat[288](_ => 0);
      lookUp := new int[FAST_LOOKUP_SIZE](_ => 0);
      tree := new int[TREE_SIZE](_ => 0);
      sz, entries, next := [], map[], -1;
    }

    /** Builds the table for the first n sizes, if they are acceptable. */
    method Build(n: nat) returns (ok: bool)
      requires Shape() && n <= 288 && Sizes(codeSize[..n])
      modifies this, lookUp, tree
      ensures ok <==> Accepted(codeSize[..n])
      ensures ok ==> Ready() && sz == codeSize[..n]
    {
      hide Accepted, Sizes, Built;
      sz := codeSize[..n];
      ok, entries, next := BuildTable(codeSize, n, lookUp, tree);
    }

    /** TINFL_HUFF_DECODE */
    method NextSymbol(r: BitReader) returns (ok: bool, sym: nat)
      requires Ready() && r.Valid()
      modifies r
      ensures r.Valid()
      ensures ok <==> CodeAt(sz, old(r.Remaining())).Found?
      ensures ok ==> sym == CodeAt(sz, old(r.Remaining())).sym
      ensures ok ==> r.Remaining() == old(r.Remaining())[CodeAt(sz, old(r.Remaining())).size..]
    {
      hide Table, CodeAt, Bin;
      ok, sym := HuffDecode(r, lookUp, tree, sz, entries, next);
    }

    /** The same with the refill of the fast loop, which takes two bytes whenever fewer than 15 bits are left. */
    method FastSymbol(r: BitReader) returns (sym: nat)
      requires Ready() && r.Valid() && r.cur + 2 <= |r.input|
      modifies r
      ensures r.Valid() && r.cur <= old(r.cur) + 2
      ensures CodeAt(sz, old(r.Remaining())).Found? && sym == CodeAt(sz, old(r.Remaining())).sym
      ensures r.Remaining() == old(r.Remaining())[CodeAt(sz, old(r.Remaining())).size..]
    {
      hide Table, CodeAt, Bin, LengthAt;
      if r.numBits < 15 {
        r.TakeByte();
        r.TakeByte();
      }
      var codeLen;
      sym, codeLen := Decode(r, lookUp, tree, sz, entries, next);
      r.Drop(codeLen);
    }
  }

  /** Both tables are ready, whatever codes they hold. */
  ghost predicate Usable(lit: HuffTable, dist: HuffTable)
    reads lit, lit.lookUp, lit.tree, dist, dist.lookUp, dist.tree
  {
    lit.Ready() && dist.Ready() && TwoCodes(lit.sz, dist.sz)
  }

  // ---------------------------------------------------------------- copying

  method CopyByte(out: array<nat>, pos: nat, dist: nat, ghost before: seq<nat>, ghost start: nat)
    requires start <= pos < out.Length == |before| && dist <= start
    requires out[..] == CopyIn(before, start, dist, pos - start)
    modifies out
    ensures out[..] == CopyIn(before, start, dist, pos + 1 - start)
  {
    out[pos] := out[pos - dist];
  }

  /** Three bytes at once, unless the buffer ends before; then the next write would lie outside. */
  method CopyThree(out: array<nat>, pos: nat, dist: nat, ghost before: seq<nat>, ghost start: nat) returns (ok: bool)
    requires start <= pos <= out.Length == |before| && dist <= start
    requires out[..] == CopyIn(before, start, dist, pos - start)
    modifies out
    ensures ok <==> pos + 3 <= out.Length
    ensures out[..] == CopyIn(before, start, dist, (if ok then pos + 3 else out.Length) - start)
  {
    hide CopyIn;
    for i := 0 to 3
      invariant pos + i <= out.Length && out[..] == CopyIn(before, start, dist, pos + i - start)
    {
      if pos + i >= out.Length {
        ok := false;
        return;
      }
      CopyByte(out, pos + i, dist, before, start);
    }
    ok := true;
  }

  /** Copies a match: byte by byte until the output is full if it does not fit, else three bytes at a time, at least
      once. Distances below 1 occur only in malformed input and leave the output as it is. */
  method CopyMatch(out: array<nat>, pos0: nat, dist: nat, len: nat) returns (status: Status, pos: nat)
    requires dist <= pos0 <= out.Length
    modifies out
    ensures var room := out.Length - pos0;
            && status == (if len > room then HasMoreOutput else if Width(len) > room then Overrun else Done)
            && out[..] == CopyIn(old(out[..]), pos0, dist, if status == Done then Width(len) else room)
            && pos == if status == Done then pos0 + Width(len) else if status == Overrun then pos0 else out.Length
  {
    hide CopyIn;
    ghost var before := out[..];
    NothingCopied(before, pos0, dist);
    pos := pos0;
    status := Done;
    var counter: int := len;
    if pos + len > out.Length {
      while counter > 0
        invariant 0 <= counter <= len && pos == pos0 + (len - counter) <= out.Length
        invariant out[..] == CopyIn(before, pos0, dist, pos - pos0)
      {
        if pos >= out.Length {
          status := HasMoreOutput;
          return;
        }
        CopyByte(out, pos, dist, before, pos0);
        pos := pos + 1;
        counter := counter - 1;
      }
    } else {
      var ok := CopyThree(out, pos, dist, before, pos0);
      if !ok {
        status := Overrun;
        return;
      }
      pos, counter := pos + 3, counter - 3;
      while counter > 2
        invariant counter == len - (pos - pos0) && pos0 + 3 <= pos <= out.Length && (counter < 0 ==> pos == pos0 + 3)
        invariant out[..] == CopyIn(before, pos0, dist, pos - pos0)
      {
        ok := CopyThree(out, pos, dist, before, pos0);
        pos, counter := pos + 3, counter - 3;
      }
      if counter > 0 {
        CopyByte(out, pos, dist, before, pos0);
        if counter > 1 {
          CopyByte(out, pos + 1, dist, before, pos0);
        }
        pos := pos + counter;
      }
    }
  }

  lemma NothingCopied(out: seq<nat>, pos: nat, dist: nat)
    requires dist <= pos <= |out|
    ensures CopyIn(out, pos, dist, 0) == out
  {
  }

  // ---------------------------------------------------------------- the loops

  /** Decoding from p goes on like decoding from q. */
  ghost predicate Same(l: seq<nat>, d: seq<nat>, p: Place, q: Place) {
    TwoCodes(l, d) && p.pos <= |p.out| && q.pos <= |q.out| && Halt(l, d, p) == Halt(l, d, q)
  }

  lemma SameTrans(l: seq<nat>, d: seq<nat>, p: Place, q: Place, r: Place)
    requires Same(l, d, p, q) && Same(l, d, q, r)
    ensures Same(l, d, p, r)
  {
  }

  lemma SameSelf(l: seq<nat>, d: seq<nat>, p: Place)
    requires TwoCodes(l, d) && p.pos <= |p.out|
    ensures Same(l, d, p, p)
  {
  }

  /** A step that can be carried out may be. */
  lemma OneStep(l: seq<nat>, d: seq<nat>, p: Place)
    requires TwoCodes(l, d) && Goes(NextStep(l, d, p.bits), p)
    ensures Same(l, d, p, Take(NextStep(l, d, p.bits), p))
  {
    hide NextStep;
    TakeOnward(l, d, p);
  }

  /** Where a step stands that cannot be carried out, decoding halts. */
  lemma Halted(l: seq<nat>, d: seq<nat>, p: Place, q: Place)
    requires Same(l, d, p, q) && !Goes(NextStep(l, d, q.bits), q)
    ensures Halt(l, d, p) == q && BodyEnd(l, d, p) == StopAt(NextStep(l, d, q.bits), q)
  {
    hide NextStep;
  }

  /** The literal loop has come to q, where it has read a length or end-of-block symbol, so that `bits` are left. */
  ghost predicate AtSymbol(d: seq<nat>, s: Step, sym: nat, bits: seq<bool>) {
    1 <= |d| <= 32 && 256 <= sym < 288 && s == AfterSymbol(d, sym, bits)
  }

  /** The literal loop cannot go on at q. */
  ghost predicate Stuck(s: Step, p: Place, status: Status) {
    || (status == NeedsInput && s.NoStep?)
    || (status == HasMoreOutput && s.PutByte? && p.pos == |p.out|)
  }

  /** What the symbol at hand means. */
  lemma SymbolMeans(l: seq<nat>, d: seq<nat>, bits: seq<bool>)
    requires TwoCodes(l, d)
    ensures CodeAt(l, bits).NoCode? ==> NextStep(l, d, bits).NoStep?
    ensures CodeAt(l, bits).Found? ==>
      var sym, rest := CodeAt(l, bits).sym, bits[CodeAt(l, bits).size..];
      && sym < 288 && NextStep(l, d, bits) == AfterSymbol(d, sym, rest) && (Bit8(sym) <==> sym >= 256)
      && (sym < 256 ==> NextStep(l, d, bits) == PutByte(sym, rest) && U8(sym) == sym)
  {
    hide CodeAt;
  }

  /** x & 256 */
  predicate Bit8(x: nat) {
    x / 256 % 2 == 1
  }

  /** One symbol, with all checks. */
  method SlowLiteral(r: BitReader, lit: HuffTable, out: array<nat>, pos: nat, ghost d: seq<nat>)
    returns (more: bool, status: Status, sym: nat, pos': nat, ghost q: Place)
    requires r.Valid() && lit.Ready() && TwoCodes(lit.sz, d) && pos <= out.Length
    modifies r, out
    ensures r.Valid() && pos <= pos' <= out.Length && q.out == out[..] && q.pos == pos'
    ensures Same(lit.sz, d, Place(old(r.Remaining()), old(out[..]), pos), q)
    ensures more ==> pos < pos' && q.bits == r.Remaining()
    ensures !more && status == Done ==> AtSymbol(d, NextStep(lit.sz, d, q.bits), sym, r.Remaining())
    ensures !more && status != Done ==> Stuck(NextStep(lit.sz, d, q.bits), q, status)
  {
    hide Table, NextStep, CodeAt, AfterSymbol, Same, Bit8, U8;
    more, status, pos' := false, Done, pos;
    q := Place(r.Remaining(), out[..], pos);
    SameSelf(lit.sz, d, q);
    SymbolMeans(lit.sz, d, q.bits);
    var ok;
    ok, sym := lit.NextSymbol(r);
    if !ok {
      status := NeedsInput;
    } else if sym < 256 {
      if pos >= out.Length {
        status := HasMoreOutput;
      } else {
        OneStep(lit.sz, d, q);
        out[pos] := U8(sym);
        more, pos', q := true, pos + 1, Place(r.Remaining(), out[..], pos + 1);
      }
    }
  }

  /** Two symbols at once, when at least four bytes of input and two of output are left. */
  method FastLiterals(r: BitReader, lit: HuffTable, out: array<nat>, pos: nat, ghost d: seq<nat>)
    returns (more: bool, sym: nat, pos': nat, ghost q: Place)
    requires r.Valid() && lit.Ready() && TwoCodes(lit.sz, d)
    requires r.cur + 4 <= |r.input| && pos + 2 <= out.Length
    modifies r, out
    ensures r.Valid() && pos <= pos' <= out.Length && q.out == out[..] && q.pos == pos'
    ensures Same(lit.sz, d, Place(old(r.Remaining()), old(out[..]), pos), q)
    ensures more ==> pos < pos' && q.bits == r.Remaining()
    ensures !more ==> AtSymbol(d, NextStep(lit.sz, d, q.bits), sym, r.Remaining())
  {
    hide Table, NextStep, CodeAt, AfterSymbol, Same, Bit8, U8;
    more, pos' := false, pos;
    ghost var p := Place(r.Remaining(), out[..], pos);
    q := p;
    SameSelf(lit.sz, d, p);
    SymbolMeans(lit.sz, d, p.bits);
    sym := lit.FastSymbol(r);
    if !Bit8(sym) {
      OneStep(lit.sz, d, p);
      ghost var p1 := Take(NextStep(lit.sz, d, p.bits), p);
      SymbolMeans(lit.sz, d, p1.bits);
      var sym2 := lit.FastSymbol(r);
      out[pos] := U8(sym);
      pos', q := pos + 1, p1;
      if Bit8(sym2) {
        sym := sym2;
      } else {
        OneStep(lit.sz, d, p1);
        out[pos'] := U8(sym2);
        more, pos', q := true, pos' + 1, Take(NextStep(lit.sz, d, p1.bits), p1);
        SameTrans(lit.sz, d, p, p1, q);
      }
    }
  }

  /** Decodes literals up to the next length or end-of-block symbol. */
  method DecodeLiterals(r: BitReader, lit: HuffTable, out: array<nat>, pos: nat, ghost d: seq<nat>)
    returns (status: Status, sym: nat, pos': nat, ghost q: Place)
    requires r.Valid() && lit.Ready() && TwoCodes(lit.sz, d) && pos <= out.Length
    modifies r, out
    ensures r.Valid() && pos <= pos' <= out.Length && q.out == out[..] && q.pos == pos'
    ensures Same(lit.sz, d, Place(old(r.Remaining()), old(out[..]), pos), q)
    ensures status == Done ==> AtSymbol(d, NextStep(lit.sz, d, q.bits), sym, r.Remaining())
    ensures status != Done ==> Stuck(NextStep(lit.sz, d, q.bits), q, status)
  {
    hide Table, NextStep, AfterSymbol, Same, Stuck, AtSymbol;
    status, sym, pos' := Done, 0, pos;
    ghost var p := Place(r.Remaining(), out[..], pos);
    q := p;
    SameSelf(lit.sz, d, p);
    var more := true;
    while more
      invariant r.Valid() && lit.Ready() && pos <= pos' <= out.Length && q.out == out[..] && q.pos == pos'
      invariant Same(lit.sz, d, p, q)
      invariant more ==> q.bits == r.Remaining()
      invariant !more && status == Done ==> AtSymbol(d, NextStep(lit.sz, d, q.bits), sym, r.Remaining())
      invariant !more && status != Done ==> Stuck(NextStep(lit.sz, d, q.bits), q, status)
      decreases more, out.Length - pos'
    {
      ghost var p' := q;
      if |r.input| - r.cur < 4 || out.Length - pos' < 2 {
        more, status, sym, pos', q := SlowLiteral(r, lit, out, pos', d);
      } else {
        more, sym, pos', q := FastLiterals(r, lit, out, pos', d);
        status := Done;
      }
      SameTrans(lit.sz, d, p, p', q);
    }
  }

  /** The extra bits of a length or distance. */
  method ReadExtra(r: BitReader, n: nat) returns (ok: bool, b: nat)
    requires r.Valid() && n <= 13
    modifies r
    ensures r.Valid() && (ok <==> n <= |old(r.Remaining())|)
    ensures ok ==> b == Val(old(r.Remaining())[..n]) && r.Remaining() == old(r.Remaining())[n..]
  {
    ok, b := true, 0;
    if n != 0 {
      ok, b := r.GetBits(n);
    }
  }

  /** Length and distance of the match whose length symbol has just been decoded. */
  method ReadMatch(r: BitReader, dist: HuffTable, sym: nat) returns (ok: bool, len: nat, d: nat)
    requires r.Valid() && dist.Ready() && 1 <= |dist.sz| <= 32 && 257 <= sym < 288
    modifies r
    ensures r.Valid()
    ensures AfterSymbol(dist.sz, sym, old(r.Remaining())) == if ok then CopyBack(sym, len, d, r.Remaining()) else NoStep
  {
    hide Table, CodeAt, Val, LengthBase, LengthExtra, DistanceBase, DistanceExtra;
    len, d := 0, 0;
    var numExtra, b := LengthExtra(sym), 0;
    ok, b := ReadExtra(r, numExtra);
    if !ok {
      return;
    }
    len := LengthBase(sym) + b;
    var dsym;
    ok, dsym := dist.NextSymbol(r);
    if !ok {
      return;
    }
    numExtra := DistanceExtra(dsym);
    ok, b := ReadExtra(r, numExtra);
    if !ok {
      return;
    }
    d := DistanceBase(dsym) + b;
  }

  /** How a match that has been read is dealt with. */
  lemma MatchMeans(s: Step, p: Place)
    requires s.CopyBack? && p.pos <= |p.out|
    ensures s.dist > p.pos ==> !Goes(s, p) && StopAt(s, p) == End(Failed, p)
    ensures s.dist <= p.pos ==> (Goes(s, p) <==> Width(s.len) <= |p.out| - p.pos)
    ensures Goes(s, p) ==> s.dist <= p.pos && p.pos + Width(s.len) <= |p.out|
    ensures Goes(s, p) ==> var n := Width(s.len);
      Take(s, p) == Place(s.rest, CopyIn(p.out, p.pos, s.dist, n), p.pos + n)
    ensures s.dist <= p.pos && !Goes(s, p) ==> var e := StopAt(s, p);
      e.status == (if s.len > |p.out| - p.pos then HasMoreOutput else Overrun) &&
        e.place.out == CopyIn(p.out, p.pos, s.dist, |p.out| - p.pos)
  {
    hide CopyIn;
  }

  lemma StuckEnd(l: seq<nat>, d: seq<nat>, p: Place, q: Place, status: Status)
    requires TwoCodes(l, d) && Same(l, d, p, q) && Stuck(NextStep(l, d, q.bits), q, status) && status != Done
    ensures BodyEnd(l, d, p) == End(status, q)
  {
    hide NextStep, Same, BodyEnd, Halt;
    assert q.pos <= |q.out| by {
      SamePlaces(l, d, p, q);
    }
    Halted(l, d, p, q);
  }

  lemma SamePlaces(l: seq<nat>, d: seq<nat>, p: Place, q: Place)
    requires Same(l, d, p, q)
    ensures TwoCodes(l, d) && p.pos <= |p.out| && q.pos <= |q.out|
  {
  }

  lemma BlockDone(l: seq<nat>, d: seq<nat>, p: Place, q: Place, rest: seq<bool>)
    requires TwoCodes(l, d) && Same(l, d, p, q) && AtSymbol(d, NextStep(l, d, q.bits), 256, rest)
    ensures BodyEnd(l, d, p) == End(Done, Place(rest, q.out, q.pos))
  {
    hide NextStep, Same, BodyEnd, Halt;
    SamePlaces(l, d, p, q);
    Halted(l, d, p, q);
  }

  /** Carries out the match whose length symbol has been read at q. */
  method OneMatch(r: BitReader, dist: HuffTable, sym: nat, out: array<nat>, pos: nat, ghost l: seq<nat>,
      ghost p: Place, ghost q: Place)
    returns (more: bool, status: Status, pos': nat)
    requires r.Valid() && dist.Ready() && pos <= out.Length && 257 <= sym && TwoCodes(l, dist.sz)
    requires Same(l, dist.sz, p, q) && q.out == out[..] && q.pos == pos
    requires AtSymbol(dist.sz, NextStep(l, dist.sz, q.bits), sym, r.Remaining())
    modifies r, out
    ensures r.Valid()
    ensures more ==> pos < pos' <= out.Length && Same(l, dist.sz, p, Place(r.Remaining(), out[..], pos'))
    ensures !more ==> status != Done && var e := BodyEnd(l, dist.sz, p);
            status == e.status && out[..] == e.place.out && pos' == e.place.pos
  {
    hide Table, NextStep, AfterSymbol, Same, Halt, BodyEnd, CopyIn, Goes, Take, StopAt;
    more, status, pos' := false, NeedsInput, pos;
    var ok, len, d := ReadMatch(r, dist, sym);
    ghost var s := NextStep(l, dist.sz, q.bits);
    if !ok {
      StuckEnd(l, dist.sz, p, q, status);
      return;
    }
    MatchMeans(s, q);
    if d > pos {
      status := Failed;
      Halted(l, dist.sz, p, q);
      return;
    }
    status, pos' := CopyMatch(out, pos, d, len);
    if status != Done {
      Halted(l, dist.sz, p, q);
      return;
    }
    more := true;
    OneStep(l, dist.sz, q);
    SameTrans(l, dist.sz, p, q, Take(s, q));
  }

  /** The decoding loop of a compressed block. On any bits it ends, and status, output buffer, output position and the
      bits left are those of the specification. */
  method InflateBody(r: BitReader, lit: HuffTable, dist: HuffTable, out: array<nat>, pos0: nat)
    returns (status: Status, pos: nat)
    requires r.Valid() && Usable(lit, dist) && pos0 <= out.Length
    modifies r, out
    ensures r.Valid()
    ensures var e := BodyEnd(lit.sz, dist.sz, Place(old(r.Remaining()), old(out[..]), pos0));
            && status == e.status && out[..] == e.place.out && pos == e.place.pos
            && (status == Done ==> r.Remaining() == e.place.bits)
  {
    hide Table, NextStep, AfterSymbol, Same, BodyEnd;
    ghost var p := Place(r.Remaining(), out[..], pos0);
    pos := pos0;
    SameSelf(lit.sz, dist.sz, p);
    while true
      invariant r.Valid() && Usable(lit, dist) && pos0 <= pos <= out.Length
      invariant Same(lit.sz, dist.sz, p, Place(r.Remaining(), out[..], pos))
      decreases out.Length - pos
    {
      ghost var p' := Place(r.Remaining(), out[..], pos);
      var sym;
      ghost var q;
      status, sym, pos, q := DecodeLiterals(r, lit, out, pos, dist.sz);
      SameTrans(lit.sz, dist.sz, p, p', q);
      if status != Done {
        StuckEnd(lit.sz, dist.sz, p, q, status);
        return;
      }
      if sym == 256 {
        BlockDone(lit.sz, dist.sz, p, q, r.Remaining());
        return;
      }
      var more;
      more, status, pos := OneMatch(r, dist, sym, out, pos, lit.sz, p, q);
      if !more {
        return;
      }
    }
  }
}
