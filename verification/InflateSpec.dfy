/** What inflating any bits into an output buffer gives, said on the bits alone: without tables, bit buffer and fast
    loops. The methods of the decompressor compute exactly this on every input. */
module InflateSpec {
  import opened Sums
  import opened Bits
  import opened CodeLengthPacking
  import opened FixedCodes
  import opened InflateTable
  import opened InflateDecode
  import opened LzTokens

  /** How decompression ends. Overrun: the next byte to be written lies outside the output buffer. */
  datatype Status = Done | HasMoreOutput | Failed | NeedsInput | Overrun

  /** The bits not yet consumed, the output buffer, and how much of it has been filled. */
  datatype Place = Place(bits: seq<bool>, out: seq<nat>, pos: nat)

  datatype End = End(status: Status, place: Place)

  /** q is a place inside the buffer that can be reached from p. */
  ghost predicate Onward(p: Place, q: Place) {
    && p.pos <= q.pos <= |q.out| == |p.out| && |q.bits| <= |p.bits| && q.out[..p.pos] == p.out[..p.pos]
  }

  lemma OnwardTrans(p: Place, q: Place, r: Place)
    requires Onward(p, q) && Onward(q, r)
    ensures Onward(p, r)
  {
    assert r.out[..p.pos] == r.out[..q.pos][..p.pos] == q.out[..p.pos];
  }

  // ---------------------------------------------------------------- the body of a compressed block

  /** `len` bytes are copied one at a time from `dist` back. */
  ghost function CopyIn(out: seq<nat>, pos: nat, dist: nat, len: nat): (r: seq<nat>)
    requires dist <= pos && pos + len <= |out|
    ensures |r| == |out| && r[..pos] == out[..pos]
  {
    if len == 0 then out
    else var r := CopyIn(out, pos, dist, len - 1); r[pos + len - 1 := r[pos + len - 1 - dist]]
  }

  /** The copying loop always copies at least three bytes. */
  function Width(len: nat): nat {
    if len < 3 then 3 else len
  }

  /** s_length_base */
  function LengthBase(sym: nat): (b: nat)
    requires 257 <= sym < 288
    ensures if sym < 286 then b >= 3 else b == 0
  {
    LENGTH_BASE[sym - 257]
  }

  /** s_length_extra */
  function LengthExtra(sym: nat): (n: nat)
    requires 257 <= sym < 288
    ensures n <= 5 && (sym >= 286 ==> n == 0)
  {
    LENGTH_EXTRA[sym - 257]
  }

  /** s_dist_base */
  function DistanceBase(sym: nat): nat
    requires sym < 32
  {
    DIST_BASE[sym]
  }

  /** s_dist_extra */
  function DistanceExtra(sym: nat): (n: nat)
    requires sym < 32
    ensures n <= 13
  {
    DIST_EXTRA[sym]
  }

  /** What the bits of a body go on with: a literal, the end, a match, or nothing that is all there. */
  datatype Step =
    | NoStep
    | PutByte(b: nat, rest: seq<bool>)
    | EndOfBlock(rest: seq<bool>)
    | CopyBack(sym: nat, len: nat, dist: nat, rest: seq<bool>)

  ghost predicate TwoCodes(l: seq<nat>, d: seq<nat>) {
    257 <= |l| <= 288 && 1 <= |d| <= 32
  }

  ghost function NextStep(l: seq<nat>, d: seq<nat>, bits: seq<bool>): Step
    requires TwoCodes(l, d)
  {
    match CodeAt(l, bits)
    case NoCode => NoStep
    case Found(sym, n) => AfterSymbol(d, sym, bits[n..])
  }

  ghost function AfterSymbol(d: seq<nat>, sym: nat, bits: seq<bool>): Step
    requires sym < 288 && 1 <= |d| <= 32
  {
    if sym < 256 then PutByte(sym, bits)
    else if sym == 256 then EndOfBlock(bits)
    else
      var n := LengthExtra(sym);
      if |bits| < n then NoStep else AfterLength(d, sym, LengthBase(sym) + Val(bits[..n]), bits[n..])
  }

  ghost function AfterLength(d: seq<nat>, sym: nat, len: nat, bits: seq<bool>): Step
    requires 1 <= |d| <= 32
  {
    match CodeAt(d, bits)
    case NoCode => NoStep
    case Found(dsym, k) => AfterDistance(sym, len, dsym, bits[k..])
  }

  ghost function AfterDistance(sym: nat, len: nat, dsym: nat, bits: seq<bool>): Step
    requires dsym < 32
  {
    var n := DistanceExtra(dsym);
    if |bits| < n then NoStep else CopyBack(sym, len, DistanceBase(dsym) + Val(bits[..n]), bits[n..])
  }

  /** The step can be carried out inside the buffer. */
  ghost predicate Goes(s: Step, p: Place) {
    match s
    case PutByte(_, _) => p.pos < |p.out|
    case CopyBack(_, len, dist, _) => dist <= p.pos && p.pos + Width(len) <= |p.out|
    case _ => false
  }

  ghost function Take(s: Step, p: Place): Place
    requires Goes(s, p)
  {
    match s
    case PutByte(b, rest) => Place(rest, p.out[p.pos := b], p.pos + 1)
    case CopyBack(_, len, dist, rest) => Place(rest, CopyIn(p.out, p.pos, dist, Width(len)), p.pos + Width(len))
  }

  lemma StepShortens(l: seq<nat>, d: seq<nat>, bits: seq<bool>)
    requires TwoCodes(l, d)
    ensures !NextStep(l, d, bits).NoStep? ==> |NextStep(l, d, bits).rest| <= |bits|
  {
    hide CodeAt;
  }

  lemma TakeOnward(l: seq<nat>, d: seq<nat>, p: Place)
    requires TwoCodes(l, d) && Goes(NextStep(l, d, p.bits), p)
    ensures Onward(p, Take(NextStep(l, d, p.bits), p)) && p.pos < Take(NextStep(l, d, p.bits), p).pos
  {
    hide NextStep;
    StepShortens(l, d, p.bits);
  }

  /** The place where the first step stands that cannot be carried out inside the buffer. */
  ghost function Halt(l: seq<nat>, d: seq<nat>, p: Place): (h: Place)
    requires TwoCodes(l, d) && p.pos <= |p.out|
    ensures Onward(p, h) && !Goes(NextStep(l, d, h.bits), h)
    decreases |p.out| - p.pos
  {
    var s := NextStep(l, d, p.bits);
    if Goes(s, p) then
      TakeOnward(l, d, p);
      var h := Halt(l, d, Take(s, p));
      OnwardTrans(p, Take(s, p), h);
      h
    else p
  }

  /** How the body ends there. */
  ghost function StopAt(s: Step, p: Place): (e: End)
    requires p.pos <= |p.out| && !Goes(s, p)
    ensures e.place.pos == if e.status == HasMoreOutput then |p.out| else p.pos
  {
    match s
    case NoStep => End(NeedsInput, p)
    case PutByte(_, _) => End(HasMoreOutput, p)
    case EndOfBlock(rest) => End(Done, Place(rest, p.out, p.pos))
    case CopyBack(_, len, dist, rest) =>
      if dist > p.pos then End(Failed, p)
      else
        var full := CopyIn(p.out, p.pos, dist, |p.out| - p.pos);
        if p.pos + len > |p.out| then End(HasMoreOutput, Place(rest, full, |p.out|))
        else End(Overrun, Place(rest, full, p.pos))
  }

  lemma StopOnward(l: seq<nat>, d: seq<nat>, p: Place)
    requires TwoCodes(l, d) && p.pos <= |p.out| && !Goes(NextStep(l, d, p.bits), p)
    ensures Onward(p, StopAt(NextStep(l, d, p.bits), p).place)
  {
    hide NextStep;
    StepShortens(l, d, p.bits);
  }

  ghost function BodyEnd(l: seq<nat>, d: seq<nat>, p: Place): (e: End)
    requires TwoCodes(l, d) && p.pos <= |p.out|
    ensures Onward(p, e.place)
  {
    var h := Halt(l, d, p);
    StopOnward(l, d, h);
    OnwardTrans(p, h, StopAt(NextStep(l, d, h.bits), h).place);
    StopAt(NextStep(l, d, h.bits), h)
  }

  // ---------------------------------------------------------------- the header of a dynamic block

  datatype SizeList = NoSizes(status: Status) | SizeList(sizes: seq<nat>, rest: seq<bool>)

  lemma SmallPower()
    ensures Pow2(2) == 4 && Pow2(3) == 8 && Pow2(4) == 16 && Pow2(5) == 32 && Pow2(7) == 128
  {
  }

  ghost function NumLit(bits: seq<bool>): (n: nat)
    requires |bits| >= 14
    ensures 257 <= n <= 288
  {
    SmallPower();
    ValBound(bits[..5]);
    257 + Val(bits[..5])
  }

  ghost function NumDist(bits: seq<bool>): (n: nat)
    requires |bits| >= 14
    ensures 1 <= n <= 32
  {
    SmallPower();
    ValBound(bits[5..10]);
    1 + Val(bits[5..10])
  }

  ghost function NumLengths(bits: seq<bool>): (n: nat)
    requires |bits| >= 14
    ensures 4 <= n <= 19
  {
    SmallPower();
    ValBound(bits[10..14]);
    4 + Val(bits[10..14])
  }

  /** The sizes of the code-length codes k to n - 1, three bits each. */
  ghost function LengthSizesAt(bits: seq<bool>, sizes: seq<nat>, k: nat, n: nat): (r: SizeList)
    requires |sizes| == 19 && k <= n <= 19
    ensures r.SizeList? ==> |r.sizes| == 19 && |r.rest| <= |bits|
    ensures r.NoSizes? ==> r.status in {NeedsInput, Failed}
    decreases n - k
  {
    if k == n then SizeList(sizes, bits)
    else if |bits| < 3 then NoSizes(NeedsInput)
    else
      SwizzleRange(k);
      LengthSizesAt(bits[3..], sizes[SWIZZLE[k] := Val(bits[..3])], k + 1, n)
  }

  /** "\03\03\013"[sym - 16] */
  function LeastRun(sym: nat): nat {
    if sym == 18 then 11 else 3
  }

  /** One more symbol of the run-length packed code sizes. */
  ghost function MoreSizes(code: seq<nat>, bits: seq<bool>, done: seq<nat>): (r: SizeList)
    ensures r.SizeList? ==> |r.sizes| > |done| && |r.rest| <= |bits|
    ensures r.NoSizes? ==> r.status in {NeedsInput, Failed}
  {
    match CodeAt(code, bits)
    case NoCode => NoSizes(NeedsInput)
    case Found(sym, k) =>
      var t, n := bits[k..], ExtraBits(sym);
      if sym < 16 then SizeList(done + [sym], t)
      else if sym == 16 && done == [] then NoSizes(Failed)
      else if |t| < n then NoSizes(NeedsInput)
      else
        SizeList(done + Repeat(if sym == 16 then done[|done| - 1] else 0, LeastRun(sym) + Val(t[..n])), t[n..])
  }

  /** All of them. */
  ghost function CodeSizesAt(code: seq<nat>, bits: seq<bool>, done: seq<nat>, total: nat): (r: SizeList)
    ensures r.SizeList? ==> |r.sizes| == total && |r.rest| <= |bits|
    ensures r.NoSizes? ==> r.status in {NeedsInput, Failed}
    decreases total - |done|
  {
    if |done| == total then SizeList(done, bits)
    else if |done| > total then NoSizes(Failed)
    else match MoreSizes(code, bits, done)
         case NoSizes(status) => NoSizes(status)
         case SizeList(sizes, rest) => CodeSizesAt(code, rest, sizes, total)
  }

  datatype Codes = NoCodes(status: Status) | Codes(l: seq<nat>, d: seq<nat>, rest: seq<bool>)

  ghost function HeaderAt(bits: seq<bool>): (c: Codes)
    ensures c.Codes? ==> TwoCodes(c.l, c.d) && |c.rest| <= |bits|
    ensures c.NoCodes? ==> c.status in {NeedsInput, Failed}
  {
    if |bits| < 14 then NoCodes(NeedsInput)
    else match LengthSizesAt(bits[14..], Repeat(0, 19), 0, NumLengths(bits))
         case NoSizes(status) => NoCodes(status)
         case SizeList(code, rest) =>
           if !Accepted(code) then NoCodes(Failed) else CodesAt(code, rest, NumLit(bits), NumDist(bits))
  }

  ghost function CodesAt(code: seq<nat>, bits: seq<bool>, numLit: nat, numDist: nat): (c: Codes)
    ensures c.Codes? ==> |c.l| == numLit && |c.d| == numDist && |c.rest| <= |bits|
    ensures c.NoCodes? ==> c.status in {NeedsInput, Failed}
  {
    match CodeSizesAt(code, bits, [], numLit + numDist)
    case NoSizes(status) => NoCodes(status)
    case SizeList(all, rest) =>
      if Accepted(all[..numLit]) && Accepted(all[numLit..]) then Codes(all[..numLit], all[numLit..], rest)
      else NoCodes(Failed)
  }

  // ---------------------------------------------------------------- stored blocks

  /** n bytes are copied from the input. */
  ghost function BytesEnd(p: Place, n: nat): (e: End)
    requires p.pos <= |p.out|
    ensures Onward(p, e.place) && e.status != Overrun
    decreases n
  {
    if n == 0 then End(Done, p)
    else if p.pos == |p.out| then End(HasMoreOutput, p)
    else if |p.bits| < 8 then End(NeedsInput, p)
    else
      var q := Place(p.bits[8..], p.out[p.pos := Val(p.bits[..8])], p.pos + 1);
      var e := BytesEnd(q, n - 1);
      OnwardTrans(p, q, e.place);
      e
  }

  /** The rest of the byte is skipped; then come the length, its complement and the bytes. */
  ghost function StoredEnd(p: Place): (e: End)
    requires p.pos <= |p.out|
    ensures Onward(p, e.place) && e.status != Overrun
  {
    var b := p.bits[|p.bits| % 8..];
    if |b| < 32 then End(NeedsInput, p)
    else if Val(b[..16]) != 0xFFFF - Val(b[16..32]) then End(Failed, p)
    else
      var q := Place(b[32..], p.out, p.pos);
      OnwardTrans(p, q, BytesEnd(q, Val(b[..16])).place);
      BytesEnd(q, Val(b[..16]))
  }

  // ---------------------------------------------------------------- all blocks

  /** The codes of a compressed block of type t whose contents start with these bits. */
  ghost function CodesOf(t: nat, bits: seq<bool>): (c: Codes)
    ensures c.Codes? ==> TwoCodes(c.l, c.d) && |c.rest| <= |bits|
    ensures c.NoCodes? ==> c.status in {NeedsInput, Failed}
  {
    if t == 1 then Codes(FixedLit(), FixedDist(), bits) else HeaderAt(bits)
  }

  /** A block of type t. */
  ghost function BlockEnd(t: nat, p: Place): (e: End)
    requires p.pos <= |p.out|
    ensures Onward(p, e.place)
  {
    if t == 0 then StoredEnd(p)
    else if t == 3 then End(Failed, p)
    else match CodesOf(t, p.bits)
         case NoCodes(status) => End(status, p)
         case Codes(l, d, rest) =>
           var q := Place(rest, p.out, p.pos);
           OnwardTrans(p, q, BodyEnd(l, d, q).place);
           BodyEnd(l, d, q)
  }

  ghost function TypeAt(bits: seq<bool>): nat
    requires |bits| >= 3
  {
    Val(bits[..3]) / 2
  }

  ghost predicate FinalAt(bits: seq<bool>)
    requires |bits| >= 3
  {
    Val(bits[..3]) % 2 == 1
  }

  ghost function Contents(p: Place): (q: Place)
    requires |p.bits| >= 3
  {
    Place(p.bits[3..], p.out, p.pos)
  }

  /** Blocks up to the last one or up to the first that does not end well. */
  ghost function Inflated(p: Place): (e: End)
    requires p.pos <= |p.out|
    ensures Onward(p, e.place)
    decreases |p.bits|
  {
    if |p.bits| < 3 then End(NeedsInput, p)
    else
      var e := BlockEnd(TypeAt(p.bits), Contents(p));
      OnwardTrans(p, Contents(p), e.place);
      if e.status != Done || FinalAt(p.bits) then e
      else
        OnwardTrans(p, e.place, Inflated(e.place).place);
        Inflated(e.place)
  }

  // ---------------------------------------------------------------- when the output buffer is left

  /** A length symbol that stands for no length, with a distance that lies inside the text but fewer than three bytes
      of room. */
  ghost predicate RunsOver(s: Step, p: Place) {
    && s.CopyBack? && s.sym in {286, 287}
    && s.dist <= p.pos <= |p.out| < p.pos + 3
  }

  /** Which lengths can be decoded. */
  lemma StepLength(l: seq<nat>, d: seq<nat>, bits: seq<bool>)
    requires TwoCodes(l, d)
    ensures var s := NextStep(l, d, bits);
            s.CopyBack? ==> 257 <= s.sym < |l| && l[s.sym] > 0 && if s.sym < 286 then s.len >= 3 else s.len == 0
  {
    hide CodeAt;
    var f := CodeAt(l, bits);
    if f.Found? && f.sym > 256 && |bits[f.size..]| >= LengthExtra(f.sym) {
      hide LengthBase, LengthExtra;
      NoLength(bits[f.size..]);
    }
  }

  lemma NoLength(bits: seq<bool>)
    ensures Val(bits[..0]) == 0
  {
  }

  /** Decoding a body leaves the output buffer exactly if the first step that cannot be carried out is a length symbol
      286 or 287 whose distance lies inside the text while fewer than three bytes of room are left. */
  lemma BodyOverrun(l: seq<nat>, d: seq<nat>, p: Place)
    requires TwoCodes(l, d) && p.pos <= |p.out|
    ensures BodyEnd(l, d, p).status == Overrun <==> RunsOver(NextStep(l, d, Halt(l, d, p).bits), Halt(l, d, p))
  {
    hide NextStep, Halt;
    var h := Halt(l, d, p);
    StepLength(l, d, h.bits);
  }

  /** That cannot happen with codes that leave both symbols out, nor when three bytes of room remain. */
  lemma NoOverrun(l: seq<nat>, d: seq<nat>, p: Place)
    requires TwoCodes(l, d) && p.pos <= |p.out|
    ensures (forall s :: 286 <= s < |l| ==> l[s] == 0) ==> BodyEnd(l, d, p).status != Overrun
    ensures BodyEnd(l, d, p).place.pos + 3 <= |p.out| ==> BodyEnd(l, d, p).status != Overrun
  {
    hide NextStep, Halt;
    BodyOverrun(l, d, p);
    StepLength(l, d, Halt(l, d, p).bits);
  }

  /** Where the last block starts that is looked at. */
  ghost function LastBlock(p: Place): (q: Place)
    requires p.pos <= |p.out|
    ensures q.pos <= |q.out| == |p.out|
    decreases |p.bits|
  {
    if |p.bits| < 3 then p
    else
      var e := BlockEnd(TypeAt(p.bits), Contents(p));
      if e.status != Done || FinalAt(p.bits) then p else LastBlock(e.place)
  }

  lemma {:induction false} LastBlockEnds(p: Place)
    requires p.pos <= |p.out|
    ensures var q := LastBlock(p);
            Inflated(p) == if |q.bits| < 3 then End(NeedsInput, q) else BlockEnd(TypeAt(q.bits), Contents(q))
    decreases |p.bits|
  {
    hide BlockEnd;
    if |p.bits| >= 3 {
      var e := BlockEnd(TypeAt(p.bits), Contents(p));
      if e.status == Done && !FinalAt(p.bits) {
        LastBlockEnds(e.place);
      }
    }
  }

  /** The block that starts at q is compressed, and decoding its body comes to such a step. */
  ghost predicate BodyRunsOver(q: Place)
    requires q.pos <= |q.out|
  {
    && |q.bits| >= 3 && TypeAt(q.bits) in {1, 2}
    && match CodesOf(TypeAt(q.bits), q.bits[3..])
       case NoCodes(_) => false
       case Codes(l, d, rest) =>
         var h := Halt(l, d, Place(rest, q.out, q.pos));
         RunsOver(NextStep(l, d, h.bits), h)
  }

  /** A whole stream leaves the output buffer exactly if the body of the last block looked at does. */
  lemma StreamOverrun(p: Place)
    requires p.pos <= |p.out|
    ensures Inflated(p).status == Overrun <==> BodyRunsOver(LastBlock(p))
    ensures Inflated(p).status == Overrun ==> |p.out| < Inflated(p).place.pos + 3
  {
    hide CodesOf, Halt, NextStep, RunsOver, Inflated, LastBlock, BodyEnd, StoredEnd;
    LastBlockEnds(p);
    var q := LastBlock(p);
    if |q.bits| >= 3 {
      TypeRange(q.bits);
      match CodesOf(TypeAt(q.bits), q.bits[3..])
      case NoCodes(_) =>
      case Codes(l, d, rest) =>
        BodyOverrun(l, d, Place(rest, q.out, q.pos));
        NoOverrun(l, d, Place(rest, q.out, q.pos));
    }
  }

  lemma TypeRange(bits: seq<bool>)
    requires |bits| >= 3
    ensures TypeAt(bits) < 4
  {
    ValBound(bits[..3]);
    SmallPower();
  }
}
