/** Run-length packing of code sizes (section 3.2.7 of RFC 1951), as the compressor does it. */
module CodeLengthPacking {
  import opened Sums

  /** One step of a packed sequence: a size, or a run of the previous size, or a run of zeros. */
  datatype Op = Size(v: nat) | Copy(n: nat) | Zeros(n: nat)

  /** s_tdefl_packed_code_size_syms_swizzle and s_length_dezigzag */
  const SWIZZLE: seq<int> := [16, 17, 18, 0, 8, 7, 9, 6, 10, 5, 11, 4, 12, 3, 13, 2, 14, 1, 15]

  /** The position of a symbol in SWIZZLE. */
  ghost function Unswizzle(s: nat): (k: nat)
    requires s < 19
    ensures k < 19 && SWIZZLE[k] == s
  {
    if s >= 16 then s - 16 else if s == 0 then 3 else if s < 8 then 19 - 2 * s else 2 * s - 12
  }

  lemma SwizzleRange(k: nat)
    requires k < 19
    ensures |SWIZZLE| == 19 && 0 <= SWIZZLE[k] < 19 && Unswizzle(SWIZZLE[k]) == k
  {
  }

  /** The order of section 3.2.7 of RFC 1951: the runs and 0, then the sizes from 8 upwards and from 7 downwards. */
  lemma SwizzleOrder(k: nat)
    requires k < 8
    ensures SWIZZLE[..4] == [16, 17, 18, 0] && |SWIZZLE| == 19
    ensures SWIZZLE[4 + 2 * k] == 8 + k && (k < 7 ==> SWIZZLE[5 + 2 * k] == 7 - k)
  {
  }

  function Repeat(v: nat, n: nat): (s: seq<nat>)
    ensures |s| == n && forall i :: 0 <= i < n ==> s[i] == v
  {
    if n == 0 then [] else Repeat(v, n - 1) + [v]
  }

  /** What may stand after `before`. */
  ghost predicate ValidOp(op: Op, before: seq<nat>) {
    match op
    case Size(v) => v <= 15
    case Copy(n) => 3 <= n <= 6 && before != []
    case Zeros(n) => 3 <= n <= 138
  }

  ghost function ApplyOp(before: seq<nat>, op: Op): seq<nat> {
    match op
    case Size(v) => before + [v]
    case Copy(n) => if before == [] then [] else before + Repeat(before[|before| - 1], n)
    case Zeros(n) => before + Repeat(0, n)
  }

  /** The meaning of a packed sequence. */
  ghost function Unpacked(ops: seq<Op>): seq<nat> {
    if ops == [] then [] else ApplyOp(Unpacked(ops[..|ops| - 1]), ops[|ops| - 1])
  }

  ghost predicate ValidOps(ops: seq<Op>) {
    ops != [] ==> ValidOps(ops[..|ops| - 1]) && ValidOp(ops[|ops| - 1], Unpacked(ops[..|ops| - 1]))
  }

  /** The symbol of a step in the code-length alphabet, and its extra value. */
  function Sym(op: Op): nat {
    match op
    case Size(v) => v
    case Copy(n) => 16
    case Zeros(n) => if n <= 10 then 17 else 18
  }

  function Extra(op: Op): int {
    match op
    case Size(v) => 0
    case Copy(n) => n - 3
    case Zeros(n) => if n <= 10 then n - 3 else n - 11
  }

  /** "\\02\\03\\07"[sym - 16], and no extra bits for plain sizes. */
  function ExtraBits(sym: nat): nat {
    if sym < 16 then 0 else if sym == 16 then 2 else if sym == 17 then 3 else 7
  }

  /** How a step is stored in packed_code_sizes. */
  ghost function FlatOp(op: Op): seq<int> {
    if Sym(op) < 16 then [Sym(op)] else [Sym(op), Extra(op)]
  }

  ghost function Flat(ops: seq<Op>): seq<int> {
    if ops == [] then [] else Flat(ops[..|ops| - 1]) + FlatOp(ops[|ops| - 1])
  }

  /** How often a symbol occurs. */
  ghost function Uses(ops: seq<Op>, sym: nat): nat {
    if ops == [] then 0 else Uses(ops[..|ops| - 1], sym) + if Sym(ops[|ops| - 1]) == sym then 1 else 0
  }

  lemma PushOp(ops: seq<Op>, op: Op)
    ensures Unpacked(ops + [op]) == ApplyOp(Unpacked(ops), op) && Flat(ops + [op]) == Flat(ops) + FlatOp(op)
    ensures ValidOps(ops + [op]) == (ValidOps(ops) && ValidOp(op, Unpacked(ops)))
    ensures forall s :: Uses(ops + [op], s) == Uses(ops, s) + if Sym(op) == s then 1 else 0
  {
    assert (ops + [op])[..|ops|] == ops;
  }

  /** Extra values fit their bits. */
  lemma ExtraFits(op: Op, before: seq<nat>)
    requires ValidOp(op, before)
    ensures Sym(op) <= 18 && 0 <= Extra(op) < Pow2(ExtraBits(Sym(op)))
  {
    assert Pow2(2) == 4 && Pow2(3) == 8 && Pow2(5) == 32 && Pow2(7) == 128;
  }

  /** Packing never lengthens. */
  lemma {:induction false} FlatNoLonger(ops: seq<Op>)
    requires ValidOps(ops)
    ensures |ops| <= |Flat(ops)| <= |Unpacked(ops)|
  {
    if ops != [] {
      FlatNoLonger(ops[..|ops| - 1]);
    }
  }

  /** Nothing can be copied at the start. */
  lemma {:induction false} StartsWithSize(ops: seq<Op>)
    requires ValidOps(ops) && ops != []
    ensures Flat(ops) != [] && Flat(ops)[0] != 16
  {
    if |ops| > 1 {
      StartsWithSize(ops[..|ops| - 1]);
    } else {
      assert ops[..0] == [];
    }
  }

  // ---------------------------------------------------------------- no run is left unpacked

  /** How often Size(v) stands at the end. */
  ghost function Tail(ops: seq<Op>, v: nat): nat {
    if ops != [] && ops[|ops| - 1] == Size(v) then Tail(ops[..|ops| - 1], v) + 1 else 0
  }

  /** The last size described, or -1. */
  ghost function Value(ops: seq<Op>): int {
    var u := Unpacked(ops);
    if u == [] then -1 else u[|u| - 1]
  }

  ghost function MaxTail(v: nat): nat {
    if v == 0 then 2 else 3
  }

  /** A run that could take in more ends where another size begins. */
  ghost predicate Ended(ops: seq<Op>, op: Op) {
    ops != [] ==>
      match ops[|ops| - 1]
      case Zeros(n) => n == 138 || (op.Size? && op.v != 0)
      case Copy(n) => n == 6 || op.Zeros? || (op.Size? && op.v != Value(ops))
      case Size(_) => true
  }

  /** A step that may come next: at most two plain zeros in a row and at most three other plain sizes of one value; and
      a run only where the sizes before it do not belong to it. */
  ghost predicate MayFollow(ops: seq<Op>, op: Op) {
    && Ended(ops, op)
    && match op
       case Size(v) => Tail(ops, v) < MaxTail(v)
       case Copy(_) => Value(ops) > 0 && Tail(ops, Value(ops)) <= 1
       case Zeros(_) => Tail(ops, 0) == 0
  }

  ghost predicate Tight(ops: seq<Op>) {
    ops != [] ==> Tight(ops[..|ops| - 1]) && MayFollow(ops[..|ops| - 1], ops[|ops| - 1])
  }

  /** No three plain zeros stand in a row, and no four plain sizes of one value. */
  lemma TightRuns(ops: seq<Op>, v: nat, i: nat, k: nat)
    requires Tight(ops) && i + k <= |ops| && forall j :: i <= j < i + k ==> ops[j] == Size(v)
    ensures k <= MaxTail(v)
  {
    TightPrefix(ops, i + k);
    TailAtLeast(ops[..i + k], v, k);
    TailAtMost(ops[..i + k], v);
  }

  lemma {:induction false} TightPrefix(ops: seq<Op>, k: nat)
    requires Tight(ops) && k <= |ops|
    ensures Tight(ops[..k])
  {
    hide MayFollow;
    if k < |ops| {
      TightPrefix(ops[..|ops| - 1], k);
      assert ops[..|ops| - 1][..k] == ops[..k];
    } else {
      assert ops[..k] == ops;
    }
  }

  lemma {:induction false} TailAtLeast(ops: seq<Op>, v: nat, k: nat)
    requires k <= |ops| && forall j :: |ops| - k <= j < |ops| ==> ops[j] == Size(v)
    ensures Tail(ops, v) >= k
  {
    if k > 0 {
      TailAtLeast(ops[..|ops| - 1], v, k - 1);
    }
  }

  lemma TailAtMost(ops: seq<Op>, v: nat)
    requires Tight(ops)
    ensures Tail(ops, v) <= MaxTail(v)
  {
    hide Ended;
  }

  lemma PushTight(ops: seq<Op>, op: Op)
    ensures Tight(ops + [op]) <==> Tight(ops) && MayFollow(ops, op)
    ensures forall v: nat :: Tail(ops + [op], v) == if op == Size(v) then Tail(ops, v) + 1 else 0
  {
    hide MayFollow;
    assert (ops + [op])[..|ops|] == ops;
  }

  lemma TailIsValue(ops: seq<Op>, v: nat)
    ensures Tail(ops, v) > 0 ==> Value(ops) == v
  {
    hide Tail;
    assert Tail(ops, v) > 0 ==> ops != [] && ops[|ops| - 1] == Size(v) by {
      TailStep(ops, v);
    }
  }

  lemma TailStep(ops: seq<Op>, v: nat)
    ensures Tail(ops, v) > 0 ==> ops != [] && ops[|ops| - 1] == Size(v)
  {
  }

  lemma PushedValue(ops: seq<Op>, op: Op)
    requires ValidOp(op, Unpacked(ops))
    ensures Value(ops + [op]) == match op
                                 case Size(v) => v
                                 case Copy(_) => Value(ops)
                                 case Zeros(_) => 0
  {
    hide Unpacked, Flat, ValidOps;
    PushOp(ops, op);
  }

  ghost function PlainSizes(v: nat, n: nat): seq<Op> {
    if n == 0 then [] else PlainSizes(v, n - 1) + [Size(v)]
  }

  lemma {:induction false} PushSizes(ops: seq<Op>, v: nat, n: nat)
    requires Tight(ops) && Ended(ops, Size(v)) && Tail(ops, v) + n <= MaxTail(v)
    ensures Tight(ops + PlainSizes(v, n)) && Tail(ops + PlainSizes(v, n), v) == Tail(ops, v) + n
    ensures n > 0 ==> var last := (ops + PlainSizes(v, n))[|ops + PlainSizes(v, n)| - 1]; last == Size(v)
  {
    hide MaxTail, Tight, Ended, Tail, Value;
    if n > 0 {
      PushSizes(ops, v, n - 1);
      var before := ops + PlainSizes(v, n - 1);
      assert ops + PlainSizes(v, n) == before + [Size(v)];
      SizeEnds(before, v, v);
      assert n == 1 ==> before == ops;
      PushTight(before, Size(v));
    } else {
      assert ops + PlainSizes(v, 0) == ops;
    }
  }

  lemma SizeEnds(ops: seq<Op>, v: nat, w: nat)
    ensures ops != [] && ops[|ops| - 1] == Size(v) ==> Ended(ops, Size(w))
  {
  }

  /** Between two rounds of the packing loop. */
  ghost predicate Ready(ops: seq<Op>, prev: nat) {
    && Tight(ops) && Tail(ops, 0) == 0 && (prev > 0 ==> Tail(ops, prev) <= 1)
    && (ops != [] ==> match ops[|ops| - 1]
                      case Zeros(n) => n == 138
                      case Copy(n) => n == 6 || prev == 0
                      case Size(_) => true)
  }

  /** How pending zeros and pending repeats are written out. */
  ghost function ZeroOps(zeros: nat): seq<Op> {
    if zeros < 3 then PlainSizes(0, zeros) else [Zeros(zeros)]
  }

  ghost function RepeatOps(v: nat, repeats: nat): seq<Op> {
    if repeats < 3 then PlainSizes(v, repeats) else [Copy(repeats)]
  }

  lemma CopiesValue(ops: seq<Op>)
    requires Tight(ops) && ValidOps(ops)
    ensures ops != [] && ops[|ops| - 1].Copy? ==> Value(ops) > 0
  {
    hide Ended, Unpacked;
    if ops != [] {
      var init := ops[..|ops| - 1];
      assert ops == init + [ops[|ops| - 1]];
      PushedValue(init, ops[|ops| - 1]);
    }
  }

  lemma ZeroRun(ops: seq<Op>, zeros: nat)
    requires Ready(ops, 0) && ValidOps(ops)
    ensures Tight(ops + ZeroOps(zeros)) && (zeros == 138 ==> Ready(ops + ZeroOps(zeros), 0))
  {
    hide Tight, Tail, Value, PlainSizes;
    CopiesValue(ops);
    if zeros < 3 {
      PushSizes(ops, 0, zeros);
    } else {
      PushTight(ops, Zeros(zeros));
    }
  }

  lemma RepeatRun(ops: seq<Op>, v: nat, repeats: nat)
    requires Ready(ops, v) && v > 0 && repeats > 0 && Value(ops) == v
    ensures Ready(ops + RepeatOps(v, repeats), 0) && (repeats == 6 ==> Ready(ops + RepeatOps(v, repeats), v))
  {
    hide Tight, Tail, Value, PlainSizes;
    LastRun(ops);
    if repeats < 3 {
      PushSizes(ops, v, repeats);
      TailIsValue(ops + PlainSizes(v, repeats), 0);
      TailIsValue(ops + PlainSizes(v, repeats), v);
      OtherTail(ops + PlainSizes(v, repeats), v, 0);
    } else {
      PushTight(ops, Copy(repeats));
    }
  }

  lemma OtherTail(ops: seq<Op>, v: nat, w: nat)
    ensures v != w && ops != [] && ops[|ops| - 1] == Size(v) ==> Tail(ops, w) == 0
  {
  }

  lemma LastRun(ops: seq<Op>)
    ensures ops != [] && ops[|ops| - 1].Zeros? && ops[|ops| - 1].n > 0 ==> Value(ops) == 0
  {
  }

  lemma OneSize(ops: seq<Op>, v: nat)
    requires Tight(ops) && Value(ops) != v && v > 0
    ensures Ready(ops + [Size(v)], v)
  {
    hide Tight, Tail, Value;
    TailIsValue(ops, v);
    PushTight(ops, Size(v));
  }

  /** The packed sequence written so far and its histogram. */
  ghost predicate Packed(packed: seq<nat>, num: nat, counts: seq<nat>, ops: seq<Op>) {
    && ValidOps(ops) && num <= |packed| && |counts| >= 19 && packed[..num] == Flat(ops)
    && forall s :: 0 <= s < 19 ==> counts[s] == Uses(ops, s)
  }

  lemma PackedPush(packed: seq<nat>, num: nat, counts: seq<nat>, ops: seq<Op>, op: Op, packed': seq<nat>,
      counts': seq<nat>)
    requires Packed(packed, num, counts, ops) && ValidOp(op, Unpacked(ops)) && |packed'| == |packed|
    requires num + |FlatOp(op)| <= |packed'| && packed'[..num] == packed[..num]
    requires packed'[num..num + |FlatOp(op)|] == FlatOp(op)
    requires Sym(op) < |counts| && counts' == counts[Sym(op) := counts[Sym(op)] + 1]
    ensures Packed(packed', num + |FlatOp(op)|, counts', ops + [op])
    ensures Unpacked(ops + [op]) == ApplyOp(Unpacked(ops), op)
  {
    PushOp(ops, op);
    assert packed'[..num + |FlatOp(op)|] == packed'[..num] + packed'[num..num + |FlatOp(op)|];
    assert forall s :: 0 <= s < 19 ==> counts'[s] == Uses(ops + [op], s);
  }

  lemma CountOf(packed: seq<nat>, num: nat, counts: seq<nat>, ops: seq<Op>, s: nat)
    requires Packed(packed, num, counts, ops) && s < 19
    ensures |counts| >= 19 && counts[s] == Uses(ops, s)
  {
  }

  lemma FlushedRepeats(packed: seq<nat>, num: nat, counts: seq<nat>, ops: seq<Op>, v: nat, repeats: nat, ops': seq<Op>)
    requires Packed(packed, num, counts, ops) && Ready(ops, v) && ops' == ops + RepeatOps(v, repeats)
    requires repeats > 0 ==> v > 0 && Value(ops) == v
    ensures Tight(ops') && Ready(ops', 0) && (repeats == 0 ==> ops' == ops) && (repeats == 6 ==> Ready(ops', v))
  {
    hide Tight, Tail, Value;
    if repeats > 0 {
      RepeatRun(ops, v, repeats);
    } else {
      assert ops + [] == ops;
    }
  }

  lemma FlushedZeros(packed: seq<nat>, num: nat, counts: seq<nat>, ops: seq<Op>, prev: nat, zeros: nat, ops': seq<Op>)
    requires Packed(packed, num, counts, ops) && Ready(ops, prev) && ops' == ops + ZeroOps(zeros)
    requires zeros > 0 ==> prev == 0
    ensures Tight(ops') && (zeros == 0 ==> ops' == ops) && (zeros == 138 ==> Ready(ops', 0))
  {
    hide Tight, Tail, Value, Uses, Flat;
    if zeros > 0 {
      ZeroRun(ops, zeros);
    } else {
      assert ops + [] == ops;
    }
  }

  method PutOp(packed: array<nat>, num: nat, counts: array<nat>, sym: nat, extra: nat, ghost op: Op, ghost ops: seq<Op>)
    returns (num': nat, ghost ops': seq<Op>)
    requires packed != counts && Packed(packed[..], num, counts[..], ops) && ValidOp(op, Unpacked(ops))
    requires sym == Sym(op)
    requires num + |FlatOp(op)| <= packed.Length && (sym >= 16 ==> extra == Extra(op) <= 255) && Uses(ops, sym) < 0xFFFF
    modifies packed, counts
    ensures Packed(packed[..], num', counts[..], ops') && ops' == ops + [op] && num' == num + |FlatOp(op)|
    ensures Unpacked(ops') == ApplyOp(Unpacked(ops), op)
  {
    hide Packed, Unpacked, Flat, Uses, ApplyOp, ValidOp;
    ghost var p0, c0 := packed[..], counts[..];
    ExtraFits(op, Unpacked(ops));
    CountOf(p0, num, c0, ops, sym);
    counts[sym] := (counts[sym] + 1) % 0x10000;
    packed[num] := sym;
    num' := num + 1;
    if sym >= 16 {
      packed[num'] := extra % 256;
      num' := num' + 1;
    }
    ops' := ops + [op];
    assert packed[num..num'] == FlatOp(op);
    PackedPush(p0, num, c0, ops, op, packed[..], counts[..]);
  }

  lemma {:induction false} UsesBound(ops: seq<Op>, s: nat)
    ensures Uses(ops, s) <= |ops|
  {
    if ops != [] {
      UsesBound(ops[..|ops| - 1], s);
    }
  }

  /** There is room for what stands for at least as many sizes. */
  lemma Room(packed: seq<nat>, num: nat, counts: seq<nat>, ops: seq<Op>)
    requires Packed(packed, num, counts, ops)
    ensures num <= |Unpacked(ops)| && |ops| <= num && forall s :: Uses(ops, s) <= num
  {
    FlatNoLonger(ops);
    forall s: nat ensures Uses(ops, s) <= num {
      UsesBound(ops, s);
    }
  }

  lemma RepeatMore(v: nat, n: nat)
    ensures Repeat(v, n + 1) == Repeat(v, n) + [v] && Repeat(v, 0) == []
    ensures PlainSizes(v, n + 1) == PlainSizes(v, n) + [Size(v)] && PlainSizes(v, 0) == []
  {
  }

  /** Emits n equal sizes one by one. */
  method PutSizes(packed: array<nat>, num: nat, counts: array<nat>, v: nat, n: nat, ghost ops: seq<Op>)
    returns (num': nat, ghost ops': seq<Op>)
    requires packed != counts && Packed(packed[..], num, counts[..], ops) && v <= 15
    requires |Unpacked(ops)| + n <= packed.Length <= 0xFFFF
    modifies packed, counts
    ensures Packed(packed[..], num', counts[..], ops') && Unpacked(ops') == Unpacked(ops) + Repeat(v, n)
    ensures ops' == ops + PlainSizes(v, n)
  {
    hide Packed, Unpacked, Flat, Repeat, PlainSizes;
    num', ops' := num, ops;
    var left := n;
    RepeatMore(v, 0);
    while left > 0
      invariant 0 <= left <= n && Packed(packed[..], num', counts[..], ops')
      invariant Unpacked(ops') == Unpacked(ops) + Repeat(v, n - left) && ops' == ops + PlainSizes(v, n - left)
    {
      Room(packed[..], num', counts[..], ops');
      RepeatMore(v, n - left);
      num', ops' := PutOp(packed, num', counts, v, 0, Size(v), ops');
      left := left - 1;
    }
  }

  /** TDEFL_RLE_PREV_CODE_SIZE: writes out the pending repeats of the previous size. */
  method RlePrev(packed: array<nat>, num: nat, counts: array<nat>, repeats: nat, prev: nat, ghost ops: seq<Op>)
    returns (num': nat, ghost ops': seq<Op>)
    requires packed != counts && Packed(packed[..], num, counts[..], ops) && repeats <= 6
    requires |Unpacked(ops)| + repeats <= packed.Length <= 0xFFFF
    requires repeats > 0 ==> prev <= 15 && Unpacked(ops) != [] && Unpacked(ops)[|Unpacked(ops)| - 1] == prev
    modifies packed, counts
    ensures Packed(packed[..], num', counts[..], ops') && Unpacked(ops') == Unpacked(ops) + Repeat(prev, repeats)
    ensures ops' == ops + RepeatOps(prev, repeats) && (repeats == 0 ==> ops' == ops)
  {
    hide Packed, Unpacked, Flat, Repeat, PlainSizes;
    num', ops' := num, ops;
    if repeats != 0 {
      if repeats < 3 {
        num', ops' := PutSizes(packed, num, counts, prev, repeats, ops);
      } else {
        Room(packed[..], num, counts[..], ops);
        num', ops' := PutOp(packed, num, counts, 16, repeats - 3, Copy(repeats), ops);
      }
    } else {
      RepeatMore(prev, 0);
    }
  }

  /** TDEFL_RLE_ZERO_CODE_SIZE: writes out the pending zeros. */
  method RleZero(packed: array<nat>, num: nat, counts: array<nat>, zeros: nat, ghost ops: seq<Op>)
    returns (num': nat, ghost ops': seq<Op>)
    requires packed != counts && Packed(packed[..], num, counts[..], ops) && zeros <= 138
    requires |Unpacked(ops)| + zeros <= packed.Length <= 0xFFFF
    modifies packed, counts
    ensures Packed(packed[..], num', counts[..], ops') && Unpacked(ops') == Unpacked(ops) + Repeat(0, zeros)
    ensures ops' == ops + ZeroOps(zeros) && (zeros == 0 ==> ops' == ops)
  {
    hide Packed, Unpacked, Flat, Repeat, PlainSizes;
    num', ops' := num, ops;
    if zeros != 0 {
      Room(packed[..], num, counts[..], ops);
      if zeros < 3 {
        num', ops' := PutSizes(packed, num, counts, 0, zeros, ops);
      } else if zeros <= 10 {
        num', ops' := PutOp(packed, num, counts, 17, zeros - 3, Zeros(zeros), ops);
      } else {
        num', ops' := PutOp(packed, num, counts, 18, zeros - 11, Zeros(zeros), ops);
      }
    } else {
      RepeatMore(0, 0);
    }
  }

  /** What has been consumed of the sizes: written out, or pending in one of the two counters. */
  ghost predicate Pending(sizes: seq<nat>, i: nat, done: seq<nat>, repeats: nat, zeros: nat, prev: nat)
    requires i <= |sizes|
  {
    && prev == (if i == 0 then 0xFF else sizes[i - 1])
    && repeats < 6 && zeros < 138
    && (repeats == 0 || zeros == 0)
    && (repeats > 0 ==> 0 < prev <= 15 && done != [] && done[|done| - 1] == prev)
    && sizes[..i] == done + Repeat(if repeats > 0 then prev else 0, repeats + zeros)
  }

  lemma PendingZero(sizes: seq<nat>, i: nat, done: seq<nat>, zeros: nat, prev: nat)
    requires i < |sizes| && sizes[i] == 0 && zeros < 138
    requires Pending(sizes, i, done, 0, zeros, prev)
    ensures sizes[..i + 1] == done + Repeat(0, zeros + 1)
    ensures zeros + 1 < 138 ==> Pending(sizes, i + 1, done, 0, zeros + 1, 0)
    ensures Pending(sizes, i + 1, done + Repeat(0, zeros + 1), 0, 0, 0)
  {
    assert sizes[..i + 1] == sizes[..i] + [0];
  }

  lemma PendingRepeat(sizes: seq<nat>, i: nat, done: seq<nat>, repeats: nat, prev: nat)
    requires i < |sizes| && sizes[i] == prev && 1 <= prev <= 15
    requires Pending(sizes, i, done, repeats, 0, prev)
    ensures done != [] && done[|done| - 1] == prev && sizes[..i + 1] == done + Repeat(prev, repeats + 1)
    ensures repeats + 1 < 6 ==> Pending(sizes, i + 1, done, repeats + 1, 0, prev)
    ensures Pending(sizes, i + 1, done + Repeat(prev, repeats + 1), 0, 0, prev)
  {
    assert sizes[..i + 1] == sizes[..i] + [prev];
    if repeats == 0 {
      assert sizes[..i] == done;
    }
  }

  lemma PendingSettled(sizes: seq<nat>, i: nat, done: seq<nat>, repeats: nat, zeros: nat, prev: nat, done': seq<nat>)
    requires i <= |sizes| && Pending(sizes, i, done, repeats, zeros, prev)
    requires done' == done + Repeat(if repeats > 0 then prev else 0, repeats + zeros)
    ensures Pending(sizes, i, done', 0, 0, prev)
  {
  }

  lemma PendingSize(sizes: seq<nat>, i: nat, done: seq<nat>, prev: nat)
    requires i < |sizes| && Pending(sizes, i, done, 0, 0, prev)
    ensures Pending(sizes, i + 1, done + [sizes[i]], 0, 0, sizes[i])
  {
    assert sizes[..i + 1] == sizes[..i] + [sizes[i]];
  }

  lemma PendingFacts(sizes: seq<nat>, i: nat, done: seq<nat>, repeats: nat, zeros: nat, prev: nat)
    requires i <= |sizes| && Pending(sizes, i, done, repeats, zeros, prev)
    ensures repeats < 6 && zeros < 138 && (repeats == 0 || zeros == 0) && |done| + repeats + zeros == i
    ensures repeats > 0 ==> 0 < prev <= 15 && done != [] && done[|done| - 1] == prev
    ensures zeros > 0 ==> i > 0 && prev == 0
    ensures repeats == 0 ==> sizes[..i] == done + Repeat(0, zeros)
  {
    if zeros > 0 {
      assert sizes[..i][i - 1] == 0;
    }
  }

  lemma NewValue(sizes: seq<nat>, i: nat, ops: seq<Op>, prev: nat, v: nat)
    requires i <= |sizes| && Pending(sizes, i, Unpacked(ops), 0, 0, prev) && v != prev
    ensures Value(ops) != v
  {
    hide Unpacked;
    if i > 0 {
      assert sizes[..i][i - 1] == prev;
    }
  }

  /** One size. */
  method PackSize(sizes: array<nat>, i: nat, packed: array<nat>, num: nat, counts: array<nat>, repeats: nat,
      zeros: nat, prev: nat, ghost ops: seq<Op>)
    returns (num': nat, repeats': nat, zeros': nat, ghost ops': seq<Op>)
    requires packed != counts && sizes != packed && sizes != counts && i < sizes.Length <= packed.Length <= 0xFFFF
    requires sizes[i] <= 15
    requires Packed(packed[..], num, counts[..], ops) && Pending(sizes[..], i, Unpacked(ops), repeats, zeros, prev)
    requires Ready(ops, prev)
    modifies packed, counts
    ensures Packed(packed[..], num', counts[..], ops') && Ready(ops', sizes[i])
    ensures Pending(sizes[..], i + 1, Unpacked(ops'), repeats', zeros', sizes[i])
  {
    hide Packed, Unpacked, Flat, Repeat, Pending, Ready, Tight, PlainSizes, ZeroOps, RepeatOps;
    num', repeats', zeros', ops' := num, repeats, zeros, ops;
    var codeSize := sizes[i];
    PendingFacts(sizes[..], i, Unpacked(ops), repeats, zeros, prev);
    if codeSize == 0 {
      FlushedRepeats(packed[..], num, counts[..], ops, prev, repeats, ops + RepeatOps(prev, repeats));
      num', ops' := RlePrev(packed, num, counts, repeats, prev, ops);
      if repeats > 0 {
        PendingSettled(sizes[..], i, Unpacked(ops), repeats, zeros, prev, Unpacked(ops'));
      } else {
        RepeatMore(prev, 0);
        assert Unpacked(ops') == Unpacked(ops);
      }
      repeats' := 0;
      PendingZero(sizes[..], i, Unpacked(ops'), zeros, prev);
      zeros' := zeros + 1;
      if zeros' == 138 {
        FlushedZeros(packed[..], num', counts[..], ops', 0, zeros', ops' + ZeroOps(zeros'));
        num', ops' := RleZero(packed, num', counts, zeros', ops');
        zeros' := 0;
      }
    } else {
      FlushedZeros(packed[..], num, counts[..], ops, prev, zeros, ops + ZeroOps(zeros));
      num', ops' := RleZero(packed, num, counts, zeros, ops);
      zeros' := 0;
      if repeats == 0 {
        PendingSettled(sizes[..], i, Unpacked(ops), 0, zeros, prev, Unpacked(ops'));
      } else {
        RepeatMore(0, 0);
        assert Unpacked(ops') == Unpacked(ops);
      }
      if codeSize != prev {
        ghost var done := Unpacked(ops');
        if repeats > 0 {
          FlushedRepeats(packed[..], num', counts[..], ops', prev, repeats, ops' + RepeatOps(prev, repeats));
        }
        num', ops' := RlePrev(packed, num', counts, repeats, prev, ops');
        if repeats > 0 {
          PendingSettled(sizes[..], i, done, repeats, 0, prev, Unpacked(ops'));
        } else {
          RepeatMore(prev, 0);
          assert Unpacked(ops') == done;
        }
        repeats' := 0;
        PendingFacts(sizes[..], i, Unpacked(ops'), 0, 0, prev);
        PendingSize(sizes[..], i, Unpacked(ops'), prev);
        Room(packed[..], num', counts[..], ops');
        NewValue(sizes[..], i, ops', prev, codeSize);
        OneSize(ops', codeSize);
        num', ops' := PutOp(packed, num', counts, codeSize, 0, Size(codeSize), ops');
      } else {
        PendingRepeat(sizes[..], i, Unpacked(ops'), repeats, prev);
        repeats' := repeats + 1;
        if repeats' == 6 {
          FlushedRepeats(packed[..], num', counts[..], ops', prev, repeats', ops' + RepeatOps(prev, repeats'));
          num', ops' := RlePrev(packed, num', counts, repeats', prev, ops');
          repeats' := 0;
        }
      }
    }
  }

  /** The packing loop of tdefl_start_dynamic_block: the packed sequence stands for exactly the given sizes,
      is no longer than they are, and the histogram counts its symbols. */
  method PackCodeSizes(sizes: array<nat>, packed: array<nat>, counts: array<nat>) returns (num: nat, ghost ops: seq<Op>)
    requires packed != counts && sizes != packed && sizes != counts && sizes.Length <= packed.Length <= 0xFFFF
    requires counts.Length >= 19
    requires forall k :: 0 <= k < sizes.Length ==> sizes[k] <= 15
    modifies packed, counts
    ensures Packed(packed[..], num, counts[..], ops) && Unpacked(ops) == sizes[..] && num <= sizes.Length && Tight(ops)
  {
    hide Packed, Unpacked, Flat, Repeat, Pending, Ready, Tight, PlainSizes, ZeroOps, RepeatOps;
    var c := 0;
    while c < 19
      invariant 0 <= c <= 19 && forall k :: 0 <= k < c ==> counts[k] == 0
    {
      counts[c] := 0;
      c := c + 1;
    }
    num, ops := 0, [];
    StartPacking(packed[..], counts[..], sizes[..]);
    var repeats, zeros, prev, i := 0, 0, 0xFF, 0;
    while i < sizes.Length
      invariant 0 <= i <= sizes.Length && Packed(packed[..], num, counts[..], ops)
      invariant Pending(sizes[..], i, Unpacked(ops), repeats, zeros, prev) && Ready(ops, prev)
    {
      num, repeats, zeros, ops := PackSize(sizes, i, packed, num, counts, repeats, zeros, prev, ops);
      prev := sizes[i];
      i := i + 1;
    }
    PendingFacts(sizes[..], i, Unpacked(ops), repeats, zeros, prev);
    ghost var done := Unpacked(ops);
    if repeats != 0 {
      FlushedRepeats(packed[..], num, counts[..], ops, prev, repeats, ops + RepeatOps(prev, repeats));
      num, ops := RlePrev(packed, num, counts, repeats, prev, ops);
    } else {
      FlushedZeros(packed[..], num, counts[..], ops, prev, zeros, ops + ZeroOps(zeros));
      num, ops := RleZero(packed, num, counts, zeros, ops);
    }
    PendingSettled(sizes[..], i, done, repeats, zeros, prev, Unpacked(ops));
    PendingFacts(sizes[..], i, Unpacked(ops), 0, 0, prev);
    RepeatMore(0, 0);
    assert sizes[..i] == sizes[..];
    Room(packed[..], num, counts[..], ops);
  }

  lemma StartPacking(packed: seq<nat>, counts: seq<nat>, sizes: seq<nat>)
    requires |counts| >= 19 && forall k :: 0 <= k < 19 ==> counts[k] == 0
    ensures Packed(packed, 0, counts, []) && Unpacked([]) == [] && Pending(sizes, 0, [], 0, 0, 0xFF)
    ensures Ready([], 0xFF)
  {
  }
}
