/** Variable-length integers as SQLite writes them: seven bits a byte, most significant first, the high bit set on
    all but the last; a ninth byte holds eight bits. */
module Varint {
  import opened Words

  const SLOT_2_0: bv32 := 0x001fc07f
  const SLOT_4_2_0: bv32 := 0xf01fc07f

  // ---------------------------------------------------------------- what a byte string stands for

  /** One more group of seven bits. */
  function Joined(f: bv64, x: bv8): bv64 {
    (f << 7) | ((x & 0x7f) as bv64)
  }

  /** The first n groups of seven bits, read as one number. */
  function Fold(p: seq<bv8>, n: nat): bv64
    requires n <= |p|
  {
    if n == 0 then 0 else Joined(Fold(p, n - 1), p[n - 1])
  }

  /** The ninth byte is not shortened. */
  function JoinedWhole(f: bv64, x: bv8): bv64 {
    (f << 8) | (x as bv64)
  }

  /** What the first n bytes stand for. */
  function Value(p: seq<bv8>, n: nat): bv64
    requires 1 <= n <= 9 && n <= |p|
  {
    if n == 9 then JoinedWhole(Fold(p, 8), p[8]) else Fold(p, n)
  }

  predicate More(x: bv8) {
    x & 0x80 != 0
  }

  /** The number at the start of p is n bytes long, and all of them are among the m bytes there are to read. */
  ghost predicate Ends(p: seq<bv8>, m: nat, n: nat) {
    && 1 <= n <= 9 && n <= m <= |p|
    && (forall i :: 0 <= i < n - 1 ==> More(p[i]))
    && (n < 9 ==> !More(p[n - 1]))
  }

  // ---------------------------------------------------------------- the decoder

  // The decoder gathers the even bytes in one 32-bit word and the odd ones in another.

  function Word(x: bv8): bv32 {
    x as bv32
  }

  function Seven(a: bv32): bv32 {
    a & 0x7f
  }

  function Long(a: bv32): bv64 {
    a as bv64
  }

  function Shifted(a: bv32, n: nat): bv32
    requires n < 32
  {
    a >> n
  }

  function Push(a: bv32, x: bv8): bv32 {
    (a << 14) | (x as bv32)
  }

  /** Only the two most recent groups of seven bits. */
  function Two(a: bv32): bv32 {
    a & SLOT_2_0
  }

  /** The two most recent groups, and what there is of the one before. */
  function Three(a: bv32): bv32 {
    a & SLOT_4_2_0
  }

  function Merge(a: bv32, b: bv32): bv32 {
    (a << 7) | b
  }

  function Under(a: bv32, b: bv32): bv32 {
    a | (b << 7)
  }

  function Wide(s: bv32, a: bv32): bv64 {
    ((s as bv64) << 32) | (a as bv64)
  }

  predicate Last(a: bv32) {
    a & 0x80 == 0
  }

  lemma LastByte(a: bv32, x: bv8)
    ensures Last(Push(a, x)) <==> !More(x)
    ensures Last(Word(x)) <==> !More(x)
  {
  }

  lemma Decoded1(x0: bv8)
    requires !More(x0)
    ensures Long(Word(x0)) == Joined(0, x0)
  {
  }

  lemma Decoded2(x0: bv8, x1: bv8)
    requires !More(x1)
    ensures Long(Merge(Seven(Word(x0)), Word(x1))) == Joined(Joined(0, x0), x1)
  {
  }

  lemma Decoded3(x0: bv8, x1: bv8, x2: bv8)
    ensures Long(Under(Two(Push(Word(x0), x2)), Seven(Word(x1)))) == Joined(Joined(Joined(0, x0), x1), x2)
  {
  }

  function Joined4(x0: bv8, x1: bv8, x2: bv8, x3: bv8): bv64 {
    Joined(Joined(Joined(Joined(0, x0), x1), x2), x3)
  }

  function First4(x0: bv8, x1: bv8, x2: bv8, x3: bv8): bv32 {
    Merge(Two(Push(Word(x0), x2)), Two(Push(Word(x1), x3)))
  }

  lemma Decoded4(x0: bv8, x1: bv8, x2: bv8, x3: bv8)
    ensures Long(First4(x0, x1, x2, x3)) == Joined4(x0, x1, x2, x3)
  {
  }

  lemma Decoded5(x0: bv8, x1: bv8, x2: bv8, x3: bv8, x4: bv8)
    requires !More(x4)
    ensures var a, b := Two(Push(Word(x0), x2)), Two(Push(Word(x1), x3));
      Wide(Shifted(a, 18), Under(Push(a, x4), b)) == Joined(Joined4(x0, x1, x2, x3), x4)
  {
  }

  lemma Decoded6(x0: bv8, x1: bv8, x2: bv8, x3: bv8, x4: bv8, x5: bv8)
    requires !More(x5)
    ensures var a, b := Two(Push(Word(x0), x2)), Two(Push(Word(x1), x3));
      Wide(Shifted(Merge(a, b), 18), Merge(Two(Push(a, x4)), Push(b, x5))) ==
        Joined(Joined(Joined4(x0, x1, x2, x3), x4), x5)
  {
  }

  lemma Decoded7(x0: bv8, x1: bv8, x2: bv8, x3: bv8, x4: bv8, x5: bv8, x6: bv8)
    requires !More(x6)
    ensures var a, b := Two(Push(Word(x0), x2)), Two(Push(Word(x1), x3));
      Wide(Shifted(Merge(a, b), 11), Under(Three(Push(Push(a, x4), x6)), Two(Push(b, x5))))
      == Joined(Joined(Joined(Joined4(x0, x1, x2, x3), x4), x5), x6)
  {
  }

  lemma Decoded8(x0: bv8, x1: bv8, x2: bv8, x3: bv8, x4: bv8, x5: bv8, x6: bv8, x7: bv8)
    requires !More(x7)
    ensures var a, b := Two(Push(Word(x0), x2)), Two(Push(Word(x1), x3));
      Wide(Shifted(Merge(a, b), 4), Merge(Two(Push(Push(a, x4), x6)), Three(Push(Push(b, x5), x7))))
      == Joined(Joined(Joined(Joined(Joined4(x0, x1, x2, x3), x4), x5), x6), x7)
  {
  }

  /** Nine bytes: the last one whole, and the lost bits of the fifth one put back. */
  function Low9(a: bv32, b: bv32, x8: bv8): bv32 {
    ((a << 15) | Word(x8)) | (b << 8)
  }

  function High9(s: bv32, x4: bv8): bv32 {
    (s << 4) | Shifted(Seven(Word(x4)), 3)
  }

  lemma Decoded9(x0: bv8, x1: bv8, x2: bv8, x3: bv8, x4: bv8, x5: bv8, x6: bv8, x7: bv8, x8: bv8)
    ensures var a, b := Two(Push(Word(x0), x2)), Two(Push(Word(x1), x3));
      Wide(High9(Merge(a, b), x4), Low9(Two(Push(Push(a, x4), x6)), Two(Push(Push(b, x5), x7)), x8))
      == JoinedWhole(Joined(Joined(Joined(Joined(Joined4(x0, x1, x2, x3), x4), x5), x6), x7), x8)
  {
  }

  lemma FoldStep(p: seq<bv8>, n: nat)
    requires 0 < n <= |p|
    ensures Fold(p, 0) == 0 && Fold(p, n) == Joined(Fold(p, n - 1), p[n - 1])
  {
  }

  lemma Fold4(p: seq<bv8>)
    requires |p| >= 4
    ensures Fold(p, 4) == Joined4(p[0], p[1], p[2], p[3])
  {
    hide Joined;
    FoldStep(p, 1);
    FoldStep(p, 2);
    FoldStep(p, 3);
    FoldStep(p, 4);
  }

  /** sqlite3GetVarint: reads one number of at most maxLength bytes. Returns 0 if it is not all there. */
  method GetVarint(p: seq<bv8>, maxLength: nat) returns (n: nat, v: bv64)
    requires maxLength <= |p|
    ensures n != 0 ==> Ends(p, maxLength, n) && v == Value(p, n)
    ensures n == 0 ==> forall k :: !Ends(p, maxLength, k)
  {
    hide Fold, Joined, Joined4, JoinedWhole, Push, Two, Three, Merge, Under, Word, Seven, Long, Shifted, Wide, Last,
      More, Low9, High9;
    v := 0;
    if maxLength == 0 {
      return 0, v;
    }
    var a: bv32 := Word(p[0]);
    LastByte(0, p[0]);
    FoldStep(p, 1);
    if Last(a) {
      Decoded1(p[0]);
      return 1, Long(a);
    }
    if maxLength <= 1 {
      return 0, v;
    }
    var b: bv32 := Word(p[1]);
    LastByte(0, p[1]);
    FoldStep(p, 2);
    if Last(b) {
      Decoded2(p[0], p[1]);
      return 2, Long(Merge(Seven(a), b));
    }
    if maxLength <= 2 {
      return 0, v;
    }
    LastByte(a, p[2]);
    a := Push(a, p[2]);
    FoldStep(p, 3);
    if Last(a) {
      Decoded3(p[0], p[1], p[2]);
      return 3, Long(Under(Two(a), Seven(b)));
    }
    a := Two(a);
    if maxLength <= 3 {
      return 0, v;
    }
    LastByte(b, p[3]);
    b := Push(b, p[3]);
    Fold4(p);
    if Last(b) {
      Decoded4(p[0], p[1], p[2], p[3]);
      assert First4(p[0], p[1], p[2], p[3]) == Merge(a, Two(b));
      return 4, Long(Merge(a, Two(b)));
    }
    b := Two(b);
    n, v := GetVarintLong(p, maxLength, a, b);
  }

  /** The second half of sqlite3GetVarint. */
  method GetVarintLong(p: seq<bv8>, maxLength: nat, a0: bv32, b0: bv32) returns (n: nat, v: bv64)
    requires 4 <= maxLength <= |p| && forall i :: 0 <= i < 4 ==> More(p[i])
    requires a0 == Two(Push(Word(p[0]), p[2])) && b0 == Two(Push(Word(p[1]), p[3]))
    ensures n != 0 ==> Ends(p, maxLength, n) && v == Value(p, n)
    ensures n == 0 ==> forall k :: !Ends(p, maxLength, k)
  {
    hide Fold, Joined, Joined4, JoinedWhole, Push, Two, Three, Merge, Under, Word, Seven, Long, Shifted, Wide, Last,
      More, Low9, High9;
    var a, b, s := a0, b0, a0;
    Fold4(p);
    v := 0;
    if maxLength <= 4 {
      return 0, v;
    }
    LastByte(a, p[4]);
    a := Push(a, p[4]);
    FoldStep(p, 5);
    if Last(a) {
      Decoded5(p[0], p[1], p[2], p[3], p[4]);
      return 5, Wide(Shifted(s, 18), Under(a, b));
    }
    s := Merge(s, b);
    if maxLength <= 5 {
      return 0, v;
    }
    LastByte(b, p[5]);
    b := Push(b, p[5]);
    FoldStep(p, 6);
    if Last(b) {
      Decoded6(p[0], p[1], p[2], p[3], p[4], p[5]);
      return 6, Wide(Shifted(s, 18), Merge(Two(a), b));
    }
    if maxLength <= 6 {
      return 0, v;
    }
    LastByte(a, p[6]);
    a := Push(a, p[6]);
    FoldStep(p, 7);
    if Last(a) {
      Decoded7(p[0], p[1], p[2], p[3], p[4], p[5], p[6]);
      return 7, Wide(Shifted(s, 11), Under(Three(a), Two(b)));
    }
    a := Two(a);
    if maxLength <= 7 {
      return 0, v;
    }
    LastByte(b, p[7]);
    b := Push(b, p[7]);
    FoldStep(p, 8);
    if Last(b) {
      Decoded8(p[0], p[1], p[2], p[3], p[4], p[5], p[6], p[7]);
      return 8, Wide(Shifted(s, 4), Merge(a, Three(b)));
    }
    if maxLength <= 8 {
      return 0, v;
    }
    Decoded9(p[0], p[1], p[2], p[3], p[4], p[5], p[6], p[7], p[8]);
    return 9, Wide(High9(s, p[4]), Low9(a, Two(b), p[8]));
  }

  // ---------------------------------------------------------------- the encoder

  function LowSeven(v: bv64): bv8 {
    (v & 0x7f) as bv8
  }

  function Group(v: bv64): bv8 {
    LowSeven(v) | 0x80
  }

  /** n groups of seven bits, each marked as not the last. */
  function Digits(v: bv64, n: nat): (r: seq<bv8>)
    ensures |r| == n
  {
    if n == 0 then [] else Digits(v >> 7, n - 1) + [Group(v)]
  }

  /** The number of groups of seven bits in v. */
  function Groups(v: bv64): (r: nat)
    ensures r >= 1
    decreases v
  {
    if v >> 7 == 0 then 1 else
      assert v >> 7 < v;
      1 + Groups(v >> 7)
  }

  predicate NeedsNine(v: bv64) {
    v >> 56 != 0
  }

  /** The bytes of v. */
  function Encoded(v: bv64): seq<bv8> {
    if NeedsNine(v) then Digits(v >> 8, 8) + [LowByte(v)] else Digits(v >> 7, Groups(v) - 1) + [LowSeven(v)]
  }

  /** v has at most n groups. */
  predicate Fits(v: bv64, n: nat) {
    if n == 0 then v == 0 else Fits(v >> 7, n - 1)
  }

  lemma {:induction false} GroupsFit(v: bv64)
    ensures Fits(v, Groups(v))
    decreases v
  {
    if v >> 7 != 0 {
      assert v >> 7 < v;
      GroupsFit(v >> 7);
    } else {
      assert Fits(v >> 7, 0);
    }
  }

  lemma FitsEight(v: bv64)
    requires v >> 56 == 0
    ensures Fits(v, 8)
  {
    var x := v >> 7 >> 7 >> 7 >> 7 >> 7 >> 7 >> 7;
    assert x >> 7 == 0;
    assert Fits(x >> 7, 0);
    assert Fits(x, 1);
    assert Fits(v >> 7 >> 7 >> 7 >> 7 >> 7 >> 7, 2);
    assert Fits(v >> 7 >> 7 >> 7 >> 7 >> 7, 3);
    assert Fits(v >> 7 >> 7 >> 7 >> 7, 4);
    assert Fits(v >> 7 >> 7 >> 7, 5);
    assert Fits(v >> 7 >> 7, 6);
    assert Fits(v >> 7, 7);
  }

  lemma FitsTen(v: bv64)
    ensures Fits(v, 10)
  {
    var x := v >> 7 >> 7;
    assert x >> 56 == 0;
    FitsEight(x);
    assert Fits(v >> 7, 9);
  }

  lemma EightFit(v: bv64)
    requires Fits(v, 8)
    ensures v >> 56 == 0
  {
    var x := v >> 7 >> 7 >> 7 >> 7;
    assert Fits(v >> 7, 7);
    assert Fits(v >> 7 >> 7, 6);
    assert Fits(v >> 7 >> 7 >> 7, 5);
    assert Fits(x, 4);
    FourFit(x);
    assert x >> 28 == v >> 56;
  }

  lemma FourFit(v: bv64)
    requires Fits(v, 4)
    ensures v >> 28 == 0
  {
    assert Fits(v >> 7, 3);
    assert Fits(v >> 7 >> 7, 2);
    assert Fits(v >> 7 >> 7 >> 7, 1);
    assert Fits(v >> 7 >> 7 >> 7 >> 7, 0);
  }

  lemma {:induction false} FitsMore(v: bv64, n: nat, m: nat)
    requires Fits(v, n) && n <= m
    ensures Fits(v, m)
  {
    if n > 0 {
      FitsMore(v >> 7, n - 1, m - 1);
    } else if m > 0 {
      assert v >> 7 == 0;
      FitsMore(v >> 7, 0, m - 1);
    }
  }

  lemma {:induction false} FitsBound(v: bv64, n: nat)
    requires Fits(v, n) && n >= 1
    ensures Groups(v) <= n
  {
    if v >> 7 != 0 {
      FitsBound(v >> 7, n - 1);
    }
  }

  lemma GroupsBound(v: bv64)
    ensures if NeedsNine(v) then 9 <= Groups(v) <= 10 else Groups(v) <= 8
  {
    if NeedsNine(v) {
      FitsTen(v);
      FitsBound(v, 10);
      if Groups(v) <= 8 {
        GroupsFit(v);
        FitsMore(v, Groups(v), 8);
        EightFit(v);
      }
    } else {
      FitsEight(v);
      FitsBound(v, 8);
    }
  }

  lemma EncodedLength(v: bv64)
    ensures |Encoded(v)| == if Groups(v) >= 9 then 9 else Groups(v)
    ensures 1 <= |Encoded(v)| <= 9
  {
    GroupsBound(v);
  }

  /** sqlite3VarintLen: the number of bytes of the encoding. */
  method VarintLen(v: bv64) returns (n: nat)
    ensures n == |Encoded(v)|
  {
    hide NeedsNine, Encoded;
    EncodedLength(v);
    GroupsBound(v);
    var w := v >> 7;
    var i := 1;
    while w != 0
      invariant 1 <= i <= 10 && if w == 0 then i == Groups(v) else i + Groups(w) == Groups(v)
      decreases w
    {
      assert i < 10;
      i := i + 1;
      Shrinks(w);
      w := w >> 7;
    }
    if i == 10 {
      return 9;
    }
    return i;
  }

  lemma Shrinks(w: bv64)
    requires w != 0
    ensures w >> 7 < w
    ensures Groups(w) == if w >> 7 == 0 then 1 else 1 + Groups(w >> 7)
  {
  }

  lemma DigitsStep(v: bv64, n: nat)
    requires n > 0
    ensures Digits(v, n) == Digits(v >> 7, n - 1) + [Group(v)]
  {
  }

  function Reversed(s: seq<bv8>): seq<bv8> {
    seq(|s|, i requires 0 <= i < |s| => s[|s| - 1 - i])
  }

  lemma ReversedPush(s: seq<bv8>, x: bv8)
    ensures Reversed(s + [x]) == [x] + Reversed(s)
  {
  }

  /** The first byte gathered is the last one written, and loses its mark. */
  lemma LastReplaced(v: bv64, groups: seq<bv8>)
    requires !NeedsNine(v) && groups != [] && Digits(v, Groups(v)) == Reversed(groups) && groups[0] == Group(v)
    ensures Encoded(v) == Reversed(groups[0 := LowGroup(groups[0])])
  {
    var n := Groups(v);
    assert Digits(v, n) == Digits(v >> 7, n - 1) + [Group(v)];
    assert |groups| == |Reversed(groups)| == n;
    var r := Reversed(groups[0 := LowGroup(Group(v))]);
    Unmarked(v);
    forall i | 0 <= i < n - 1 ensures r[i] == Digits(v >> 7, n - 1)[i] {
      assert r[i] == Reversed(groups)[i];
    }
    assert r == Digits(v >> 7, n - 1) + [LowSeven(v)];
  }

  function LowGroup(x: bv8): bv8 {
    x & 0x7f
  }

  lemma Unmarked(v: bv64)
    ensures LowGroup(Group(v)) == LowSeven(v)
  {
    var x := LowSeven(v);
    assert x & 0x80 == 0;
  }

  lemma GroupsStep(w: bv64)
    ensures Groups(w) == if w >> 7 == 0 then 1 else 1 + Groups(w >> 7)
  {
  }

  /** putVarint64 */
  method PutVarint64(p: array<bv8>, v: bv64) returns (n: nat)
    requires p.Length >= |Encoded(v)|
    modifies p
    ensures n == |Encoded(v)| && p[..n] == Encoded(v) && p[n..] == old(p[n..])
  {
    hide Encoded, LowByte;
    if NeedsNine(v) {
      EncodedNine(v);
      p[8] := LowByte(v);
      PutGroups(p, v >> 8);
      assert p[..9] == p[..8] + [p[8]];
      n := 9;
    } else {
      n := PutShort(p, v);
    }
  }

  lemma EncodedNine(v: bv64)
    requires NeedsNine(v)
    ensures Encoded(v) == Digits(v >> 8, 8) + [LowByte(v)]
  {
  }

  /** Eight marked groups. */
  method PutGroups(p: array<bv8>, v: bv64)
    requires p.Length >= 8
    modifies p
    ensures p[..8] == Digits(v, 8) && p[8..] == old(p[8..])
  {
    hide Digits, Group;
    var w, i: int := v, 7;
    while i >= 0
      invariant -1 <= i <= 7 && |Digits(w, i + 1)| == i + 1 && Digits(v, 8) == Digits(w, i + 1) + p[i + 1..8]
      invariant p[8..] == old(p[8..])
    {
      DigitsStep(w, i + 1);
      p[i] := Group(w);
      w := w >> 7;
      assert p[i..8] == [p[i]] + p[i + 1..8];
      i := i - 1;
    }
  }

  /** The groups are gathered last first. */
  method PutShort(p: array<bv8>, v: bv64) returns (n: nat)
    requires p.Length >= |Encoded(v)| && !NeedsNine(v)
    modifies p
    ensures n == |Encoded(v)| && p[..n] == Encoded(v) && p[n..] == old(p[n..])
  {
    hide Encoded, Digits, Group, LowGroup, Reversed, Groups, NeedsNine;
    EncodedLength(v);
    GroupsBound(v);
    var buf := new bv8[10];
    n := GatherGroups(buf, v);
    LastReplaced(v, buf[..n]);
    ghost var groups := buf[..n];
    buf[0] := LowGroup(buf[0]);
    assert buf[..n] == groups[0 := LowGroup(groups[0])];
    CopyReversed(buf, n, p);
  }

  method GatherGroups(buf: array<bv8>, v: bv64) returns (n: nat)
    requires Groups(v) <= buf.Length
    modifies buf
    ensures n == Groups(v) && Digits(v, n) == Reversed(buf[..n]) && buf[0] == Group(v)
  {
    hide Digits, Group, Reversed, Groups;
    ghost var total := Groups(v);
    n := 0;
    var w := v;
    EmptyEnds(v);
    while true
      invariant n < total && n + Groups(w) == total
      invariant Digits(v, total) == Digits(w, total - n) + Reversed(buf[..n])
      invariant if n > 0 then buf[0] == Group(v) else w == v
      decreases total - n
    {
      ghost var before := buf[..n];
      buf[n] := Group(w);
      assert buf[..n + 1] == before + [Group(w)];
      ReversedPush(before, Group(w));
      DigitsStep(w, total - n);
      GroupsStep(w);
      n := n + 1;
      w := w >> 7;
      if w == 0 {
        EmptyEnds(w);
        break;
      }
    }
  }

  lemma EmptyEnds(w: bv64)
    ensures Digits(w, 0) == [] && Reversed([]) == []
  {
  }

  /** The final loop of putVarint64. */
  method CopyReversed(buf: array<bv8>, n: nat, p: array<bv8>)
    requires n <= buf.Length && n <= p.Length && p != buf
    modifies p
    ensures p[..n] == Reversed(buf[..n]) && p[n..] == old(p[n..])
  {
    var i, j: int := 0, n - 1;
    while j >= 0
      invariant 0 <= i <= n && j == n - 1 - i && buf[..] == old(buf[..]) && p[n..] == old(p[n..])
      invariant forall k :: 0 <= k < i ==> p[k] == buf[n - 1 - k]
    {
      p[i] := buf[j];
      i := i + 1;
      j := j - 1;
    }
    assert p[..n] == Reversed(buf[..n]);
  }

  /** sqlite3PutVarint: short numbers are written directly. */
  method PutVarint(p: array<bv8>, v: bv64) returns (n: nat)
    requires p.Length >= |Encoded(v)|
    modifies p
    ensures n == |Encoded(v)| && p[..n] == Encoded(v) && p[n..] == old(p[n..])
  {
    hide Encoded, LowSeven, Group;
    if v <= 0x7f {
      EncodedOne(v);
      p[0] := LowSeven(v);
      assert p[..1] == [p[0]];
      return 1;
    }
    if v <= 0x3fff {
      EncodedTwo(v);
      p[0] := Group(v >> 7);
      p[1] := LowSeven(v);
      assert p[..2] == [p[0], p[1]];
      return 2;
    }
    n := PutVarint64(p, v);
  }

  lemma EncodedOne(v: bv64)
    requires v <= 0x7f
    ensures Encoded(v) == [LowSeven(v)]
  {
    assert v >> 7 == 0 && v >> 56 == 0;
  }

  lemma EncodedTwo(v: bv64)
    requires 0x7f < v <= 0x3fff
    ensures Encoded(v) == [Group(v >> 7), LowSeven(v)]
  {
    assert v >> 7 != 0 && v >> 7 >> 7 == 0 && v >> 56 == 0;
    assert Groups(v) == 2;
    assert Digits(v >> 7, 1) == Digits(v >> 7 >> 7, 0) + [Group(v >> 7)];
  }

  // ---------------------------------------------------------------- round trip

  lemma RejoinedGroup(v: bv64)
    ensures Joined(v >> 7, Group(v)) == v && More(Group(v))
  {
    var x := Group(v);
    assert x & 0x7f == LowSeven(v);
    assert (v >> 7) << 7 == v & 0xffff_ffff_ffff_ff80;
  }

  lemma RejoinedLast(v: bv64)
    ensures Joined(v >> 7, LowSeven(v)) == v && !More(LowSeven(v))
  {
  }

  lemma RejoinedWhole(v: bv64)
    ensures JoinedWhole(v >> 8, LowByte(v)) == v
  {
  }

  lemma {:induction false} FoldDigits(p: seq<bv8>, v: bv64, n: nat)
    requires n <= |p| && p[..n] == Digits(v, n) && Fits(v, n)
    ensures Fold(p, n) == v && forall i :: 0 <= i < n ==> More(p[i])
  {
    hide Joined, More, Group;
    if n > 0 {
      var w := v >> 7;
      assert Digits(v, n) == Digits(w, n - 1) + [Group(v)];
      assert p[..n - 1] == p[..n][..n - 1] == Digits(w, n - 1);
      assert p[n - 1] == p[..n][n - 1] == Group(v);
      FoldDigits(p, w, n - 1);
      RejoinedGroup(v);
    }
  }

  lemma EncodedParts(v: bv64) returns (n: nat, w: bv64, x: bv8)
    ensures Encoded(v) == Digits(w, n) + [x] && Fits(w, n) && n <= 8
    ensures if n == 8 then JoinedWhole(w, x) == v else Joined(w, x) == v && !More(x)
  {
    hide Joined, JoinedWhole, More, LowByte, LowSeven, Digits;
    GroupsBound(v);
    RejoinedLast(v);
    RejoinedWhole(v);
    if NeedsNine(v) {
      n, w, x := 8, v >> 8, LowByte(v);
      TopFits(v);
    } else {
      n, w, x := Groups(v) - 1, v >> 7, LowSeven(v);
      GroupsFit(v);
    }
  }

  lemma TopFits(v: bv64)
    ensures Fits(v >> 8, 8)
  {
    FitsEight(v >> 8);
  }

  /** The decoder's reading of an encoding: exactly its bytes, and the number encoded. */
  lemma RoundTrip(v: bv64, p: seq<bv8>, m: nat)
    requires |Encoded(v)| <= m <= |p| && p[..|Encoded(v)|] == Encoded(v)
    ensures Ends(p, m, |Encoded(v)|) && Value(p, |Encoded(v)|) == v
  {
    hide Encoded, Joined, JoinedWhole, More, Digits, Fits;
    var n, w, x := EncodedParts(v);
    assert p[..n] == p[..n + 1][..n] == Digits(w, n);
    assert p[n] == p[..n + 1][n] == x;
    FoldDigits(p, w, n);
  }

  /** There is only one way to read a number. */
  lemma OneReading(p: seq<bv8>, m: nat, n: nat, m': nat, n': nat)
    requires Ends(p, m, n) && Ends(p, m', n')
    ensures n == n'
  {
  }

  /** If fewer bytes than the encoding has are there, the number cannot be read. */
  lemma TruncatedFails(v: bv64, p: seq<bv8>, m: nat, k: nat)
    requires m < |Encoded(v)| && m <= |p| && p[..m] == Encoded(v)[..m]
    ensures !Ends(p, m, k)
  {
    hide Encoded, Joined, JoinedWhole, More, Digits, Fits;
    var n, w, x := EncodedParts(v);
    var whole := Encoded(v);
    FoldDigits(whole, w, n);
    forall i | 0 <= i < m ensures More(p[i]) {
      assert p[i] == p[..m][i] == whole[i];
    }
  }

  /** Two bytes, by value: 2 * 128 + 44. */
  lemma KnownNumber()
    ensures Ends([0x82, 0x2C], 2, 2) && Value([0x82, 0x2C], 2) == 300
  {
    var p: seq<bv8> := [0x82, 0x2C];
    FoldStep(p, 1);
    FoldStep(p, 2);
  }
}
