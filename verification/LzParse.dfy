/** The circular, mirrored dictionary and its hash chains. */
module LzParse {
  import opened Words
  import opened Collections
  import opened Sums
  import opened Bits
  import opened LzTokens

  const DICT_BYTES := 33025
  const LZ_HASH_SIZE := 32768

  /** x & TDEFL_LZ_DICT_SIZE_MASK */
  function Slot(x: int): (s: nat)
    ensures s < 32768
  {
    x % 32768
  }

  lemma SlotDistinct(a: int, b: int)
    requires Slot(a) == Slot(b) && -32768 < a - b < 32768
    ensures a == b
  {
  }

  /** 32-bit and 16-bit wrapping keep the dictionary slot. */
  lemma SlotWrap(x: int)
    ensures Slot(U32(x)) == Slot(x) && Slot(U16(x)) == Slot(x)
  {
    assert 0x1_0000_0000 == 131072 * 32768 && 0x10000 == 2 * 32768;
    var q, r := x / 0x1_0000_0000, x % 0x1_0000_0000;
    assert x == q * 0x1_0000_0000 + r;
    assert x == (q * 131072) * 32768 + r;
    SlotShift(r, q * 131072);
    var q', r' := x / 0x10000, x % 0x10000;
    assert x == (q' * 2) * 32768 + r';
    SlotShift(r', q' * 2);
  }

  lemma SlotShift(r: int, k: int)
    ensures Slot(k * 32768 + r) == Slot(r)
  {
    var a, b := r / 32768, r % 32768;
    assert k * 32768 + r == (k + a) * 32768 + b;
    var x := k * 32768 + r;
    assert x - (k + a) * 32768 == b;
    var y, z := x / 32768, x % 32768;
    assert x == y * 32768 + z;
  }

  // ---------------------------------------------------------------- the dictionary

  /** The dictionary holds the last 32768 bytes of the text; its first bytes are repeated at the end, so that
      matches can be compared without wrapping. */
  ghost predicate Window(dict: seq<nat>, text: seq<nat>) {
    && |dict| == DICT_BYTES
    && forall q {:trigger Slot(q)} :: 0 <= q < |text| <= q + DICT_SIZE ==>
         dict[Slot(q)] == text[q] && (Slot(q) < MAX_MATCH_LEN - 1 ==> dict[DICT_SIZE + Slot(q)] == text[q])
  }

  lemma WindowPut(dict: seq<nat>, text: seq<nat>, c: nat, dict': seq<nat>)
    requires Window(dict, text) && |dict'| == |dict|
    requires forall i :: 0 <= i < |dict| && i != Slot(|text|) && i != DICT_SIZE + Slot(|text|) ==> dict'[i] == dict[i]
    requires dict'[Slot(|text|)] == c && (Slot(|text|) < MAX_MATCH_LEN - 1 ==> dict'[DICT_SIZE + Slot(|text|)] == c)
    ensures Window(dict', text + [c])
  {
    var text' := text + [c];
    forall q {:trigger Slot(q)} | 0 <= q < |text'| <= q + DICT_SIZE
      ensures dict'[Slot(q)] == text'[q] && (Slot(q) < MAX_MATCH_LEN - 1 ==> dict'[DICT_SIZE + Slot(q)] == text'[q])
    {
      if q < |text| && Slot(q) == Slot(|text|) {
        SlotDistinct(q, |text|);
      }
      hide Slot;
    }
  }

  /** Reading `i` bytes past slot `Slot(p)` never wraps and yields the text. */
  lemma WindowRead(dict: seq<nat>, text: seq<nat>, p: nat, i: nat)
    requires Window(dict, text) && i < MAX_MATCH_LEN && p + i < |text| <= p + DICT_SIZE
    ensures Slot(p) + i < DICT_BYTES && dict[Slot(p) + i] == text[p + i]
  {
    var q := p + i;
    assert Slot(q) == if Slot(p) + i < 32768 then Slot(p) + i else Slot(p) + i - 32768 by {
      var a, b := p / 32768, p % 32768;
      assert q == a * 32768 + (b + i);
      SlotShift(b + i, a);
    }
  }

  /** At position p the text repeats what is `dist` before, for `len` bytes. */
  ghost predicate IsMatch(text: seq<nat>, p: nat, dist: nat, len: nat) {
    1 <= dist <= p && p + len <= |text| && forall i :: p <= i < p + len ==> text[i] == text[i - dist]
  }

  lemma WindowSize(dict: seq<nat>, text: seq<nat>)
    requires Window(dict, text)
    ensures |dict| == DICT_BYTES
  {
  }

  // ---------------------------------------------------------------- filling the dictionary

  /** The n low bits of a ^ b. */
  function Xor(a: nat, b: nat, n: nat): (x: nat)
    ensures x < Pow2(n)
  {
    if n == 0 then 0 else (a + b) % 2 + 2 * Xor(a / 2, b / 2, n - 1)
  }

  lemma HashRange()
    ensures Pow2(15) == LZ_HASH_SIZE && Pow2(13) == 8192 && Pow2(10) == 1024 && Pow2(5) == 32
  {
    assert Pow2(5) == 32 && Pow2(10) == 1024;
  }

  lemma {:induction false} XorLow(a: nat, b: nat, n: nat, m: nat)
    requires m <= n
    ensures Xor(a, b, n) % Pow2(m) == Xor(a, b, m)
  {
    if m == 0 {
      assert Pow2(0) == 1;
    } else {
      XorLow(a / 2, b / 2, n - 1, m - 1);
      HalfMod(Xor(a, b, n), Pow2(m - 1));
      XorHalf(a, b, n);
      XorHalf(a, b, m);
      hide Xor;
      assert Pow2(m) == 2 * Pow2(m - 1);
    }
  }

  lemma XorHalf(a: nat, b: nat, n: nat)
    requires n > 0
    ensures Xor(a, b, n) / 2 == Xor(a / 2, b / 2, n - 1) && Xor(a, b, n) % 2 == (a + b) % 2
  {
  }

  /** Only the low bits of an operand count. */
  lemma {:induction false} XorOfLow(a: nat, a': nat, b: nat, n: nat)
    requires a % Pow2(n) == a' % Pow2(n)
    ensures Xor(a, b, n) == Xor(a', b, n)
  {
    if n > 0 {
      LowHalf(a, a', Pow2(n - 1));
      XorOfLow(a / 2, a' / 2, b / 2, n - 1);
      SameParity(a, a', b);
      hide Pow2;
    }
  }

  lemma LowHalf(a: nat, a': nat, m: nat)
    requires m > 0 && a % (2 * m) == a' % (2 * m)
    ensures a % 2 == a' % 2 && a / 2 % m == a' / 2 % m
  {
    HalfMod(a, m);
    HalfMod(a', m);
  }

  lemma SameParity(a: nat, a': nat, b: nat)
    requires a % 2 == a' % 2
    ensures (a + b) % 2 == (a' + b) % 2
  {
  }

  /** The hash of three bytes, as the compressor first computes it. */
  function Hash3(a: nat, b: nat, c: nat): (h: nat)
    ensures h < LZ_HASH_SIZE
  {
    HashRange();
    Xor(32 * Xor(32 * a, b, 13), c, 15)
  }

  /** The low ten bits of a hash come from its last two bytes only. */
  lemma HashTail(a: nat, b: nat, c: nat)
    ensures Hash3(a, b, c) % 1024 == Xor(32 * b, c, 13) % 1024
  {
    HashRange();
    hide Xor;
    var x := Xor(32 * a, b, 13);
    XorLow(32 * x, c, 15, 10);
    XorLow(32 * b, c, 13, 10);
    XorLow(32 * a, b, 13, 5);
    LastByte(a, b);
    LowFive(x, b);
    XorOfLow(32 * x, 32 * b, c, 10);
  }

  lemma LowFive(x: nat, b: nat)
    requires x % 32 == b % 32
    ensures 32 * x % 1024 == 32 * b % 1024
  {
  }

  /** Five bits of zeros leave the other operand. */
  lemma LastByte(a: nat, b: nat)
    ensures Xor(32 * a, b, 5) == b % 32
  {
    HashRange();
    XorOfLow(32 * a, 0, b, 5);
    XorZero(b, 5);
  }

  lemma {:induction false} XorZero(b: nat, n: nat)
    ensures Xor(0, b, n) == b % Pow2(n)
  {
    if n > 0 {
      XorZero(b / 2, n - 1);
      HalfMod(b, Pow2(n - 1));
    } else {
      assert Pow2(0) == 1;
    }
  }

  /** Rolling the hash on by one byte. */
  lemma HashRolls(a: nat, b: nat, c: nat, d: nat)
    ensures Xor(32 * Hash3(a, b, c), d, 15) == Hash3(b, c, d)
  {
    HashRange();
    HashTail(a, b, c);
    hide Xor, Hash3;
    var x, y := Hash3(a, b, c), Xor(32 * b, c, 13);
    assert 32 * x % 0x8000 == 32 * y % 0x8000;
    XorOfLow(32 * x, 32 * y, d, 15);
    HashIs(b, c, d);
  }

  lemma HashIs(a: nat, b: nat, c: nat)
    ensures Hash3(a, b, c) == Xor(32 * Xor(32 * a, b, 13), c, 15)
  {
  }

  /** The other way the compressor computes it, from the bytes themselves. */
  lemma HashDirect(a: nat, b: nat, c: nat)
    ensures Xor(Xor(1024 * a, 32 * b, 15), c, 15) == Hash3(a, b, c)
  {
    HashRange();
    HashIs(a, b, c);
    XorShift(32 * a, b, 10);
    hide Xor, Hash3;
    var x := Xor(32 * a, b, 13);
    XorLow(32 * a, b, 13, 10);
    LowShift(x);
    XorOfLow(32 * x, 32 * (x % 1024), c, 15);
  }

  lemma LowShift(x: nat)
    ensures 32 * x % 0x8000 == 32 * (x % 1024) % 0x8000
  {
  }

  lemma XorShift(a: nat, b: nat, n: nat)
    ensures Xor(32 * a, 32 * b, n + 5) == 32 * Xor(a, b, n)
  {
    hide Xor;
    XorDouble(a, b, n);
    XorDouble(2 * a, 2 * b, n + 1);
    XorDouble(4 * a, 4 * b, n + 2);
    XorDouble(8 * a, 8 * b, n + 3);
    XorDouble(16 * a, 16 * b, n + 4);
  }

  lemma XorDouble(a: nat, b: nat, n: nat)
    ensures Xor(2 * a, 2 * b, n + 1) == 2 * Xor(a, b, n)
  {
  }

  // ---------------------------------------------------------------- hash chains

  ghost function HashAt(text: seq<nat>, p: nat): (h: nat)
    requires p + 3 <= |text|
    ensures h < LZ_HASH_SIZE
  {
    Hash3(text[p], text[p + 1], text[p + 2])
  }

  /** The last position from `base` on and before p with this hash, -1 if there is none. */
  ghost function Previous(text: seq<nat>, base: nat, p: nat, h: nat): (q: int)
    requires p <= base || p + 2 <= |text|
    ensures q == -1 || (base <= q < p && q + 3 <= |text| && HashAt(text, q) == h)
    ensures forall r :: q < r < p && base <= r ==> HashAt(text, r) != h
    decreases p
  {
    if p <= base then -1 else if HashAt(text, p - 1) == h then p - 1 else Previous(text, base, p - 1, h)
  }

  /** Positions from `base` on and before n are chained by hash: each hash leads to the last of its positions, and each
      position, while its slot is its own, to the one before. Where there is none, the entries are arbitrary. */
  ghost predicate Chained(heads: seq<nat>, links: seq<nat>, text: seq<nat>, base: nat, n: nat) {
    && |heads| == LZ_HASH_SIZE && |links| == DICT_SIZE && base <= n && (n == base || n + 2 <= |text|)
    && (forall h :: 0 <= h < LZ_HASH_SIZE && Previous(text, base, n, h) >= 0 ==>
          heads[h] == U16(Previous(text, base, n, h)))
    && forall p {:trigger Slot(p)} :: base <= p < n <= p + DICT_SIZE && PreviousOf(text, base, p) >= 0 ==>
         links[Slot(p)] == U16(PreviousOf(text, base, p))
  }

  ghost function PreviousOf(text: seq<nat>, base: nat, p: nat): int
    requires p + 3 <= |text|
  {
    Previous(text, base, p, HashAt(text, p))
  }

  lemma {:induction false} PreviousMore(text: seq<nat>, base: nat, p: nat, h: nat, text': seq<nat>)
    requires (p <= base || p + 2 <= |text|) && text <= text'
    ensures Previous(text', base, p, h) == Previous(text, base, p, h)
    decreases p
  {
    hide Hash3;
    if p > base {
      assert HashAt(text', p - 1) == HashAt(text, p - 1);
      PreviousMore(text, base, p - 1, h, text');
    }
  }

  /** More text leaves the chains as they are. */
  lemma ChainedMore(heads: seq<nat>, links: seq<nat>, text: seq<nat>, base: nat, n: nat, text': seq<nat>)
    requires Chained(heads, links, text, base, n) && text <= text'
    ensures Chained(heads, links, text', base, n)
  {
    hide Slot, Hash3, U16, Previous;
    forall h | 0 <= h < LZ_HASH_SIZE && Previous(text', base, n, h) >= 0
      ensures heads[h] == U16(Previous(text', base, n, h))
    {
      PreviousMore(text, base, n, h, text');
    }
    forall p {:trigger Slot(p)} | base <= p < n <= p + DICT_SIZE && PreviousOf(text', base, p) >= 0
      ensures links[Slot(p)] == U16(PreviousOf(text', base, p))
    {
      assert HashAt(text', p) == HashAt(text, p);
      PreviousMore(text, base, p, HashAt(text, p), text');
    }
  }

  lemma NothingChained(heads: seq<nat>, links: seq<nat>, text: seq<nat>, base: nat)
    requires |heads| == LZ_HASH_SIZE && |links| == DICT_SIZE
    ensures Chained(heads, links, text, base, base)
  {
  }

  lemma PreviousNext(text: seq<nat>, base: nat, n: nat, h: nat)
    requires base <= n && n + 3 <= |text|
    ensures Previous(text, base, n + 1, h) == if HashAt(text, n) == h then n else Previous(text, base, n, h)
  {
    hide Hash3;
  }

  /** The next position is put at the head of the chain of its hash. */
  lemma ChainNext(heads: seq<nat>, links: seq<nat>, text: seq<nat>, base: nat, n: nat)
    requires Chained(heads, links, text, base, n) && n + 3 <= |text|
    ensures var h := HashAt(text, n); Chained(heads[h := U16(n)], links[Slot(n) := heads[h]], text, base, n + 1)
  {
    hide Hash3, U16, Previous, HashAt;
    var h := HashAt(text, n);
    var heads', links' := heads[h := U16(n)], links[Slot(n) := heads[h]];
    forall h' | 0 <= h' < LZ_HASH_SIZE && Previous(text, base, n + 1, h') >= 0
      ensures heads'[h'] == U16(Previous(text, base, n + 1, h'))
    {
      PreviousNext(text, base, n, h');
    }
    forall p {:trigger Slot(p)} | base <= p < n + 1 <= p + DICT_SIZE && PreviousOf(text, base, p) >= 0
      ensures links'[Slot(p)] == U16(PreviousOf(text, base, p))
    {
      if p < n && Slot(p) == Slot(n) {
        SlotDistinct(p, n);
      }
    }
  }

  /** m_dict, m_next and m_hash. */
  class Dictionary {
    const bytes: array<nat>
    const next: array<nat>
    const hash: array<nat>
    ghost var text: seq<nat>
    ghost var base: nat
    ghost var linked: nat

    ghost predicate Valid()
      reads this, bytes, next, hash
    {
      && bytes != next && bytes != hash && next != hash && next.Length == DICT_SIZE && hash.Length == LZ_HASH_SIZE
      && Window(bytes[..], text) && AllBytes(text)
      && (forall i :: 0 <= i < next.Length ==> next[i] < 0x10000)
      && (forall i :: 0 <= i < hash.Length ==> hash[i] < 0x10000)
      && base <= |text| && Chained(hash[..], next[..], text, base, linked)
    }

    /** All positions whose three bytes are known are chained. */
    ghost predicate Complete()
      reads this
    {
      linked == if base + 2 <= |text| then |text| - 2 else base
    }

    /** An empty dictionary; chains and hash heads may hold anything. */
    constructor (heads: seq<nat>, links: seq<nat>)
      requires |heads| == LZ_HASH_SIZE && |links| == DICT_SIZE
      requires (forall i :: 0 <= i < |heads| ==> heads[i] < 0x10000)
      requires forall i :: 0 <= i < |links| ==> links[i] < 0x10000
      ensures Valid() && Complete() && text == [] && base == 0 && fresh(bytes) && fresh(next) && fresh(hash)
    {
      bytes := new nat[DICT_BYTES](_ => 0);
      next := new nat[DICT_SIZE](i requires 0 <= i < DICT_SIZE => links[i]);
      hash := new nat[LZ_HASH_SIZE](i requires 0 <= i < LZ_HASH_SIZE => heads[i]);
      text, base, linked := [], 0, 0;
      new;
      NothingChained(hash[..], next[..], [], 0);
    }

    /** Stores the next byte of the text, and its mirror image near the start. */
    method Put(dst: nat, c: nat)
      requires Valid() && dst == Slot(|text|) && c < 256
      modifies `text, bytes
      ensures Valid() && text == old(text) + [c]
    {
      hide Window, Slot, Chained;
      ghost var before := bytes[..];
      WindowSize(before, text);
      SlotBelow(|text|);
      bytes[dst] := c;
      if dst < MAX_MATCH_LEN - 1 {
        bytes[DICT_SIZE + dst] := c;
      }
      WindowPut(before, text, c, bytes[..]);
      ChainedMore(hash[..], next[..], text, base, linked, text + [c]);
      text := text + [c];
    }

    /** Puts a position at the head of its hash chain. */
    method Link(insPos: nat, h: nat)
      requires Valid() && insPos == U32(linked) && linked + 3 <= |text| && h == HashAt(text, linked)
      modifies `linked, next, hash
      ensures Valid() && linked == old(linked) + 1
      ensures next[..] == old(next[..])[Slot(old(linked)) := old(hash[h])]
      ensures hash[..] == old(hash[..])[h := U16(old(linked))]
    {
      hide Window, Slot, Chained, HashAt, U32, U16;
      LinkRange(linked);
      ChainNext(hash[..], next[..], text, base, linked);
      next[Slot(insPos)] := hash[h];
      hash[h] := U16(insPos);
      linked := linked + 1;
    }

    /** No position is on any hash chain. */
    ghost predicate Empty()
      reads this, next, hash
    {
      (forall i :: 0 <= i < next.Length ==> next[i] == 0) && forall i :: 0 <= i < hash.Length ==> hash[i] == 0
    }

    /** Forgets all hash chains. */
    method Forget()
      requires Valid()
      modifies `base, `linked, next, hash
      ensures Valid() && Complete() && base == |text| && Empty()
    {
      hide Window, Chained;
      Clear(hash, 0);
      Clear(next, 0);
      base, linked := |text|, |text|;
      NothingChained(hash[..], next[..], text, base);
    }

    /** The byte of the text at position p. */
    method TextAt(ghost p: nat, at: nat) returns (b: nat)
      requires Valid() && p < |text| <= p + DICT_SIZE && at == Slot(p)
      ensures b == text[p] && b < 256
    {
      hide Slot, Window;
      WindowSize(bytes[..], text);
      WindowRead(bytes[..], text, p, 0);
      b := bytes[at];
    }
  }

  lemma SlotBelow(x: int)
    ensures 0 <= Slot(x) < 32768
  {
  }

  /** 32-bit positions have the slots and the low bits of the position itself. */
  lemma LinkRange(n: nat)
    ensures Slot(U32(n)) == Slot(n) < DICT_SIZE && U16(U32(n)) == U16(n) < 0x10000
  {
    SlotWrap(n);
    var q := n / 0x1_0000_0000;
    assert n == q * 0x1_0000_0000 + U32(n);
    SameHalf(U32(n), q);
  }

  lemma SameHalf(x: nat, q: nat)
    ensures U16(q * 0x1_0000_0000 + x) == U16(x)
  {
    var a, r := x / 0x10000, x % 0x10000;
    var y := q * 0x1_0000_0000 + x;
    assert y == (q * 0x10000 + a) * 0x10000 + r;
    var b, t := y / 0x10000, y % 0x10000;
    assert y == b * 0x10000 + t;
  }
}
