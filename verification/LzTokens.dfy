/** The tokens of a Deflate block, what they stand for, and their symbols (section 3.2.5 of RFC 1951). */
module LzTokens {
  import opened Sums
  import opened Bits

  const MIN_MATCH_LEN := 3
  const MAX_MATCH_LEN := 258
  const DICT_SIZE := 32768

  datatype Token = Literal(b: nat) | Match(len: nat, dist: nat)

  predicate WellFormed(t: Token) {
    match t
    case Literal(b) => b < 256
    case Match(len, dist) => MIN_MATCH_LEN <= len <= MAX_MATCH_LEN && 1 <= dist <= DICT_SIZE
  }

  // ---------------------------------------------------------------- meaning

  /** `len` bytes copied one at a time from `dist` back, so that a copy may read what it has just written. */
  ghost function Copy(out: seq<nat>, dist: nat, len: nat): (r: seq<nat>)
    requires 1 <= dist <= |out|
    ensures |r| == |out| + len && r[..|out|] == out
  {
    if len == 0 then out else var r := Copy(out, dist, len - 1); r + [r[|r| - dist]]
  }

  ghost predicate Applies(t: Token, out: seq<nat>) {
    WellFormed(t) && (t.Match? ==> t.dist <= |out|)
  }

  ghost function Apply(out: seq<nat>, t: Token): (r: seq<nat>)
    ensures Applies(t, out) ==> |r| == |out| + Length(t)
  {
    if !Applies(t, out) then out
    else match t
         case Literal(b) => out + [b]
         case Match(len, dist) => Copy(out, dist, len)
  }

  function Length(t: Token): nat {
    match t
    case Literal(b) => 1
    case Match(len, dist) => len
  }

  /** Every match reaches back only to bytes that exist. */
  ghost predicate Valid(ts: seq<Token>, out: seq<nat>) {
    ts != [] ==> Valid(ts[..|ts| - 1], out) && Applies(ts[|ts| - 1], Expand(ts[..|ts| - 1], out))
  }

  /** The text after the tokens, when `out` precedes it. */
  ghost function Expand(ts: seq<Token>, out: seq<nat>): seq<nat> {
    if ts == [] then out else Apply(Expand(ts[..|ts| - 1], out), ts[|ts| - 1])
  }

  lemma PushToken(ts: seq<Token>, t: Token, out: seq<nat>)
    ensures Expand(ts + [t], out) == Apply(Expand(ts, out), t)
    ensures Valid(ts + [t], out) <==> Valid(ts, out) && Applies(t, Expand(ts, out))
  {
    assert (ts + [t])[..|ts|] == ts;
  }

  lemma {:induction false} Split(ts: seq<Token>, k: nat, out: seq<nat>)
    requires k <= |ts|
    ensures Expand(ts, out) == Expand(ts[k..], Expand(ts[..k], out))
    ensures Valid(ts, out) <==> Valid(ts[..k], out) && Valid(ts[k..], Expand(ts[..k], out))
    decreases |ts|
  {
    if k == |ts| {
      assert ts[..k] == ts && ts[k..] == [];
    } else {
      var n := |ts| - 1;
      Split(ts[..n], k, out);
      assert ts[..n][..k] == ts[..k] && ts[..n][k..] == ts[k..][..n - k];
    }
  }

  /** Where a copied byte comes from. */
  lemma {:induction false} CopyAt(out: seq<nat>, dist: nat, len: nat, i: nat)
    requires 1 <= dist <= |out| && |out| <= i < |out| + len
    ensures Copy(out, dist, len)[i] == Copy(out, dist, len)[i - dist]
  {
    var r := Copy(out, dist, len - 1);
    if i < |out| + len - 1 {
      CopyAt(out, dist, len - 1, i);
    }
  }

  /** A copy is the only continuation that repeats with period `dist`. */
  lemma {:induction false} CopyUnique(out: seq<nat>, dist: nat, len: nat, text: seq<nat>)
    requires 1 <= dist <= |out| && |text| == |out| + len && text[..|out|] == out
    requires forall i :: |out| <= i < |text| ==> text[i] == text[i - dist]
    ensures Copy(out, dist, len) == text
  {
    if len > 0 {
      var n := |text| - 1;
      assert text[..n][..|out|] == out;
      CopyUnique(out, dist, len - 1, text[..n]);
      assert text == text[..n] + [text[n]];
    } else {
      assert text == out;
    }
  }

  /** Earlier output does not change. */
  lemma {:induction false} CopyBehind(before: seq<nat>, out: seq<nat>, dist: nat, len: nat)
    requires 1 <= dist <= |out|
    ensures Copy(before + out, dist, len) == before + Copy(out, dist, len)
  {
    if len == 0 {
    } else {
      CopyBehind(before, out, dist, len - 1);
      var r := Copy(out, dist, len - 1);
      assert before + (r + [r[|r| - dist]]) == before + r + [(before + r)[|before + r| - dist]];
    }
  }

  /** What tokens stand for does not depend on text that they do not reach. */
  lemma {:induction false} ExpandBehind(ts: seq<Token>, before: seq<nat>, out: seq<nat>)
    requires Valid(ts, out)
    ensures Valid(ts, before + out) && Expand(ts, before + out) == before + Expand(ts, out)
  {
    if ts != [] {
      var init, t := ts[..|ts| - 1], ts[|ts| - 1];
      ExpandBehind(init, before, out);
      ApplyBehind(t, before, Expand(init, out));
    }
  }

  lemma ApplyBehind(t: Token, before: seq<nat>, out: seq<nat>)
    requires Applies(t, out)
    ensures Applies(t, before + out) && Apply(before + out, t) == before + Apply(out, t)
  {
    match t
    case Literal(b) =>
      assert before + out + [b] == before + (out + [b]);
    case Match(len, dist) =>
      CopyBehind(before, out, dist, len);
  }

  lemma {:induction false} ExpandKeeps(ts: seq<Token>, out: seq<nat>)
    ensures out <= Expand(ts, out)
  {
    if ts != [] {
      ExpandKeeps(ts[..|ts| - 1], out);
    }
  }

  // ---------------------------------------------------------------- symbols: the compressor's tables

  /** s_tdefl_len_sym and s_tdefl_len_extra, by the runs they consist of; x is the length less 3. */
  function LenSym(x: nat): nat
    requires x < 256
  {
    if x < 8 then 257 + x
    else if x < 16 then 265 + (x - 8) / 2
    else if x < 32 then 269 + (x - 16) / 4
    else if x < 64 then 273 + (x - 32) / 8
    else if x < 128 then 277 + (x - 64) / 16
    else if x < 255 then 281 + (x - 128) / 32
    else 285
  }

  function LenExtra(x: nat): nat
    requires x < 256
  {
    if x < 8 then 0 else if x < 16 then 1 else if x < 32 then 2 else if x < 64 then 3 else if x < 128 then 4
    else if x < 255 then 5 else 0
  }

  /** s_tdefl_small_dist_sym and s_tdefl_small_dist_extra; y is the distance less 1. */
  function SmallDistSym(y: nat): nat
    requires y < 512
  {
    if y < 4 then y
    else if y < 8 then 4 + (y - 4) / 2
    else if y < 16 then 6 + (y - 8) / 4
    else if y < 32 then 8 + (y - 16) / 8
    else if y < 64 then 10 + (y - 32) / 16
    else if y < 128 then 12 + (y - 64) / 32
    else if y < 256 then 14 + (y - 128) / 64
    else 16 + (y - 256) / 128
  }

  function SmallDistExtra(y: nat): nat
    requires y < 512
  {
    if y < 4 then 0 else if y < 8 then 1 else if y < 16 then 2 else if y < 32 then 3 else if y < 64 then 4
    else if y < 128 then 5 else if y < 256 then 6 else 7
  }

  /** s_tdefl_large_dist_sym and s_tdefl_large_dist_extra; z is the high byte of the distance less 1. */
  function LargeDistSym(z: nat): nat
    requires z < 128
  {
    if z < 2 then 0
    else if z < 4 then 18 + (z - 2)
    else if z < 8 then 20 + (z - 4) / 2
    else if z < 16 then 22 + (z - 8) / 4
    else if z < 32 then 24 + (z - 16) / 8
    else if z < 64 then 26 + (z - 32) / 16
    else 28 + (z - 64) / 32
  }

  function LargeDistExtra(z: nat): nat
    requires z < 128
  {
    if z < 2 then 0 else if z < 4 then 8 else if z < 8 then 9 else if z < 16 then 10 else if z < 32 then 11
    else if z < 64 then 12 else 13
  }

  function DistSym(y: nat): nat
    requires y < DICT_SIZE
  {
    if y < 512 then SmallDistSym(y) else LargeDistSym(y / 256)
  }

  function DistExtra(y: nat): nat
    requires y < DICT_SIZE
  {
    if y < 512 then SmallDistExtra(y) else LargeDistExtra(y / 256)
  }

  // ---------------------------------------------------------------- symbols: the decoder's tables

  const LENGTH_BASE: seq<int> := [3, 4, 5, 6, 7, 8, 9, 10, 11, 13, 15, 17, 19, 23, 27, 31, 35, 43, 51, 59, 67, 83, 99,
    115, 131, 163, 195, 227, 258, 0, 0]
  const LENGTH_EXTRA: seq<int> := [0, 0, 0, 0, 0, 0, 0, 0, 1, 1, 1, 1, 2, 2, 2, 2, 3, 3, 3, 3, 4, 4, 4, 4, 5, 5, 5, 5,
    0, 0, 0]
  const DIST_BASE: seq<int> := [1, 2, 3, 4, 5, 7, 9, 13, 17, 25, 33, 49, 65, 97, 129, 193, 257, 385, 513, 769, 1025,
    1537, 2049, 3073, 4097, 6145, 8193, 12289, 16385, 24577, 0, 0]
  const DIST_EXTRA: seq<int> := [0, 0, 0, 0, 1, 1, 2, 2, 3, 3, 4, 4, 5, 5, 6, 6, 7, 7, 8, 8, 9, 9, 10, 10, 11, 11,
    12, 12, 13, 13, 0, 0]

  lemma SmallPowers()
    ensures Pow2(0) == 1 && Pow2(1) == 2 && Pow2(2) == 4 && Pow2(3) == 8 && Pow2(4) == 16 && Pow2(5) == 32
    ensures Pow2(6) == 64 && Pow2(7) == 128
  {
  }

  lemma LargePowers()
    ensures Pow2(8) == 256 && Pow2(9) == 512 && Pow2(10) == 1024 && Pow2(11) == 2048 && Pow2(12) == 4096
    ensures Pow2(13) == 8192
  {
    SmallPowers();
  }

  /** The length codes of section 3.2.5 of RFC 1951: eight for one length each, then four for every number of extra
      bits, each beginning where the one before it ends; and a last one for 258. */
  lemma LengthTable(s: nat)
    requires s < 29
    ensures 0 <= LENGTH_EXTRA[s] == if s < 8 || s == 28 then 0 else (s - 4) / 4
    ensures LENGTH_BASE[0] == MIN_MATCH_LEN == 3 && LENGTH_BASE[28] == MAX_MATCH_LEN == 258
    ensures s < 27 ==> LENGTH_BASE[s + 1] == LENGTH_BASE[s] + Pow2(LENGTH_EXTRA[s])
  {
    SmallPowers();
    hide Pow2;
  }

  /** The distance codes of that section: four for one distance each, then two for every number of extra bits, each
      beginning where the one before it ends. */
  lemma DistanceTable(s: nat)
    requires s < 30
    ensures 0 <= DIST_EXTRA[s] == if s < 4 then 0 else s / 2 - 1
    ensures DIST_BASE[0] == 1 && (s < 29 ==> DIST_BASE[s + 1] == DIST_BASE[s] + Pow2(DIST_EXTRA[s]))
    ensures DIST_BASE[29] + Pow2(DIST_EXTRA[29]) - 1 == DICT_SIZE
  {
    SmallPowers();
    LargePowers();
    hide Pow2;
  }

  lemma ShortestLengths(x: nat)
    requires x < 16
    ensures 257 <= LenSym(x) <= 285 && LENGTH_EXTRA[LenSym(x) - 257] == LenExtra(x)
    ensures LENGTH_BASE[LenSym(x) - 257] + x % Pow2(LenExtra(x)) == x + 3
  {
    SmallPowers();
    hide Pow2;
  }

  lemma ShortLengths(x: nat)
    requires 16 <= x < 32
    ensures 257 <= LenSym(x) <= 285 && LENGTH_EXTRA[LenSym(x) - 257] == LenExtra(x)
    ensures LENGTH_BASE[LenSym(x) - 257] + x % Pow2(LenExtra(x)) == x + 3
  {
    SmallPowers();
    hide Pow2;
  }

  lemma MiddleLengths(x: nat)
    requires 32 <= x < 128
    ensures 257 <= LenSym(x) <= 285 && LENGTH_EXTRA[LenSym(x) - 257] == LenExtra(x)
    ensures LENGTH_BASE[LenSym(x) - 257] + x % Pow2(LenExtra(x)) == x + 3
  {
    SmallPowers();
    hide Pow2;
  }

  lemma LongLengths(x: nat)
    requires 128 <= x < 256
    ensures 257 <= LenSym(x) <= 285 && LENGTH_EXTRA[LenSym(x) - 257] == LenExtra(x)
    ensures LENGTH_BASE[LenSym(x) - 257] + x % Pow2(LenExtra(x)) == x + 3
  {
    SmallPowers();
    hide Pow2;
  }

  /** Decoder base plus extra bits give back every length. */
  lemma LengthRoundTrip(x: nat)
    requires x < 256
    ensures 257 <= LenSym(x) <= 285 && LENGTH_EXTRA[LenSym(x) - 257] == LenExtra(x) <= 13
    ensures LENGTH_BASE[LenSym(x) - 257] + x % Pow2(LenExtra(x)) == x + 3
  {
    if x < 16 {
      ShortestLengths(x);
    } else if x < 32 {
      ShortLengths(x);
    } else if x < 128 {
      MiddleLengths(x);
    } else {
      LongLengths(x);
    }
  }

  lemma NearestDistances(y: nat)
    requires y < 16
    ensures DistSym(y) < 30 && DIST_EXTRA[DistSym(y)] == DistExtra(y)
    ensures DIST_BASE[DistSym(y)] + y % Pow2(DistExtra(y)) == y + 1
  {
    SmallPowers();
    hide Pow2;
  }

  lemma NearDistances(y: nat)
    requires 16 <= y < 64
    ensures DistSym(y) < 30 && DIST_EXTRA[DistSym(y)] == DistExtra(y)
    ensures DIST_BASE[DistSym(y)] + y % Pow2(DistExtra(y)) == y + 1
  {
    SmallPowers();
    hide Pow2;
  }

  lemma MiddleDistances(y: nat)
    requires 64 <= y < 512
    ensures DistSym(y) < 30 && DIST_EXTRA[DistSym(y)] == DistExtra(y)
    ensures DIST_BASE[DistSym(y)] + y % Pow2(DistExtra(y)) == y + 1
  {
    SmallPowers();
    hide Pow2;
  }

  lemma FarDistances(y: nat)
    requires 512 <= y < 4096
    ensures DistSym(y) < 30 && DIST_EXTRA[DistSym(y)] == DistExtra(y)
    ensures DIST_BASE[DistSym(y)] + y % Pow2(DistExtra(y)) == y + 1
  {
    LargePowers();
    hide Pow2;
  }

  lemma FarthestDistances(y: nat)
    requires 4096 <= y < DICT_SIZE
    ensures DistSym(y) < 30 && DIST_EXTRA[DistSym(y)] == DistExtra(y)
    ensures DIST_BASE[DistSym(y)] + y % Pow2(DistExtra(y)) == y + 1
  {
    LargePowers();
    hide Pow2;
  }

  /** Decoder base plus extra bits give back every distance. */
  lemma DistanceRoundTrip(y: nat)
    requires y < DICT_SIZE
    ensures DistSym(y) < 30 && DIST_EXTRA[DistSym(y)] == DistExtra(y) <= 13
    ensures DIST_BASE[DistSym(y)] + y % Pow2(DistExtra(y)) == y + 1
  {
    if y < 16 {
      NearestDistances(y);
    } else if y < 64 {
      NearDistances(y);
    } else if y < 512 {
      MiddleDistances(y);
    } else if y < 4096 {
      FarDistances(y);
    } else {
      FarthestDistances(y);
    }
  }
}
