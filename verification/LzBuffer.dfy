/** The token buffer: groups of up to eight tokens behind a byte of flags. */
module LzBuffer {
  import opened Collections
  import opened Sums
  import opened Bits
  import opened LzTokens

  const LZ_CODE_BUF_SIZE := 65536

  /** A token's bytes. */
  ghost function ItemBytes(t: Token): seq<int> {
    match t
    case Literal(b) => [b]
    case Match(len, dist) => [len - 3, (dist - 1) % 256, (dist - 1) / 256]
  }

  ghost function Items(ts: seq<Token>): seq<int> {
    if ts == [] then [] else Items(ts[..|ts| - 1]) + ItemBytes(ts[|ts| - 1])
  }

  /** One flag for each token: is it a match? */
  ghost function Flags(ts: seq<Token>): (s: seq<bool>)
    ensures |s| == |ts| && forall i :: 0 <= i < |s| ==> s[i] == ts[i].Match?
  {
    if ts == [] then [] else Flags(ts[..|ts| - 1]) + [ts[|ts| - 1].Match?]
  }

  /** The whole buffer for a sequence of tokens. */
  ghost function Groups(ts: seq<Token>): seq<int> {
    if ts == [] then []
    else
      var n := if |ts| < 8 then |ts| else 8;
      [Val(Flags(ts[..n]))] + Items(ts[..n]) + Groups(ts[n..])
  }

  lemma ItemsPush(a: seq<Token>, t: Token)
    ensures Items(a + [t]) == Items(a) + ItemBytes(t) && Items([]) == []
  {
    assert (a + [t])[..|a|] == a;
  }

  lemma {:induction false} ItemsConcat(a: seq<Token>, b: seq<Token>)
    ensures Items(a + b) == Items(a) + Items(b)
    decreases |b|
  {
    hide Items, ItemBytes;
    if b == [] {
      assert a + b == a;
      ItemsPush([], Literal(0));
    } else {
      var b', t := b[..|b| - 1], b[|b| - 1];
      assert b == b' + [t] && a + b == a + b' + [t];
      ItemsConcat(a, b');
      ItemsPush(b', t);
      ItemsPush(a + b', t);
    }
  }

  lemma FirstGroup(ts: seq<Token>)
    requires |ts| >= 8
    ensures Groups(ts) == [Val(Flags(ts[..8]))] + Items(ts[..8]) + Groups(ts[8..])
  {
  }

  lemma NoGroups()
    ensures Groups([]) == []
  {
  }

  /** Whole groups can be split off. */
  lemma {:induction false} GroupsConcat(full: seq<Token>, g: seq<Token>)
    requires |full| % 8 == 0
    ensures Groups(full + g) == Groups(full) + Groups(g)
  {
    hide Groups, Items, Flags, Val;
    NoGroups();
    if full == [] {
      assert full + g == g;
    } else {
      GroupsConcat(full[8..], g);
      var ts := full + g;
      assert ts[..8] == full[..8] && ts[8..] == full[8..] + g;
      FirstGroup(full);
      FirstGroup(ts);
    }
  }

  lemma OneGroup(g: seq<Token>)
    requires 1 <= |g| <= 8
    ensures Groups(g) == [Val(Flags(g))] + Items(g)
  {
    assert g[..|g|] == g && g[|g|..] == [];
  }

  /** The state of the buffer while tokens are recorded: whole groups, then the group being filled, whose
      flags are the top bits of its flag byte. */
  ghost predicate Buffered(buf: seq<nat>, flags: nat, pos: nat, left: nat, ts: seq<Token>) {
    && 1 <= left <= 8 && 8 - left <= |ts| && (|ts| - (8 - left)) % 8 == 0
    && flags < pos <= |buf| && buf[flags] < 256
    && var k := |ts| - (8 - left);
       && buf[..flags] == Groups(ts[..k]) && buf[flags + 1..pos] == Items(ts[k..])
       && Bin(buf[flags], 8)[left..] == Flags(ts[k..])
  }

  /** flags >> 1 | m << 7 */
  lemma ShiftFlag(f: nat, m: bool)
    requires f < 256
    ensures f / 2 + 128 * B(m) < 256 && Bin(f / 2 + 128 * B(m), 8) == Bin(f, 8)[1..] + [m]
  {
    var s := Bin(f / 2, 7) + [m];
    assert Pow2(7) == 128 && Pow2(8) == 256;
    ValBin(f / 2, 7);
    assert [m][1..] == [];
    ValAppend(Bin(f / 2, 7), [m]);
    BinVal(s, 8);
    assert Val([m]) == B(m);
    assert Bin(f, 8)[1..] == Bin(f / 2, 7);
  }

  lemma FlagsPush(g: seq<Token>, t: Token)
    ensures Flags(g + [t]) == Flags(g) + [t.Match?] && Items(g + [t]) == Items(g) + ItemBytes(t)
  {
    assert (g + [t])[..|g|] == g;
  }

  /** Recording a token within a group. */
  lemma BufferedPush(buf: seq<nat>, flags: nat, pos: nat, left: nat, ts: seq<Token>, t: Token, buf': seq<nat>)
    requires Buffered(buf, flags, pos, left, ts) && |buf'| == |buf| && pos + |ItemBytes(t)| <= |buf|
    requires buf'[..flags] == buf[..flags] && buf'[flags + 1..pos] == buf[flags + 1..pos]
    requires buf'[pos..pos + |ItemBytes(t)|] == ItemBytes(t)
    requires buf'[flags] == buf[flags] / 2 + 128 * B(t.Match?)
    requires left > 1
    ensures Buffered(buf', flags, pos + |ItemBytes(t)|, left - 1, ts + [t])
  {
    hide Bin, Groups, Items, Flags, ItemBytes;
    var k := |ts| - (8 - left);
    var ts' := ts + [t];
    ShiftFlag(buf[flags], t.Match?);
    FlagsPush(ts[k..], t);
    assert ts'[..k] == ts[..k] && ts'[k..] == ts[k..] + [t];
    assert buf'[flags + 1..pos + |ItemBytes(t)|] == buf'[flags + 1..pos] + buf'[pos..pos + |ItemBytes(t)|];
    assert Bin(buf'[flags], 8)[left - 1..] == Bin(buf[flags], 8)[left..] + [t.Match?];
  }

  lemma GroupDone(ts: seq<Token>, g: seq<Token>, f: nat)
    requires |g| == 8 && |ts| % 8 == 0 && f < 256 && Bin(f, 8) == Flags(g)
    ensures Groups(ts + g) == Groups(ts) + [f] + Items(g)
  {
    hide Groups, Items, Flags, Val, Bin, Pow2;
    GroupsConcat(ts, g);
    OneGroup(g);
    Byte(f);
  }

  lemma Byte(f: nat)
    requires f < 256
    ensures Val(Bin(f, 8)) == f
  {
    assert Pow2(8) == 256;
    ValBin(f, 8);
  }

  /** Recording the eighth token of a group opens the next one. */
  lemma BufferedFull(buf: seq<nat>, flags: nat, pos: nat, ts: seq<Token>, t: Token, buf': seq<nat>)
    requires Buffered(buf, flags, pos, 1, ts) && |buf'| == |buf| && pos + |ItemBytes(t)| < |buf|
    requires buf'[..flags] == buf[..flags] && buf'[flags + 1..pos] == buf[flags + 1..pos]
    requires buf'[pos..pos + |ItemBytes(t)|] == ItemBytes(t)
    requires buf'[flags] == buf[flags] / 2 + 128 * B(t.Match?)
    requires buf'[pos + |ItemBytes(t)|] < 256
    ensures Buffered(buf', pos + |ItemBytes(t)|, pos + |ItemBytes(t)| + 1, 8, ts + [t])
  {
    hide Bin, Groups, Items, Flags, ItemBytes;
    var k := |ts| - 7;
    var ts' := ts + [t];
    var g := ts[k..] + [t];
    var p := pos + |ItemBytes(t)|;
    ShiftFlag(buf[flags], t.Match?);
    FlagsPush(ts[k..], t);
    assert Bin(buf'[flags], 8) == Bin(buf[flags], 8)[1..] + [t.Match?];
    GroupDone(ts[..k], g, buf'[flags]);
    assert ts' == ts[..k] + g && ts'[..|ts'|] == ts';
    assert buf'[flags + 1..p] == buf'[flags + 1..pos] + buf'[pos..p];
    assert buf'[..p] == buf'[..flags] + [buf'[flags]] + buf'[flags + 1..p];
    Nothing(buf'[p], ts', buf', p);
  }

  lemma Nothing(f: nat, ts: seq<Token>, buf: seq<nat>, p: nat)
    requires p < |buf|
    ensures Items(ts[|ts|..]) == [] == buf[p + 1..p + 1] && Flags(ts[|ts|..]) == [] == Bin(f, 8)[8..]
  {
    assert ts[|ts|..] == [];
  }

  /** What recording a token does to the buffer, whether or not it completes a group. */
  lemma TokenRecorded(buf: seq<nat>, flags: nat, pos: nat, left: nat, ts: seq<Token>, t: Token, buf': seq<nat>,
      flags': nat, pos': nat, left': nat)
    requires Buffered(buf, flags, pos, left, ts) && |buf'| == |buf| && pos + |ItemBytes(t)| < |buf|
    requires forall i :: 0 <= i < |buf'| ==> buf'[i] < 256
    requires forall i :: 0 <= i < pos && i != flags ==> buf'[i] == buf[i]
    requires forall i :: 0 <= i < |ItemBytes(t)| ==> buf'[pos + i] == ItemBytes(t)[i]
    requires buf'[flags] == buf[flags] / 2 + 128 * B(t.Match?)
    requires left > 1 ==> left' == left - 1 && pos' == pos + |ItemBytes(t)| && flags' == flags
    requires left == 1 ==> left' == 8 && pos' == pos + |ItemBytes(t)| + 1 && flags' == pos + |ItemBytes(t)|
    ensures Buffered(buf', flags', pos', left', ts + [t])
  {
    hide *;
    BufferedFacts(buf, flags, pos, left, ts);
    assert buf'[pos..pos + |ItemBytes(t)|] == ItemBytes(t);
    if left > 1 {
      BufferedPush(buf, flags, pos, left, ts, t, buf');
    } else {
      BufferedFull(buf, flags, pos, ts, t, buf');
    }
  }

  ghost function TotalLength(ts: seq<Token>): nat {
    if ts == [] then 0 else TotalLength(ts[..|ts| - 1]) + Length(ts[|ts| - 1])
  }

  /** Symbol counts, as the histograms keep them. */
  ghost function LitLenSym(t: Token): nat
    requires WellFormed(t)
  {
    match t
    case Literal(b) => b
    case Match(len, dist) => LenSym(len - 3)
  }

  ghost function LitLenUses(ts: seq<Token>, s: nat): nat {
    if ts == [] then 0
    else LitLenUses(ts[..|ts| - 1], s) + if WellFormed(ts[|ts| - 1]) && LitLenSym(ts[|ts| - 1]) == s then 1 else 0
  }

  ghost function DistUses(ts: seq<Token>, s: nat): nat {
    if ts == [] then 0
    else DistUses(ts[..|ts| - 1], s)
         + if WellFormed(ts[|ts| - 1]) && ts[|ts| - 1].Match? && DistSym(ts[|ts| - 1].dist - 1) == s then 1 else 0
  }

  /** The histograms count the symbols of the tokens. */
  ghost predicate Counted(lit: seq<nat>, dist: seq<nat>, ts: seq<Token>) {
    && |lit| == |dist| == 288
    && (forall s :: 0 <= s < 288 ==> lit[s] == LitLenUses(ts, s) && dist[s] == DistUses(ts, s))
    && Sum(lit) == |ts| && Sum(dist) <= |ts| && AllWellFormed(ts)
  }

  ghost predicate AllWellFormed(ts: seq<Token>) {
    forall i :: 0 <= i < |ts| ==> WellFormed(ts[i])
  }

  lemma {:induction false} UsesBound(ts: seq<Token>, s: nat)
    ensures LitLenUses(ts, s) <= |ts| && DistUses(ts, s) <= |ts|
  {
    if ts != [] {
      UsesBound(ts[..|ts| - 1], s);
    }
  }

  lemma UsesPush(ts: seq<Token>, t: Token, s: nat)
    requires WellFormed(t)
    ensures LitLenUses(ts + [t], s) == LitLenUses(ts, s) + if LitLenSym(t) == s then 1 else 0
    ensures DistUses(ts + [t], s) == DistUses(ts, s) + if t.Match? && DistSym(t.dist - 1) == s then 1 else 0
  {
    assert (ts + [t])[..|ts|] == ts;
  }

  ghost function OneMore(c: seq<nat>, i: nat): seq<nat>
    requires i < |c|
  {
    c[i := c[i] + 1]
  }

  /** Counting one more token: no 16-bit counter wraps. */
  lemma CountedPush(lit: seq<nat>, dist: seq<nat>, ts: seq<Token>, t: Token)
    requires Counted(lit, dist, ts) && WellFormed(t) && |ts| < 0xFFFF
    ensures LitLenSym(t) < 288 && lit[LitLenSym(t)] < 0xFFFF
    ensures t.Match? ==> DistSym(t.dist - 1) < 30 && dist[DistSym(t.dist - 1)] < 0xFFFF
    ensures Counted(OneMore(lit, LitLenSym(t)), if t.Match? then OneMore(dist, DistSym(t.dist - 1)) else dist, ts + [t])
  {
    hide LenSym, DistSym, LitLenSym, LitLenUses, DistUses, Sum;
    SymbolRange(t);
    var l := LitLenSym(t);
    UsesBound(ts, l);
    SumUpdate(lit, l, lit[l] + 1);
    if t.Match? {
      UsesBound(ts, DistSym(t.dist - 1));
      SumUpdate(dist, DistSym(t.dist - 1), dist[DistSym(t.dist - 1)] + 1);
    }
    var lit' := lit[l := lit[l] + 1];
    var dist' := if t.Match? then dist[DistSym(t.dist - 1) := dist[DistSym(t.dist - 1)] + 1] else dist;
    forall s | 0 <= s < 288 ensures lit'[s] == LitLenUses(ts + [t], s) && dist'[s] == DistUses(ts + [t], s) {
      UsesPush(ts, t, s);
    }
  }

  lemma SymbolRange(t: Token)
    requires WellFormed(t)
    ensures t.Literal? ==> LitLenSym(t) == t.b < 256
    ensures t.Match? ==> 257 <= LitLenSym(t) <= 285 && LitLenSym(t) == LenSym(t.len - 3) && DistSym(t.dist - 1) < 30
  {
    if t.Match? {
      LengthRoundTrip(t.len - 3);
      DistanceRoundTrip(t.dist - 1);
    }
  }

  lemma {:induction false} ItemsSize(ts: seq<Token>)
    ensures |Items(ts)| >= |ts|
  {
    if ts != [] {
      ItemsSize(ts[..|ts| - 1]);
    }
  }

  lemma {:induction false} GroupsSize(ts: seq<Token>)
    requires |ts| % 8 == 0
    ensures |Groups(ts)| >= |ts| + |ts| / 8
  {
    hide Groups, Items, Flags, Val;
    if ts != [] {
      GroupsSize(ts[8..]);
      FirstGroup(ts);
      ItemsSize(ts[..8]);
    }
  }

  /** Tokens take at least nine eighths of a byte each. */
  lemma TokenBound(buf: seq<nat>, flags: nat, pos: nat, left: nat, ts: seq<Token>)
    requires Buffered(buf, flags, pos, left, ts) && |buf| <= 65536
    ensures |ts| < 0xFFFE && |ts| < pos
  {
    hide Groups, Items, Flags, Val;
    var k := |ts| - (8 - left);
    GroupsSize(ts[..k]);
    ItemsSize(ts[k..]);
  }

  lemma Opened(buf: seq<nat>)
    requires |buf| >= 2 && buf[0] < 256
    ensures Buffered(buf, 0, 1, 8, [])
  {
    Nothing(buf[0], [], buf, 0);
  }

  lemma {:induction false} NothingCounted(lit: seq<nat>, dist: seq<nat>)
    requires |lit| == |dist| == 288 && forall s :: 0 <= s < 288 ==> lit[s] == dist[s] == 0
    ensures Counted(lit, dist, [])
  {
    ZeroSum(lit);
    ZeroSum(dist);
  }

  lemma {:induction false} ZeroSum(s: seq<nat>)
    requires forall i :: 0 <= i < |s| ==> s[i] == 0
    ensures Sum(s) == 0
  {
    if s != [] {
      ZeroSum(s[..|s| - 1]);
    }
  }

  lemma NoTotal()
    ensures TotalLength([]) == 0
  {
  }

  lemma TotalPush(ts: seq<Token>, t: Token)
    ensures TotalLength(ts + [t]) == TotalLength(ts) + Length(t)
  {
    assert (ts + [t])[..|ts|] == ts;
  }

  /** m_lz_code_buf, its cursors, and the symbol histograms. */
  class TokenBuffer {
    const buf: array<nat>
    const litCounts: array<nat>
    const distCounts: array<nat>
    var pos: nat
    var flags: nat
    var flagsLeft: nat
    var totalBytes: nat
    ghost var tokens: seq<Token>

    ghost predicate Valid()
      reads this, buf, litCounts, distCounts
    {
      && buf.Length == LZ_CODE_BUF_SIZE && buf != litCounts && buf != distCounts && litCounts != distCounts
      && (forall i :: 0 <= i < buf.Length ==> buf[i] < 256)
      && Buffered(buf[..], flags, pos, flagsLeft, tokens)
      && Counted(litCounts[..], distCounts[..], tokens)
      && totalBytes == TotalLength(tokens)
    }

    constructor ()
      ensures Valid() && tokens == [] && pos == 1 && fresh(buf) && fresh(litCounts) && fresh(distCounts)
    {
      buf := new nat[LZ_CODE_BUF_SIZE](_ => 0);
      litCounts := new nat[288](_ => 0);
      distCounts := new nat[288](_ => 0);
      pos, flags, flagsLeft, totalBytes, tokens := 1, 0, 8, 0, [];
      new;
      Opened(buf[..]);
      NothingCounted(litCounts[..], distCounts[..]);
    }

    /** Shifts the current flag into its byte and opens the next group after the eighth. */
    method CountFlag(m: bool)
      requires flagsLeft >= 1 && flags < buf.Length && pos <= buf.Length && buf[flags] < 256 && flags < pos
      modifies this`pos, this`flags, this`flagsLeft, buf
      ensures buf[old(flags)] == old(buf[flags]) / 2 + 128 * B(m)
      ensures forall i :: 0 <= i < buf.Length && i != old(flags) ==> buf[i] == old(buf[i])
      ensures old(flagsLeft) > 1 ==> flagsLeft == old(flagsLeft) - 1 && pos == old(pos) && flags == old(flags)
      ensures old(flagsLeft) == 1 ==> flagsLeft == 8 && pos == old(pos) + 1 && flags == old(pos)
    {
      buf[flags] := buf[flags] / 2 + if m then 128 else 0;
      flagsLeft := flagsLeft - 1;
      if flagsLeft == 0 {
        flagsLeft := 8;
        flags := pos;
        pos := pos + 1;
      }
    }

    /** tdefl_record_literal */
    method RecordLiteral(lit: nat)
      requires Valid() && lit < 256 && pos + 2 <= LZ_CODE_BUF_SIZE
      modifies this, buf, litCounts
      ensures Valid() && tokens == old(tokens) + [Literal(lit)] && pos <= old(pos) + 2
    {
      hide Buffered, Counted, LenSym, DistSym, LitLenSym, TotalLength;
      TokenBound(buf[..], flags, pos, flagsLeft, tokens);
      BufferedFacts(buf[..], flags, pos, flagsLeft, tokens);
      ghost var buf0 := buf[..];
      ghost var t := Literal(lit);
      ghost var flags0, pos0, left0 := flags, pos, flagsLeft;
      totalBytes := totalBytes + 1;
      buf[pos] := lit;
      pos := pos + 1;
      CountFlag(false);
      TokenRecorded(buf0, flags0, pos0, left0, tokens, t, buf[..], flags, pos, flagsLeft);
      CountedFacts(litCounts[..], distCounts[..], tokens);
      CountedPush(litCounts[..], distCounts[..], tokens, t);
      SymbolRange(t);
      litCounts[lit] := litCounts[lit] + 1;
      TotalPush(tokens, t);
      tokens := tokens + [t];
    }

    /** Counts the symbols of a match. */
    method CountMatch(len: nat, d: nat)
      requires litCounts != distCounts && Counted(litCounts[..], distCounts[..], tokens) && |tokens| < 0xFFFF
      requires WellFormed(Match(len, d + 1))
      modifies litCounts, distCounts
      ensures Counted(litCounts[..], distCounts[..], tokens + [Match(len, d + 1)])
    {
      hide Counted, LenSym, DistSym, LitLenSym;
      CountedFacts(litCounts[..], distCounts[..], tokens);
      CountedPush(litCounts[..], distCounts[..], tokens, Match(len, d + 1));
      SymbolRange(Match(len, d + 1));
      BytewiseDistance(d);
      var sym := if d < 512 then SmallDistSym(d % 512) else LargeDistSym(d / 256 % 128);
      distCounts[sym] := distCounts[sym] + 1;
      litCounts[LenSym(len - MIN_MATCH_LEN)] := litCounts[LenSym(len - MIN_MATCH_LEN)] + 1;
    }

    /** tdefl_record_match */
    method RecordMatch(len: nat, dist: nat)
      requires Valid() && WellFormed(Match(len, dist)) && pos + 4 <= LZ_CODE_BUF_SIZE
      modifies this, buf, litCounts, distCounts
      ensures Valid() && tokens == old(tokens) + [Match(len, dist)] && pos <= old(pos) + 4
    {
      hide Buffered, Counted, LenSym, DistSym, LitLenSym, TotalLength;
      TokenBound(buf[..], flags, pos, flagsLeft, tokens);
      BufferedFacts(buf[..], flags, pos, flagsLeft, tokens);
      ghost var buf0 := buf[..];
      ghost var t := Match(len, dist);
      ghost var flags0, pos0, left0 := flags, pos, flagsLeft;
      totalBytes := totalBytes + len;
      buf[pos] := len - MIN_MATCH_LEN;
      var d := dist - 1;
      buf[pos + 1] := d % 256;
      buf[pos + 2] := d / 256;
      pos := pos + 3;
      CountFlag(true);
      TokenRecorded(buf0, flags0, pos0, left0, tokens, t, buf[..], flags, pos, flagsLeft);
      CountMatch(len, d);
      TotalPush(tokens, t);
      tokens := tokens + [t];
    }

    ghost predicate Shape()
      reads this, buf
    {
      && buf.Length == LZ_CODE_BUF_SIZE && buf != litCounts && buf != distCounts && litCounts != distCounts
      && litCounts.Length == distCounts.Length == 288 && forall i :: 0 <= i < buf.Length ==> buf[i] < 256
    }

    /** All tokens are in the buffer, ready to be read back. */
    ghost predicate Sealed()
      reads this, buf, litCounts, distCounts
    {
      && buf.Length == LZ_CODE_BUF_SIZE && buf != litCounts && buf != distCounts && litCounts != distCounts
      && (forall i :: 0 <= i < buf.Length ==> buf[i] < 256)
      && pos <= buf.Length && buf[..pos] == Groups(tokens)
      && Counted(litCounts[..], distCounts[..], tokens) && |tokens| < 0xFFFE
      && totalBytes == TotalLength(tokens)
    }

    /** What tdefl_flush_block does to the buffer before reading it. */
    method Seal()
      requires Valid()
      modifies this`pos, buf
      ensures Sealed() && Shape()
    {
      CountedFacts(litCounts[..], distCounts[..], tokens);
      hide Buffered, Counted, Shr, Groups, TotalLength, Bin;
      TokenBound(buf[..], flags, pos, flagsLeft, tokens);
      BufferedFacts(buf[..], flags, pos, flagsLeft, tokens);
      ghost var buf0 := buf[..];
      SealedGroups(buf0, flags, pos, flagsLeft, tokens, buf0[flags := Shr(buf0[flags], flagsLeft)]);
      buf[flags] := Shr(buf[flags], flagsLeft);
      assert buf[..] == buf0[flags := Shr(buf0[flags], flagsLeft)];
      if flagsLeft == 8 {
        pos := pos - 1;
      }
    }

    /** The end of tdefl_flush_block: empties the buffer and the histograms. */
    method Reset()
      requires Shape()
      modifies this, buf, litCounts, distCounts
      ensures Valid() && tokens == [] && pos == 1
    {
      hide Buffered, Counted;
      Clear(litCounts, 0);
      Clear(distCounts, 0);
      NoTotal();
      pos, flags, flagsLeft, totalBytes, tokens := 1, 0, 8, 0, [];
      Opened(buf[..]);
      NothingCounted(litCounts[..], distCounts[..]);
    }
  }

  /** The flush-time shift completes the flag byte of a partial group; an empty group is dropped. */
  lemma SealedGroups(buf: seq<nat>, flags: nat, pos: nat, left: nat, ts: seq<Token>, buf': seq<nat>)
    requires Buffered(buf, flags, pos, left, ts) && buf' == buf[flags := Shr(buf[flags], left)]
    ensures buf'[..if left == 8 then pos - 1 else pos] == Groups(ts)
    ensures buf'[flags] < 256
  {
    hide Groups, Items, Flags, Val, Bin, Pow2, Shr;
    var k := |ts| - (8 - left);
    var g, f := ts[k..], buf[flags];
    ByteShift(f, left);
    if left == 8 {
      Nothing(f, ts, buf, flags);
      ItemsNone(ts);
      assert ts[..k] == ts;
      assert pos == flags + 1;
    } else {
      OneGroup(g);
      GroupsConcat(ts[..k], g);
      assert ts == ts[..k] + g;
      assert buf'[..pos] == buf[..flags] + [buf'[flags]] + buf[flags + 1..pos];
    }
  }

  lemma ItemsNone(ts: seq<Token>)
    ensures |Items(ts)| >= |ts|
  {
    ItemsSize(ts);
  }

  lemma ByteShift(f: nat, k: nat)
    requires f < 256 && k <= 8
    ensures Shr(f, k) == Val(Bin(f, 8)[k..]) < 256
  {
    assert Pow2(8) == 256;
    ShrBin(f, 8, k);
    ShrBound(f, 8, k);
    ValBin(Shr(f, k), 8 - k);
    Pow2Monotone(8 - k, 8);
  }

  lemma CountedFacts(lit: seq<nat>, dist: seq<nat>, ts: seq<Token>)
    requires Counted(lit, dist, ts)
    ensures |lit| == |dist| == 288
  {
  }

  lemma BytewiseDistance(d: nat)
    requires d < DICT_SIZE
    ensures (if d < 512 then SmallDistSym(d % 512) else LargeDistSym(d / 256 % 128)) == DistSym(d)
  {
    hide SmallDistSym, LargeDistSym;
  }

  lemma BufferedFacts(buf: seq<nat>, flags: nat, pos: nat, left: nat, ts: seq<Token>)
    requires Buffered(buf, flags, pos, left, ts)
    ensures 1 <= left <= 8 && flags < pos <= |buf|
  {
  }
}
