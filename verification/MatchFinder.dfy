/** The search for a match: along the hash chain of a position, for the longest repetition found there. */
module MatchFinder {
  import opened Words
  import opened LzTokens
  import opened LzParse

  /** 16-bit distance arithmetic: the slot of the probe is the slot `dist` before. */
  lemma ProbeSlot(pos: nat, next: nat, dist: nat)
    requires next < 0x10000 && dist == U16(U32(pos) - next)
    ensures Slot(next) == Slot(pos - dist)
  {
    var w := U32(pos) - next;
    var q := w / 0x10000;
    assert w == q * 0x10000 + dist;
    var u := pos / 0x1_0000_0000;
    assert pos == u * 0x1_0000_0000 + U32(pos);
    assert pos - dist == (u * 131072 + q * 2) * 32768 + next;
    SlotShift(next, u * 131072 + q * 2);
  }

  lemma LinkDistance(pos: nat, next: nat)
    ensures U16(U32(pos) - next) == U16(pos - next)
  {
    var q := pos / 0x1_0000_0000;
    assert pos == q * 0x1_0000_0000 + U32(pos);
    SameLow(U32(pos) - next, 0x10000 * q);
  }

  lemma SameLow(x: int, q: int)
    ensures U16(0x10000 * q + x) == U16(x)
  {
    var a, r := x / 0x10000, x % 0x10000;
    var y := 0x10000 * q + x;
    assert y == 0x10000 * (q + a) + r;
    var b, t := y / 0x10000, y % 0x10000;
    assert y == 0x10000 * b + t;
  }

  // ---------------------------------------------------------------- the chain of a position

  /** The slot that is k links down the chain. */
  ghost function ChainSlot(next: seq<nat>, pos: nat, k: nat): (s: nat)
    requires |next| == DICT_SIZE
    ensures s < DICT_SIZE
  {
    if k == 0 then Slot(pos) else Slot(next[ChainSlot(next, pos, k - 1)])
  }

  /** How far back link k leads, in 16 bits. */
  ghost function ChainDist(next: seq<nat>, pos: nat, k: nat): nat
    requires |next| == DICT_SIZE && k >= 1
  {
    U16(pos - next[ChainSlot(next, pos, k - 1)])
  }

  /** Link k leads to an earlier position within reach; zero stands for the end of a chain. */
  ghost predicate Linked(next: seq<nat>, pos: nat, maxDist: nat, k: nat)
    requires |next| == DICT_SIZE && k >= 1
  {
    next[ChainSlot(next, pos, k - 1)] != 0 && 1 <= ChainDist(next, pos, k) <= maxDist
  }

  /** The chain has at least k links. */
  ghost predicate OnChain(next: seq<nat>, pos: nat, maxDist: nat, k: nat)
    requires |next| == DICT_SIZE
  {
    forall j :: 1 <= j <= k ==> Linked(next, pos, maxDist, j)
  }

  /** At this distance the text does not repeat itself for more than `len` bytes, or for as many as may be used. */
  ghost predicate NoLonger(text: seq<nat>, pos: nat, dist: nat, len: nat, maxLen: nat) {
    len >= maxLen || !IsMatch(text, pos, dist, len + 1)
  }

  /** None of the first k links leads to anything longer. */
  ghost predicate Searched(next: seq<nat>, text: seq<nat>, pos: nat, len: nat, maxLen: nat, k: nat)
    requires |next| == DICT_SIZE
  {
    forall j :: 1 <= j <= k ==> NoLonger(text, pos, ChainDist(next, pos, j), len, maxLen)
  }

  /** Nothing longer is to be had from the first n links of the chain, as far as it goes. */
  ghost predicate BestOf(next: seq<nat>, text: seq<nat>, pos: nat, maxDist: nat, len: nat, maxLen: nat, n: int)
    requires |next| == DICT_SIZE
  {
    forall k :: 1 <= k <= n && OnChain(next, pos, maxDist, k) ==>
      NoLonger(text, pos, ChainDist(next, pos, k), len, maxLen)
  }

  lemma ShorterToo(text: seq<nat>, pos: nat, dist: nat, len: nat, maxLen: nat, len': nat)
    requires NoLonger(text, pos, dist, len, maxLen) && len <= len'
    ensures NoLonger(text, pos, dist, len', maxLen)
  {
  }

  lemma SearchedLonger(next: seq<nat>, text: seq<nat>, pos: nat, len: nat, maxLen: nat, k: nat, len': nat)
    requires |next| == DICT_SIZE && Searched(next, text, pos, len, maxLen, k) && len <= len'
    ensures Searched(next, text, pos, len', maxLen, k)
  {
    hide ChainDist, NoLonger;
    forall j | 1 <= j <= k ensures NoLonger(text, pos, ChainDist(next, pos, j), len', maxLen) {
      ShorterToo(text, pos, ChainDist(next, pos, j), len, maxLen, len');
    }
  }

  /** All links that count have been looked at, either because there are no more or because there have been enough. */
  lemma AllSearched(next: seq<nat>, text: seq<nat>, pos: nat, maxDist: nat, len: nat, maxLen: nat, k: nat, n: int)
    requires |next| == DICT_SIZE && Searched(next, text, pos, len, maxLen, k)
    requires k >= n || !Linked(next, pos, maxDist, k + 1)
    ensures BestOf(next, text, pos, maxDist, len, maxLen, n)
  {
    hide ChainDist, Linked, NoLonger;
  }

  lemma LongEnough(next: seq<nat>, text: seq<nat>, pos: nat, maxDist: nat, len: nat, maxLen: nat, n: int)
    requires |next| == DICT_SIZE && len >= maxLen
    ensures BestOf(next, text, pos, maxDist, len, maxLen, n)
  {
    hide ChainDist, OnChain, IsMatch;
  }

  // ---------------------------------------------------------------- comparing

  ghost predicate Agree(dict: seq<nat>, a: nat, b: nat, i: nat) {
    a + i < |dict| && b + i < |dict| && dict[a + i] == dict[b + i]
  }

  ghost predicate AllAgree(dict: seq<nat>, a: nat, b: nat, n: nat) {
    forall i :: 0 <= i < n ==> Agree(dict, a, b, i)
  }

  /** How many bytes agree, at most `most`. */
  method CommonLength(dict: array<nat>, a: nat, b: nat, most: nat) returns (n: nat)
    requires most <= MAX_MATCH_LEN && a + most <= dict.Length && b + most <= dict.Length
    ensures n <= most && AllAgree(dict[..], a, b, n) && (n < most ==> !Agree(dict[..], a, b, n))
  {
    n := 0;
    while n < most
      invariant n <= most && AllAgree(dict[..], a, b, n)
    {
      if dict[a + n] != dict[b + n] {
        return;
      }
      n := n + 1;
    }
  }

  /** Equal dictionary bytes are a repetition in the text. */
  lemma CandidateMatches(dict: seq<nat>, text: seq<nat>, pos: nat, dist: nat, n: nat)
    requires Window(dict, text) && 1 <= dist <= pos && n <= MAX_MATCH_LEN && pos + n <= |text|
    requires |text| + dist <= pos + DICT_SIZE
    requires AllAgree(dict, Slot(pos), Slot(pos - dist), n)
    ensures IsMatch(text, pos, dist, n)
  {
    hide Slot, Window;
    forall j {:trigger text[j]} | pos <= j < pos + n ensures text[j] == text[j - dist] {
      WindowRead(dict, text, pos, j - pos);
      WindowRead(dict, text, pos - dist, j - pos);
      var k := j - pos;
      assert Agree(dict, Slot(pos), Slot(pos - dist), k);
    }
  }

  /** A dictionary byte that differs ends every repetition at that distance. */
  lemma CandidateEnds(dict: seq<nat>, text: seq<nat>, pos: nat, dist: nat, i: nat, len: nat, maxLen: nat)
    requires Window(dict, text) && 1 <= dist <= pos && i <= len < maxLen <= MAX_MATCH_LEN && |text| == pos + maxLen
    requires |text| + dist <= pos + DICT_SIZE && !Agree(dict, Slot(pos), Slot(pos - dist), i)
    ensures NoLonger(text, pos, dist, len, maxLen)
  {
    hide Slot, Window;
    WindowRead(dict, text, pos, i);
    WindowRead(dict, text, pos - dist, i);
    WindowSize(dict, text);
  }

  // ---------------------------------------------------------------- finding a match

  /** What the search knows: the text is in the dictionary, and the two bytes to look for are those at `len`. */
  ghost predicate Looking(dict: seq<nat>, text: seq<nat>, pos: nat, maxDist: nat, maxLen: nat, len: nat, c0: nat,
      c1: nat) {
    && Window(dict, text) && |text| == pos + maxLen && maxDist <= pos && maxDist + maxLen <= DICT_SIZE
    && 1 <= len < maxLen <= MAX_MATCH_LEN && c0 == dict[Slot(pos) + len] && c1 == dict[Slot(pos) + len - 1]
  }

  lemma LookingFacts(dict: seq<nat>, text: seq<nat>, pos: nat, maxDist: nat, maxLen: nat, len: nat, c0: nat, c1: nat)
    requires Looking(dict, text, pos, maxDist, maxLen, len, c0, c1)
    ensures |dict| == DICT_BYTES && 1 <= len < MAX_MATCH_LEN && maxDist <= pos && len < maxLen <= MAX_MATCH_LEN
  {
  }

  /** A candidate without these two bytes is no better. */
  lemma NotFound(dict: seq<nat>, text: seq<nat>, pos: nat, maxDist: nat, maxLen: nat, len: nat, c0: nat, c1: nat,
      dist: nat)
    requires Looking(dict, text, pos, maxDist, maxLen, len, c0, c1) && dist <= maxDist
    requires Slot(pos - dist) + len < |dict|
    requires !(dict[Slot(pos - dist) + len] == c0 && dict[Slot(pos - dist) + len - 1] == c1)
    ensures dist >= 1 && NoLonger(text, pos, dist, len, maxLen)
  {
    hide Slot, Window, IsMatch;
    if dist >= 1 {
      if dict[Slot(pos - dist) + len] != c0 {
        CandidateEnds(dict, text, pos, dist, len, len, maxLen);
      } else {
        CandidateEnds(dict, text, pos, dist, len - 1, len, maxLen);
      }
    }
  }

  /** TDEFL_PROBE: follows one link of the hash chain, whatever it contains. */
  method Probe(dict: array<nat>, next: array<nat>, probePos: nat, lookaheadPos: nat, maxDist: nat, len: nat, c0: nat,
      c1: nat, ghost text: seq<nat>, ghost pos: nat, ghost maxLen: nat, ghost k: nat)
    returns (stop: bool, found: bool, probePos': nat, dist: nat)
    requires next.Length == DICT_SIZE && forall i :: 0 <= i < next.Length ==> next[i] < 0x10000
    requires Looking(dict[..], text, pos, maxDist, maxLen, len, c0, c1) && lookaheadPos == U32(pos)
    requires probePos == ChainSlot(next[..], pos, k)
    ensures probePos' < DICT_SIZE && (stop ==> !Linked(next[..], pos, maxDist, k + 1))
    ensures !stop ==> probePos' == ChainSlot(next[..], pos, k + 1) == Slot(pos - dist)
    ensures !stop ==> dist == ChainDist(next[..], pos, k + 1) <= maxDist
    ensures !stop ==> (dist > 0 <==> Linked(next[..], pos, maxDist, k + 1))
    ensures !stop && !found ==> dist > 0 && NoLonger(text, pos, dist, len, maxLen)
  {
    hide Window, IsMatch, NoLonger, Slot, Looking, U16, U32;
    LookingFacts(dict[..], text, pos, maxDist, maxLen, len, c0, c1);
    SlotBelow(next[probePos]);
    stop, found, probePos', dist := false, false, probePos, 0;
    var nextProbePos := next[probePos];
    LinkDistance(pos, nextProbePos);
    if nextProbePos == 0 {
      stop := true;
      return;
    }
    dist := U16(lookaheadPos - nextProbePos);
    if dist > maxDist {
      stop := true;
      return;
    }
    ProbeSlot(pos, nextProbePos, dist);
    probePos' := Slot(nextProbePos);
    found := dict[probePos' + len] == c0 && dict[probePos' + len - 1] == c1;
    if !found {
      NotFound(dict[..], text, pos, maxDist, maxLen, len, c0, c1, dist);
    }
  }

  /** The chain has k links, and none of them leads to anything longer. */
  ghost predicate Along(next: seq<nat>, text: seq<nat>, pos: nat, maxDist: nat, len: nat, maxLen: nat, k: nat)
    requires |next| == DICT_SIZE
  {
    OnChain(next, pos, maxDist, k) && Searched(next, text, pos, len, maxLen, k)
  }

  lemma OneLink(next: seq<nat>, text: seq<nat>, pos: nat, maxDist: nat, len: nat, maxLen: nat, k: nat)
    requires |next| == DICT_SIZE && Along(next, text, pos, maxDist, len, maxLen, k)
    requires Linked(next, pos, maxDist, k + 1) && NoLonger(text, pos, ChainDist(next, pos, k + 1), len, maxLen)
    ensures Along(next, text, pos, maxDist, len, maxLen, k + 1)
  {
    hide Linked, NoLonger, ChainDist;
  }

  /** The inner loop: follows the chain to a position whose bytes at the current length agree. */
  method NextCandidate(dict: array<nat>, next: array<nat>, probePos0: nat, lookaheadPos: nat, maxDist: nat, len: nat,
      c0: nat, c1: nat, probes0: nat, ghost text: seq<nat>, ghost pos: nat, ghost maxLen: nat, ghost k0: nat)
    returns (stop: bool, probePos: nat, dist: nat, probes: nat, ghost k: nat)
    requires next.Length == DICT_SIZE && forall i :: 0 <= i < next.Length ==> next[i] < 0x10000
    requires Looking(dict[..], text, pos, maxDist, maxLen, len, c0, c1) && lookaheadPos == U32(pos)
    requires probePos0 == ChainSlot(next[..], pos, k0) && Along(next[..], text, pos, maxDist, len, maxLen, k0)
    requires probes0 >= 1
    ensures probePos < DICT_SIZE && probes < probes0 && Along(next[..], text, pos, maxDist, len, maxLen, k)
    ensures stop ==> k >= k0 + probes0 - 1 || !Linked(next[..], pos, maxDist, k + 1)
    ensures !stop ==> probes >= 1 && k0 + (probes0 - probes) <= k + 1 <= k0 + 3 * (probes0 - probes)
    ensures !stop ==> probePos == ChainSlot(next[..], pos, k + 1) == Slot(pos - dist)
    ensures !stop ==> dist == ChainDist(next[..], pos, k + 1) <= maxDist
    ensures !stop ==> (dist > 0 <==> Linked(next[..], pos, maxDist, k + 1))
  {
    hide U16, U32, Slot, ChainDist, ChainSlot, Along, Linked, NoLonger, Looking, IsMatch;
    stop, probePos, dist, probes, k := true, probePos0, 0, probes0, k0;
    while true
      invariant 1 <= probes <= probes0 && probePos == ChainSlot(next[..], pos, k)
      invariant Along(next[..], text, pos, maxDist, len, maxLen, k)
      invariant k0 + (probes0 - probes) <= k <= k0 + 3 * (probes0 - probes)
      decreases probes
    {
      probes := probes - 1;
      if probes == 0 {
        return true, probePos, dist, probes, k;
      }
      var found;
      stop, found, probePos, dist := Probe(dict, next, probePos, lookaheadPos, maxDist, len, c0, c1, text, pos,
        maxLen, k);
      if stop || found {
        return;
      }
      OneLink(next[..], text, pos, maxDist, len, maxLen, k);
      k := k + 1;
      stop, found, probePos, dist := Probe(dict, next, probePos, lookaheadPos, maxDist, len, c0, c1, text, pos,
        maxLen, k);
      if stop || found {
        return;
      }
      OneLink(next[..], text, pos, maxDist, len, maxLen, k);
      k := k + 1;
      stop, found, probePos, dist := Probe(dict, next, probePos, lookaheadPos, maxDist, len, c0, c1, text, pos,
        maxLen, k);
      if stop || found {
        return;
      }
      OneLink(next[..], text, pos, maxDist, len, maxLen, k);
      k := k + 1;
    }
  }

  /** The match reported comes from the chain, is a true repetition, and does not stop too early. */
  ghost predicate FromChain(next: seq<nat>, text: seq<nat>, pos: nat, maxDist: nat, dist: nat, len: nat, maxLen: nat,
      n: int)
    requires |next| == DICT_SIZE
  {
    && (exists k :: 1 <= k <= n && OnChain(next, pos, maxDist, k) && dist == ChainDist(next, pos, k))
    && dist <= maxDist && len <= maxLen && IsMatch(text, pos, dist, len) && NoLonger(text, pos, dist, len, maxLen)
  }

  lemma FoundOnChain(next: seq<nat>, text: seq<nat>, pos: nat, maxDist: nat, len: nat, maxLen: nat, k: nat, n: int)
    requires |next| == DICT_SIZE && OnChain(next, pos, maxDist, k) && Linked(next, pos, maxDist, k + 1) && k + 1 <= n
    requires len <= maxLen && IsMatch(text, pos, ChainDist(next, pos, k + 1), len)
    requires NoLonger(text, pos, ChainDist(next, pos, k + 1), len, maxLen)
    ensures FromChain(next, text, pos, maxDist, ChainDist(next, pos, k + 1), len, maxLen, n)
  {
    hide ChainSlot, IsMatch, NoLonger, ChainDist;
    assert ChainDist(next, pos, k + 1) <= maxDist;
    assert OnChain(next, pos, maxDist, k + 1);
  }

  /** How long the repetition at a candidate is, exactly. */
  method Measure(dict: array<nat>, at: nat, probePos: nat, maxLen: nat, ghost text: seq<nat>, ghost pos: nat,
      ghost maxDist: nat, ghost dist: nat)
    returns (n: nat)
    requires Window(dict[..], text) && |text| == pos + maxLen && maxLen <= MAX_MATCH_LEN
    requires 1 <= dist <= maxDist <= pos && maxDist + maxLen <= DICT_SIZE
    requires at == Slot(pos) && probePos == Slot(pos - dist)
    ensures n <= maxLen && IsMatch(text, pos, dist, n) && NoLonger(text, pos, dist, n, maxLen)
  {
    hide Slot, Window, IsMatch, NoLonger;
    WindowSize(dict[..], text);
    SlotBelow(pos);
    SlotBelow(pos - dist);
    n := CommonLength(dict, at, probePos, maxLen);
    CandidateMatches(dict[..], text, pos, dist, n);
    if n < maxLen {
      CandidateEnds(dict[..], text, pos, dist, n, n, maxLen);
    } else {
      Whole(text, pos, dist, maxLen);
    }
  }

  lemma Whole(text: seq<nat>, pos: nat, dist: nat, maxLen: nat)
    ensures NoLonger(text, pos, dist, maxLen, maxLen)
  {
  }

  lemma StillLooking(dict: seq<nat>, text: seq<nat>, pos: nat, maxDist: nat, maxLen: nat, len: nat)
    requires Window(dict, text) && |text| == pos + maxLen && maxDist <= pos && maxDist + maxLen <= DICT_SIZE
    requires 1 <= len < maxLen <= MAX_MATCH_LEN
    ensures Slot(pos) + len < |dict|
    ensures Looking(dict, text, pos, maxDist, maxLen, len, dict[Slot(pos) + len], dict[Slot(pos) + len - 1])
  {
  }

  /** tdefl_find_match, byte by byte. Whatever the hash chains contain, the result is the given match or a repetition of
      the text inside the dictionary that is longer; it comes from the chain of the position, and none of the first
      probes0 - 1 links of that chain leads to a longer one. */
  method FindMatch(dict: array<nat>, next: array<nat>, probes0: nat, lookaheadPos: nat, maxDist: nat, maxLen: nat,
      dist0: nat, len0: nat, ghost text: seq<nat>, ghost pos: nat)
    returns (dist: nat, len: nat)
    requires Window(dict[..], text) && next.Length == DICT_SIZE
    requires forall i :: 0 <= i < next.Length ==> next[i] < 0x10000
    requires lookaheadPos == U32(pos) && |text| == pos + maxLen && maxLen <= MAX_MATCH_LEN
    requires maxDist <= pos && maxDist + maxLen <= DICT_SIZE && 2 <= len0 < 128 && probes0 >= 1
    ensures BestOf(next[..], text, pos, maxDist, len, maxLen, probes0 - 1)
    ensures (dist, len) == (dist0, len0) ||
      (len0 < len && FromChain(next[..], text, pos, maxDist, dist, len, maxLen, 3 * (probes0 - 1)))
  {
    hide U16, U32, Slot, Window, IsMatch, Along, BestOf, FromChain, Looking, NoLonger, Linked, ChainDist, ChainSlot;
    WindowSize(dict[..], text);
    dist, len := dist0, len0;
    SlotWrap(pos);
    SlotBelow(pos);
    var at := Slot(lookaheadPos);
    var probePos: nat, probes: nat := at, probes0;
    var c0: nat, c1: nat := dict[at + len], dict[at + len - 1];
    if maxLen <= len {
      LongEnough(next[..], text, pos, maxDist, len, maxLen, probes0 - 1);
      return;
    }
    ghost var k: nat := 0;
    StillLooking(dict[..], text, pos, maxDist, maxLen, len);
    ChainStart(next[..], text, pos, maxDist, len, maxLen);
    while true
      invariant 1 <= probes <= probes0 && probePos == ChainSlot(next[..], pos, k)
      invariant 2 <= len < maxLen && Looking(dict[..], text, pos, maxDist, maxLen, len, c0, c1)
      invariant Along(next[..], text, pos, maxDist, len, maxLen, k)
      invariant probes0 - probes <= k <= 3 * (probes0 - probes)
      invariant (dist, len) == (dist0, len0) ||
        (len0 < len && FromChain(next[..], text, pos, maxDist, dist, len, maxLen, 3 * (probes0 - 1)))
      decreases probes
    {
      var stop, d: nat;
      stop, probePos, d, probes, k := NextCandidate(dict, next, probePos, lookaheadPos, maxDist, len, c0, c1, probes,
        text, pos, maxLen, k);
      if stop || d == 0 {
        EndOfSearch(next[..], text, pos, maxDist, len, maxLen, k, probes0 - 1);
        return;
      }
      var n := Measure(dict, at, probePos, maxLen, text, pos, maxDist, d);
      if n > len {
        OnePlace(next[..], text, pos, maxDist, len, maxLen, k, n, 3 * (probes0 - 1));
        dist, len := d, n;
        if len == maxLen {
          LongEnough(next[..], text, pos, maxDist, len, maxLen, probes0 - 1);
          return;
        }
        StillLooking(dict[..], text, pos, maxDist, maxLen, len);
        c0, c1 := dict[at + len], dict[at + len - 1];
      } else {
        ShorterToo(text, pos, d, n, maxLen, len);
        OneLink(next[..], text, pos, maxDist, len, maxLen, k);
      }
      k := k + 1;
    }
  }

  lemma ChainStart(next: seq<nat>, text: seq<nat>, pos: nat, maxDist: nat, len: nat, maxLen: nat)
    requires |next| == DICT_SIZE
    ensures Along(next, text, pos, maxDist, len, maxLen, 0) && ChainSlot(next, pos, 0) == Slot(pos)
  {
  }

  lemma EndOfSearch(next: seq<nat>, text: seq<nat>, pos: nat, maxDist: nat, len: nat, maxLen: nat, k: nat, n: int)
    requires |next| == DICT_SIZE && Along(next, text, pos, maxDist, len, maxLen, k)
    requires k >= n || !Linked(next, pos, maxDist, k + 1)
    ensures BestOf(next, text, pos, maxDist, len, maxLen, n)
  {
    hide Linked, BestOf, Searched;
    AllSearched(next, text, pos, maxDist, len, maxLen, k, n);
  }

  /** The candidate at hand is the best so far. */
  lemma OnePlace(next: seq<nat>, text: seq<nat>, pos: nat, maxDist: nat, len: nat, maxLen: nat, k: nat, n: nat,
      most: int)
    requires |next| == DICT_SIZE && Along(next, text, pos, maxDist, len, maxLen, k) && len <= n <= maxLen
    requires Linked(next, pos, maxDist, k + 1) && k + 1 <= most
    requires IsMatch(text, pos, ChainDist(next, pos, k + 1), n)
    requires NoLonger(text, pos, ChainDist(next, pos, k + 1), n, maxLen)
    ensures Along(next, text, pos, maxDist, n, maxLen, k + 1)
    ensures FromChain(next, text, pos, maxDist, ChainDist(next, pos, k + 1), n, maxLen, most)
  {
    hide Linked, Searched, NoLonger, IsMatch, ChainDist, FromChain, OnChain;
    SearchedLonger(next, text, pos, len, maxLen, k, n);
    OneLink(next, text, pos, maxDist, n, maxLen, k);
    FoundOnChain(next, text, pos, maxDist, n, maxLen, k, most);
  }
}
