/** What following the hash chains is for: with enough probes nothing longer is left in the dictionary. */
module LongestMatch {
  import opened Words
  import opened LzTokens
  import opened LzParse
  import opened MatchFinder

  /** The k-th position before `pos` with the same hash, counted backwards; -1 if there are fewer. */
  ghost function Back(text: seq<nat>, base: nat, pos: nat, k: nat): (q: int)
    requires base <= pos && pos + 3 <= |text|
    ensures q == -1 || (base <= q <= pos && HashAt(text, q) == HashAt(text, pos))
  {
    if k == 0 then pos
    else
      var p := Back(text, base, pos, k - 1);
      if p < 0 then -1 else PreviousOf(text, base, p)
  }

  lemma BackLess(text: seq<nat>, base: nat, pos: nat, k: nat)
    requires base <= pos && pos + 3 <= |text| && k >= 1 && Back(text, base, pos, k) >= 0
    ensures Back(text, base, pos, k) < Back(text, base, pos, k - 1)
  {
    hide Hash3;
  }

  lemma ShortDistance(pos: nat, b: nat)
    requires b <= pos < b + 0x10000
    ensures U16(pos - U16(b)) == pos - b && Slot(U16(b)) == Slot(b)
  {
    SlotWrap(b);
    var q := b / 0x10000;
    assert b == q * 0x10000 + U16(b);
    SameLow(pos - b, 0x10000 * q);
    LowDistance(pos - b, q);
  }

  lemma LowDistance(d: nat, q: nat)
    requires d < 0x10000
    ensures U16(d + 0x10000 * q) == d
  {
    var x := d + 0x10000 * q;
    var y, z := x / 0x10000, x % 0x10000;
    assert x == 0x10000 * y + z;
  }

  /** As long as it stays within reach and no position has low bits zero, the chain visits exactly these positions. */
  lemma {:induction false} ChainIsBack(heads: seq<nat>, links: seq<nat>, text: seq<nat>, base: nat, n: nat, pos: nat,
      maxDist: nat, k: nat)
    requires Chained(heads, links, text, base, n) && base <= pos < n && pos + 3 <= |text|
    requires maxDist <= DICT_SIZE && n + maxDist <= pos + DICT_SIZE
    requires Back(text, base, pos, k) >= 0 && Back(text, base, pos, k) + maxDist >= pos
    requires forall j :: 1 <= j <= k ==> U16(Back(text, base, pos, j)) != 0
    ensures ChainSlot(links, pos, k) == Slot(Back(text, base, pos, k)) && OnChain(links, pos, maxDist, k)
    ensures k >= 1 ==> ChainDist(links, pos, k) == pos - Back(text, base, pos, k)
  {
    hide Slot, Hash3, U16, HashAt;
    if k >= 1 {
      BackLess(text, base, pos, k);
      ChainIsBack(heads, links, text, base, n, pos, maxDist, k - 1);
      var p, b := Back(text, base, pos, k - 1), Back(text, base, pos, k);
      hide Back;
      assert links[Slot(p)] == U16(b);
      ShortDistance(pos, b);
    }
  }

  /** How many positions from q on and before p have this hash. */
  ghost function Rivals(text: seq<nat>, q: nat, p: nat, h: nat): nat
    requires p <= q || p + 2 <= |text|
    decreases p
  {
    if p <= q then 0 else Rivals(text, q, p - 1, h) + if HashAt(text, p - 1) == h then 1 else 0
  }

  lemma {:induction false} RivalsPrevious(text: seq<nat>, base: nat, q: nat, p: nat, h: nat)
    requires base <= q < p && p + 2 <= |text| && HashAt(text, q) == h
    ensures var r := Previous(text, base, p, h); r >= q && Rivals(text, q, p, h) == Rivals(text, q, r, h) + 1
    decreases p
  {
    hide Hash3, HashAt;
    if HashAt(text, p - 1) != h {
      RivalsPrevious(text, base, q, p - 1, h);
    }
  }

  /** Every earlier position with the same hash is met. */
  lemma {:induction false} BackMeets(text: seq<nat>, base: nat, pos: nat, q: nat, k: nat)
    requires base <= q <= pos && pos + 3 <= |text| && HashAt(text, q) == HashAt(text, pos)
    requires Back(text, base, pos, k) >= q
    ensures Back(text, base, pos, k + Rivals(text, q, Back(text, base, pos, k), HashAt(text, pos))) == q
    decreases Back(text, base, pos, k) - q
  {
    hide Hash3, HashAt, Previous, Rivals;
    var p, h := Back(text, base, pos, k), HashAt(text, pos);
    if p > q {
      RivalsPrevious(text, base, q, p, h);
      BackLess(text, base, pos, k + 1);
      BackMeets(text, base, pos, q, k + 1);
    } else {
      NoRivals(text, q, h);
    }
  }

  lemma NoRivals(text: seq<nat>, q: nat, h: nat)
    ensures Rivals(text, q, q, h) == 0
  {
  }

  lemma {:induction false} BackBetween(text: seq<nat>, base: nat, pos: nat, j: nat, k: nat)
    requires base <= pos && pos + 3 <= |text| && j <= k && Back(text, base, pos, k) >= 0
    ensures Back(text, base, pos, j) >= Back(text, base, pos, k)
    decreases k
  {
    hide Hash3, HashAt;
    if j < k {
      BackLess(text, base, pos, k);
      BackBetween(text, base, pos, j, k - 1);
    }
  }

  /** A position with low bits zero ends the chain, because zero stands for no link. */
  ghost predicate Reachable(text: seq<nat>, pos: nat, dist: nat)
    requires dist <= pos && pos + 3 <= |text|
  {
    forall r {:trigger HashAt(text, r)} :: pos - dist <= r < pos && HashAt(text, r) == HashAt(text, pos) ==> U16(r) != 0
  }

  /** A repetition inside the dictionary that the probes suffice for. */
  ghost predicate Findable(text: seq<nat>, pos: nat, maxDist: nat, maxLen: nat, probes: nat, dist: nat, m: nat) {
    && 1 <= dist <= maxDist && 3 <= m <= maxLen && IsMatch(text, pos, dist, m) && pos + 3 <= |text|
    && Reachable(text, pos, dist) && Rivals(text, pos - dist, pos, HashAt(text, pos)) < probes
  }

  /** Nothing findable repeats more of the text than `len` bytes. */
  ghost predicate Longest(text: seq<nat>, pos: nat, maxDist: nat, len: nat, maxLen: nat, probes: nat) {
    forall dist: nat, m: nat :: Findable(text, pos, maxDist, maxLen, probes, dist, m) ==> m <= len
  }

  lemma MatchHash(text: seq<nat>, pos: nat, dist: nat, m: nat)
    requires IsMatch(text, pos, dist, m) && m >= 3
    ensures pos + 3 <= |text| && HashAt(text, pos - dist) == HashAt(text, pos)
  {
    hide Hash3;
    assert text[pos] == text[pos - dist] && text[pos + 1] == text[pos + 1 - dist];
    assert text[pos + 2] == text[pos + 2 - dist];
  }

  lemma ShorterMatch(text: seq<nat>, pos: nat, dist: nat, m: nat, len: nat)
    requires IsMatch(text, pos, dist, m) && len <= m
    ensures IsMatch(text, pos, dist, len)
  {
  }

  lemma OneRival(heads: seq<nat>, links: seq<nat>, text: seq<nat>, base: nat, n: nat, pos: nat, maxDist: nat,
      len: nat, maxLen: nat, probes: nat, dist: nat, m: nat)
    requires Chained(heads, links, text, base, n) && base + maxDist <= pos < n
    requires maxDist <= DICT_SIZE && n + maxDist <= pos + DICT_SIZE
    requires BestOf(links, text, pos, maxDist, len, maxLen, probes - 1)
    requires Findable(text, pos, maxDist, maxLen, probes, dist, m)
    ensures m <= len
  {
    hide Chained, IsMatch, Hash3, HashAt, Rivals, Slot, U16, ChainSlot, ChainDist, OnChain, Linked, Previous, Back;
    var q, h := pos - dist, HashAt(text, pos);
    MatchHash(text, pos, dist, m);
    BackStart(text, base, pos);
    BackMeets(text, base, pos, q, 0);
    var k := Rivals(text, q, pos, h);
    forall j | 1 <= j <= k ensures U16(Back(text, base, pos, j)) != 0 {
      BackBetween(text, base, pos, j, k);
      BackBelow(text, base, pos, j, k);
    }
    ChainIsBack(heads, links, text, base, n, pos, maxDist, k);
    if m > len {
      ShorterMatch(text, pos, dist, m, len + 1);
    }
  }

  lemma BackStart(text: seq<nat>, base: nat, pos: nat)
    requires base <= pos && pos + 3 <= |text|
    ensures Back(text, base, pos, 0) == pos
  {
  }

  lemma BackBelow(text: seq<nat>, base: nat, pos: nat, j: nat, k: nat)
    requires base <= pos && pos + 3 <= |text| && 1 <= j <= k && Back(text, base, pos, k) >= 0
    ensures 0 <= Back(text, base, pos, j) < pos && HashAt(text, Back(text, base, pos, j)) == HashAt(text, pos)
  {
    hide Hash3, HashAt;
    BackBetween(text, base, pos, j, k);
    BackBetween(text, base, pos, 1, j);
    BackLess(text, base, pos, 1);
  }

  /** The search is exhaustive: over chains that hold all positions, the best of the chain is the best of the
      dictionary, as far as the probes suffice and no position in between has low bits zero. */
  lemma ChainFindsLongest(heads: seq<nat>, links: seq<nat>, text: seq<nat>, base: nat, n: nat, pos: nat, maxDist: nat,
      len: nat, maxLen: nat, probes: nat)
    requires Chained(heads, links, text, base, n) && n + 2 == |text| == pos + maxLen && base + maxDist <= pos
    requires maxDist + maxLen <= DICT_SIZE && BestOf(links, text, pos, maxDist, len, maxLen, probes - 1)
    ensures Longest(text, pos, maxDist, len, maxLen, probes)
  {
    hide Chained, BestOf, Findable;
    forall dist: nat, m: nat | Findable(text, pos, maxDist, maxLen, probes, dist, m) ensures m <= len {
      FindableFacts(text, pos, maxDist, maxLen, probes, dist, m);
      OneRival(heads, links, text, base, n, pos, maxDist, len, maxLen, probes, dist, m);
    }
  }

  lemma FindableFacts(text: seq<nat>, pos: nat, maxDist: nat, maxLen: nat, probes: nat, dist: nat, m: nat)
    requires Findable(text, pos, maxDist, maxLen, probes, dist, m)
    ensures pos + 3 <= |text| && 3 <= maxLen && dist <= maxDist
  {
  }
}
