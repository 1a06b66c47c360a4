/** What an LRU cache means: entries in order of recency, and, as a reference, entries with the time of their last
    use. */
module LruOrder {

  datatype Option<T> = None | Some(value: T)

  datatype Entry<K, V> = Entry(key: K, value: V)

  ghost predicate DistinctKeys<K, V>(c: seq<Entry<K, V>>) {
    forall i, j :: 0 <= i < j < |c| ==> c[i].key != c[j].key
  }

  ghost predicate Has<K, V>(c: seq<Entry<K, V>>, k: K) {
    exists i :: 0 <= i < |c| && c[i].key == k
  }

  /** The entries with other keys, in the same order. */
  function Without<K(==), V>(c: seq<Entry<K, V>>, k: K): (r: seq<Entry<K, V>>)
  {
    if c == [] then [] else if c[0].key == k then Without(c[1..], k) else [c[0]] + Without(c[1..], k)
  }

  /** The value is replaced, the order kept. */
  function Replaced<K(==), V>(c: seq<Entry<K, V>>, k: K, v: V): (r: seq<Entry<K, V>>)
    ensures |r| == |c|
    ensures forall i :: 0 <= i < |c| ==> r[i] == if c[i].key == k then Entry(k, v) else c[i]
  {
    seq(|c|, i requires 0 <= i < |c| => if c[i].key == k then Entry(k, v) else c[i])
  }

  function ValueOf<K(==), V>(c: seq<Entry<K, V>>, k: K): Option<V> {
    if c == [] then None else if c[0].key == k then Some(c[0].value) else ValueOf(c[1..], k)
  }

  // The operations on entries in order of recency.

  function Touched<K(==), V>(c: seq<Entry<K, V>>, k: K): seq<Entry<K, V>> {
    match ValueOf(c, k)
    case None => c
    case Some(v) => [Entry(k, v)] + Without(c, k)
  }

  function PutFront<K(==), V>(c: seq<Entry<K, V>>, k: K, v: V): seq<Entry<K, V>> {
    [Entry(k, v)] + Without(c, k)
  }

  function PutBack<K(==), V>(c: seq<Entry<K, V>>, k: K, v: V): seq<Entry<K, V>> {
    if ValueOf(c, k).None? then c + [Entry(k, v)] else Replaced(c, k, v)
  }

  function Oldest<K, V>(c: seq<Entry<K, V>>): Option<Entry<K, V>> {
    if c == [] then None else Some(c[|c| - 1])
  }

  function Evicted<K, V>(c: seq<Entry<K, V>>): seq<Entry<K, V>> {
    if c == [] then [] else c[..|c| - 1]
  }

  function EvictedTimes<K, V>(c: seq<Entry<K, V>>, n: nat): seq<Entry<K, V>> {
    if n == 0 then c else EvictedTimes(Evicted(c), n - 1)
  }

  /** The entry that is `skip` places from the back. */
  function Candidate<K, V>(c: seq<Entry<K, V>>, skip: nat): Option<Entry<K, V>> {
    if skip < |c| then Some(c[|c| - 1 - skip]) else None
  }

  /** The candidate is what one more eviction after `skip` of them returns. */
  lemma {:induction false} CandidateIsEvicted<K, V>(c: seq<Entry<K, V>>, skip: nat)
    ensures Oldest(EvictedTimes(c, skip)) == Candidate(c, skip)
  {
    if skip > 0 {
      CandidateIsEvicted(Evicted(c), skip - 1);
    }
  }

  // ---------------------------------------------------------------- facts about the entries

  lemma {:induction false} ValueAt<K, V>(c: seq<Entry<K, V>>, i: nat)
    requires DistinctKeys(c) && i < |c|
    ensures ValueOf(c, c[i].key) == Some(c[i].value)
  {
    if i > 0 {
      assert c[0].key != c[i].key;
      ValueAt(c[1..], i - 1);
    }
  }

  lemma {:induction false} NoValue<K, V>(c: seq<Entry<K, V>>, k: K)
    requires forall i :: 0 <= i < |c| ==> c[i].key != k
    ensures ValueOf(c, k).None? && Without(c, k) == c
  {
    if c != [] {
      NoValue(c[1..], k);
    }
  }

  /** Taking the entry at i out. */
  lemma {:induction false} WithoutAt<K, V>(c: seq<Entry<K, V>>, i: nat)
    requires DistinctKeys(c) && i < |c|
    ensures Without(c, c[i].key) == c[..i] + c[i + 1..]
  {
    if i == 0 {
      assert forall j :: 0 <= j < |c[1..]| ==> c[1..][j] == c[j + 1];
      NoValue(c[1..], c[0].key);
    } else {
      assert c[0].key != c[i].key;
      WithoutAt(c[1..], i - 1);
      assert c[..i] == [c[0]] + c[1..][..i - 1];
    }
  }

  // ---------------------------------------------------------------- the reference: times of use

  datatype Stamped<V> = Stamped(value: V, at: int)

  datatype Op<K, V> =
    | Put(key: K, value: V)
    | AppendBack(key: K, value: V)
    | Get(key: K, front: bool)
    | Delete(key: K)
    | Evict
    | Clear

  function Apply<K(==), V>(c: seq<Entry<K, V>>, op: Op<K, V>): seq<Entry<K, V>> {
    match op
    case Put(k, v) => PutFront(c, k, v)
    case AppendBack(k, v) => PutBack(c, k, v)
    case Get(k, front) => if front then Touched(c, k) else c
    case Delete(k) => Without(c, k)
    case Evict => Evicted(c)
    case Clear => []
  }

  function ApplyAll<K(==), V>(c: seq<Entry<K, V>>, ops: seq<Op<K, V>>): seq<Entry<K, V>> {
    if ops == [] then c else Apply(ApplyAll(c, ops[..|ops| - 1]), ops[|ops| - 1])
  }

  ghost predicate Least<K, V>(m: map<K, Stamped<V>>, k: K) {
    k in m && forall k' :: k' in m ==> m[k].at <= m[k'].at
  }

  /** The same operation on values with the time of their last use: an entry put at the back counts as used
      before all others, and eviction takes the entry that was used first. */
  ghost function Reference<K(!new), V>(m: map<K, Stamped<V>>, op: Op<K, V>, now: nat): map<K, Stamped<V>> {
    match op
    case Put(k, v) => m[k := Stamped(v, now)]
    case AppendBack(k, v) => if k in m then m[k := Stamped(v, m[k].at)] else m[k := Stamped(v, 0 - now)]
    case Get(k, front) => if front && k in m then m[k := Stamped(m[k].value, now)] else m
    case Delete(k) => m - {k}
    case Evict => if exists k :: Least(m, k) then var k :| Least(m, k); m - {k} else m
    case Clear => map[]
  }

  ghost function ReferenceAll<K(!new), V>(m: map<K, Stamped<V>>, ops: seq<Op<K, V>>): map<K, Stamped<V>> {
    if ops == [] then m else Reference(ReferenceAll(m, ops[..|ops| - 1]), ops[|ops| - 1], |ops|)
  }

  /** The entries are those of the reference, most recently used first. */
  ghost predicate Ranked<K, V>(c: seq<Entry<K, V>>, m: map<K, Stamped<V>>) {
    && DistinctKeys(c)
    && (forall i :: 0 <= i < |c| ==> c[i].key in m && m[c[i].key].value == c[i].value)
    && (forall k :: k in m ==> Has(c, k))
    && Descending(c, m)
  }

  ghost function At<K, V>(m: map<K, Stamped<V>>, k: K): int {
    if k in m then m[k].at else 0
  }

  ghost predicate Descending<K, V>(c: seq<Entry<K, V>>, m: map<K, Stamped<V>>) {
    forall i, j :: 0 <= i < j < |c| ==> At(m, c[i].key) > At(m, c[j].key)
  }

  ghost predicate Before<K, V>(m: map<K, Stamped<V>>, now: nat) {
    forall k :: k in m ==> 0 < m[k].at + now && m[k].at < now
  }

  lemma FindKey<K, V>(c: seq<Entry<K, V>>, m: map<K, Stamped<V>>, k: K) returns (i: nat)
    requires Ranked(c, m) && k in m
    ensures i < |c| && c[i].key == k && Without(c, k) == c[..i] + c[i + 1..] && ValueOf(c, k) == Some(m[k].value)
  {
    assert Has(c, k);
    i :| 0 <= i < |c| && c[i].key == k;
    WithoutAt(c, i);
    ValueAt(c, i);
  }

  lemma Absent<K, V>(c: seq<Entry<K, V>>, m: map<K, Stamped<V>>, k: K)
    requires Ranked(c, m) && k !in m
    ensures ValueOf(c, k).None? && Without(c, k) == c
  {
    NoValue(c, k);
  }

  lemma WithoutRanked<K, V>(c: seq<Entry<K, V>>, m: map<K, Stamped<V>>, k: K)
    requires Ranked(c, m)
    ensures Ranked(Without(c, k), m - {k})
  {
    if k in m {
      var i := FindKey(c, m, k);
      RemovedRanked(c, m, i);
    } else {
      Absent(c, m, k);
      assert m - {k} == m;
    }
  }

  lemma RemovedRanked<K, V>(c: seq<Entry<K, V>>, m: map<K, Stamped<V>>, i: nat)
    requires Ranked(c, m) && i < |c|
    ensures Ranked(c[..i] + c[i + 1..], m - {c[i].key})
  {
    hide Descending;
    var d, m' := c[..i] + c[i + 1..], m - {c[i].key};
    assert forall j :: 0 <= j < |d| ==> d[j] == c[if j < i then j else j + 1];
    assert DistinctKeys(d);
    RemovedDescending(c, m, i);
    forall k | k in m' ensures Has(d, k) {
      assert Has(c, k);
      var j :| 0 <= j < |c| && c[j].key == k;
      assert d[if j < i then j else j - 1].key == k;
    }
  }

  lemma RemovedDescending<K, V>(c: seq<Entry<K, V>>, m: map<K, Stamped<V>>, i: nat)
    requires DistinctKeys(c) && Descending(c, m) && i < |c|
    ensures Descending(c[..i] + c[i + 1..], m - {c[i].key})
  {
    var d, m' := c[..i] + c[i + 1..], m - {c[i].key};
    forall a, b | 0 <= a < b < |d| ensures At(m', d[a].key) > At(m', d[b].key) {
      var a', b' := if a < i then a else a + 1, if b < i then b else b + 1;
      assert d[a] == c[a'] && d[b] == c[b'];
      assert At(m, c[a'].key) > At(m, c[b'].key);
    }
  }

  /** An entry in front leaves every key where it can be found. */
  lemma PushFrontHas<K, V>(c: seq<Entry<K, V>>, m: map<K, Stamped<V>>, k: K, v: V, s: Stamped<V>)
    requires forall x :: x in m ==> Has(c, x)
    ensures forall x :: x in m[k := s] ==> Has([Entry(k, v)] + c, x)
  {
    var d := [Entry(k, v)] + c;
    forall x | x in m[k := s] ensures Has(d, x) {
      if x == k {
        assert d[0].key == k;
      } else {
        assert Has(c, x);
        var j :| 0 <= j < |c| && c[j].key == x;
        assert d[j + 1].key == x;
      }
    }
  }

  lemma PushFrontRanked<K, V>(c: seq<Entry<K, V>>, m: map<K, Stamped<V>>, k: K, v: V, now: nat)
    requires Ranked(c, m) && k !in m && Before(m, now)
    ensures Ranked([Entry(k, v)] + c, m[k := Stamped(v, now)])
  {
    hide Has;
    var d := [Entry(k, v)] + c;
    assert forall j :: 0 < j < |d| ==> d[j] == c[j - 1];
    PushFrontHas(c, m, k, v, Stamped(v, now));
  }

  lemma PushBackRanked<K, V>(c: seq<Entry<K, V>>, m: map<K, Stamped<V>>, k: K, v: V, now: nat)
    requires Ranked(c, m) && k !in m && Before(m, now)
    ensures Ranked(c + [Entry(k, v)], m[k := Stamped(v, 0 - now)])
  {
    var d, m' := c + [Entry(k, v)], m[k := Stamped(v, 0 - now)];
    assert forall j :: 0 <= j < |c| ==> d[j] == c[j];
    forall x | x in m' ensures Has(d, x) {
      if x == k {
        assert d[|c|].key == k;
      } else {
        assert Has(c, x);
        var j :| 0 <= j < |c| && c[j].key == x;
        assert d[j].key == x;
      }
    }
  }

  lemma ReplacedRanked<K, V>(c: seq<Entry<K, V>>, m: map<K, Stamped<V>>, k: K, v: V)
    requires Ranked(c, m) && k in m
    ensures Ranked(Replaced(c, k, v), m[k := Stamped(v, m[k].at)])
  {
    hide Descending;
    var d, m' := Replaced(c, k, v), m[k := Stamped(v, m[k].at)];
    assert Descending(d, m') by { ReplacedDescending(c, m, k, v); }
    forall x | x in m' ensures Has(d, x) {
      assert Has(c, x);
      var j :| 0 <= j < |c| && c[j].key == x;
      assert d[j].key == x;
    }
  }

  lemma ReplacedDescending<K, V>(c: seq<Entry<K, V>>, m: map<K, Stamped<V>>, k: K, v: V)
    requires Descending(c, m) && k in m
    ensures Descending(Replaced(c, k, v), m[k := Stamped(v, m[k].at)])
  {
    var d, m' := Replaced(c, k, v), m[k := Stamped(v, m[k].at)];
    assert forall i :: 0 <= i < |c| ==> d[i].key == c[i].key && At(m', d[i].key) == At(m, c[i].key);
  }

  lemma PutRanked<K, V>(c: seq<Entry<K, V>>, m: map<K, Stamped<V>>, k: K, v: V, now: nat)
    requires Ranked(c, m) && Before(m, now)
    ensures Ranked(PutFront(c, k, v), m[k := Stamped(v, now)])
  {
    WithoutRanked(c, m, k);
    PushFrontRanked(Without(c, k), m - {k}, k, v, now);
    assert (m - {k})[k := Stamped(v, now)] == m[k := Stamped(v, now)];
  }

  /** Eviction takes the entry used least recently. */
  lemma EvictRanked<K(!new), V>(c: seq<Entry<K, V>>, m: map<K, Stamped<V>>, now: nat)
    requires Ranked(c, m)
    ensures Ranked(Evicted(c), Reference(m, Evict, now))
    ensures c != [] ==> Least(m, c[|c| - 1].key)
  {
    if c != [] {
      var last := |c| - 1;
      forall k | k in m ensures m[c[last].key].at <= m[k].at {
        var i := FindKey(c, m, k);
      }
      assert Least(m, c[last].key);
      forall k | Least(m, k) ensures k == c[last].key {
        var i := FindKey(c, m, k);
      }
      RemovedRanked(c, m, last);
      assert c[..last] + c[last + 1..] == c[..last];
    }
  }

  /** One operation. */
  lemma ApplyRanked<K(!new), V>(c: seq<Entry<K, V>>, m: map<K, Stamped<V>>, op: Op<K, V>, now: nat)
    requires Ranked(c, m) && Before(m, now)
    ensures Ranked(Apply(c, op), Reference(m, op, now)) && Before(Reference(m, op, now), now + 1)
  {
    hide Ranked, Without, Replaced, ValueOf;
    match op {
      case Put(k, v) =>
        PutRanked(c, m, k, v, now);
      case AppendBack(k, v) =>
        if k in m {
          var i := FindKey(c, m, k);
          ReplacedRanked(c, m, k, v);
        } else {
          Absent(c, m, k);
          PushBackRanked(c, m, k, v, now);
        }
      case Get(k, front) =>
        if front && k in m {
          var i := FindKey(c, m, k);
          PutRanked(c, m, k, m[k].value, now);
        } else if front {
          Absent(c, m, k);
        }
      case Delete(k) =>
        WithoutRanked(c, m, k);
      case Evict =>
        EvictRanked(c, m, now);
      case Clear =>
        NothingRanked<K, V>();
    }
  }

  lemma NothingRanked<K, V>()
    ensures Ranked<K, V>([], map[])
  {
  }

  /** Every run of operations from the empty cache leaves the entries in order of their last use. */
  lemma {:induction false} RunRanked<K(!new), V>(ops: seq<Op<K, V>>)
    ensures Ranked(ApplyAll([], ops), ReferenceAll(map[], ops)) && Before(ReferenceAll<K, V>(map[], ops), |ops| + 1)
  {
    hide Ranked, Apply, Reference;
    if ops == [] {
      NothingRanked<K, V>();
    } else {
      var before := ops[..|ops| - 1];
      RunRanked(before);
      ApplyRanked(ApplyAll([], before), ReferenceAll(map[], before), ops[|ops| - 1], |ops|);
    }
  }
}
