/** The cache: a list of nodes in order of recency, and a map from each key to its node. */
module LruCache {
  import opened LruOrder

  class Node<K, V> {
    const key: K
    var value: V

    constructor (key: K, value: V)
      ensures this.key == key && this.value == value
    {
      this.key, this.value := key, value;
    }
  }

  /** What a list of nodes holds. */
  ghost function Entries<K, V>(l: seq<Node<K, V>>): (r: seq<Entry<K, V>>)
    reads l
    ensures |r| == |l| && forall i :: 0 <= i < |l| ==> r[i] == Entry(l[i].key, l[i].value)
  {
    if l == [] then [] else [Entry(l[0].key, l[0].value)] + Entries(l[1..])
  }

  ghost predicate DistinctNodes<K, V>(l: seq<Node<K, V>>) {
    forall i, j :: 0 <= i < j < |l| ==> l[i].key != l[j].key
  }

  /** The list without a node: erase, and the first half of splice. */
  function Unlinked<K, V>(l: seq<Node<K, V>>, n: Node<K, V>): seq<Node<K, V>> {
    if l == [] then [] else if l[0] == n then l[1..] else [l[0]] + Unlinked(l[1..], n)
  }

  lemma {:induction false} UnlinkedAt<K, V>(l: seq<Node<K, V>>, i: nat)
    requires DistinctNodes(l) && i < |l|
    ensures Unlinked(l, l[i]) == l[..i] + l[i + 1..]
  {
    if i > 0 {
      assert l[0].key != l[i].key;
      UnlinkedAt(l[1..], i - 1);
      assert l[..i] == [l[0]] + l[1..][..i - 1];
    }
  }

  /** Map and list hold the same keys, each map entry refers to its own node. */
  ghost predicate Agree<K, V>(l: seq<Node<K, V>>, m: map<K, Node<K, V>>) {
    && DistinctNodes(l)
    && (forall i :: 0 <= i < |l| ==> l[i].key in m && m[l[i].key] == l[i])
    && (forall k :: k in m ==> m[k] in l && m[k].key == k)
  }

  lemma {:induction false} AgreeSize<K, V>(l: seq<Node<K, V>>, m: map<K, Node<K, V>>)
    requires Agree(l, m)
    ensures |m| == |l|
    decreases |l|
  {
    hide Agree;
    AgreeKeys(l, m);
    assert |m| == |m.Keys|;
    if l != [] {
      var m' := m - {l[0].key};
      AgreeUnlinked(l, m, 0);
      assert l[..0] + l[1..] == l[1..];
      AgreeSize(l[1..], m');
      assert m.Keys == m'.Keys + {l[0].key};
      assert |m'| == |m'.Keys|;
    }
  }

  lemma AgreeKeys<K, V>(l: seq<Node<K, V>>, m: map<K, Node<K, V>>)
    requires Agree(l, m)
    ensures l == [] ==> m.Keys == {}
    ensures l != [] ==> l[0].key in m
  {
  }

  lemma AgreeUnlinked<K, V>(l: seq<Node<K, V>>, m: map<K, Node<K, V>>, i: nat)
    requires Agree(l, m) && i < |l|
    ensures Agree(l[..i] + l[i + 1..], m - {l[i].key})
  {
    var d, m' := l[..i] + l[i + 1..], m - {l[i].key};
    assert forall j :: 0 <= j < |d| ==> d[j] == l[if j < i then j else j + 1];
    forall k | k in m' ensures m'[k] in d {
      var j :| 0 <= j < |l| && l[j] == m[k];
      assert d[if j < i then j else j - 1] == m[k];
    }
  }

  lemma AgreeFront<K, V>(l: seq<Node<K, V>>, m: map<K, Node<K, V>>, n: Node<K, V>)
    requires Agree(l, m) && n.key !in m
    ensures Agree([n] + l, m[n.key := n])
  {
    var d := [n] + l;
    assert forall j :: 0 < j < |d| ==> d[j] == l[j - 1];
  }

  lemma AgreeBack<K, V>(l: seq<Node<K, V>>, m: map<K, Node<K, V>>, n: Node<K, V>)
    requires Agree(l, m) && n.key !in m
    ensures Agree(l + [n], m[n.key := n])
  {
    var d := l + [n];
    assert forall j :: 0 <= j < |l| ==> d[j] == l[j];
    assert d[|l|] == n;
  }

  /** Entries of a part of the list. */
  lemma EntriesParts<K, V>(l: seq<Node<K, V>>, i: nat)
    requires i < |l|
    ensures Entries(l[..i] + l[i + 1..]) == Entries(l)[..i] + Entries(l)[i + 1..]
  {
    hide Entries;
    var d, c := l[..i] + l[i + 1..], Entries(l);
    forall j | 0 <= j < |d| ensures Entries(d)[j] == (c[..i] + c[i + 1..])[j] {
      assert d[j] == l[if j < i then j else j + 1];
    }
  }

  lemma Distinct<K, V>(l: seq<Node<K, V>>)
    requires DistinctNodes(l)
    ensures DistinctKeys(Entries(l))
  {
  }

  /** Where the node of a key is, and what taking it out leaves. */
  lemma Located<K, V>(l: seq<Node<K, V>>, m: map<K, Node<K, V>>, k: K) returns (i: nat)
    requires Agree(l, m) && k in m
    ensures i < |l| && l[i] == m[k] && m[k].key == k && Unlinked(l, m[k]) == l[..i] + l[i + 1..]
    ensures Entries(Unlinked(l, m[k])) == Without(Entries(l), k) && Agree(Unlinked(l, m[k]), m - {k})
    ensures ValueOf(Entries(l), k) == Some(m[k].value)
  {
    hide Entries;
    i :| 0 <= i < |l| && l[i] == m[k];
    UnlinkedAt(l, i);
    AgreeUnlinked(l, m, i);
    EntriesParts(l, i);
    Distinct(l);
    WithoutAt(Entries(l), i);
    ValueAt(Entries(l), i);
  }

  lemma NotThere<K, V>(l: seq<Node<K, V>>, m: map<K, Node<K, V>>, k: K)
    requires Agree(l, m) && k !in m
    ensures ValueOf(Entries(l), k).None? && Without(Entries(l), k) == Entries(l)
  {
    NoValue(Entries(l), k);
  }

  lemma MovedToFront<K, V>(l: seq<Node<K, V>>, m: map<K, Node<K, V>>, k: K)
    requires Agree(l, m) && k in m
    ensures var l' := [m[k]] + Unlinked(l, m[k]);
      Agree(l', m) && Entries(l') == [Entry(k, m[k].value)] + Without(Entries(l), k)
    ensures multiset([m[k]] + Unlinked(l, m[k])) == multiset(l)
  {
    hide Agree, Entries, Unlinked, Without;
    var i := Located(l, m, k);
    AgreeFront(Unlinked(l, m[k]), m - {k}, m[k]);
    assert (m - {k})[k := m[k]] == m;
    EntriesFront(m[k], Unlinked(l, m[k]));
    assert l == l[..i] + [m[k]] + l[i + 1..];
  }

  lemma EntriesFront<K, V>(n: Node<K, V>, l: seq<Node<K, V>>)
    ensures Entries([n] + l) == [Entry(n.key, n.value)] + Entries(l)
  {
  }

  lemma EntriesBack<K, V>(n: Node<K, V>, l: seq<Node<K, V>>)
    ensures Entries(l + [n]) == Entries(l) + [Entry(n.key, n.value)]
  {
  }

  class Cache<K(==), V> {
    var lru_list: seq<Node<K, V>>
    var lru_access: map<K, Node<K, V>>

    ghost predicate Valid()
      reads this
    {
      Agree(lru_list, lru_access)
    }

    /** The entries, most recently used first. */
    ghost function Contents(): seq<Entry<K, V>>
      reads this, lru_list
    {
      Entries(lru_list)
    }

    constructor ()
      ensures Valid() && Contents() == [] && lru_list == []
    {
      lru_list, lru_access := [], map[];
    }

    method BringToFront(key: K)
      requires Valid() && key in lru_access
      modifies this
      ensures Valid() && lru_access == old(lru_access) && multiset(lru_list) == multiset(old(lru_list))
      ensures Contents() == [Entry(key, lru_access[key].value)] + Without(old(Contents()), key)
    {
      hide Agree, Entries, Unlinked, Without;
      MovedToFront(lru_list, lru_access, key);
      lru_list := [lru_access[key]] + Unlinked(lru_list, lru_access[key]);
    }

    method SetValue(key: K, v: V)
      requires Valid() && key in lru_access
      modifies lru_access[key]
      ensures Valid() && Contents() == Replaced(old(Contents()), key, v)
    {
      lru_access[key].value := v;
    }

    method Put(key: K, v: V)
      requires Valid()
      modifies this, lru_list
      ensures Valid() && Contents() == PutFront(old(Contents()), key, v)
      ensures fresh(set n | n in lru_list && n !in old(lru_list))
    {
      hide Agree, Entries, Unlinked, Without;
      ghost var l := lru_list;
      if key in lru_access {
        InList(lru_list, lru_access, key);
        BringToFront(key);
        assert lru_access[key] in multiset(lru_list);
        SetValue(key, v);
        FrontReplaced(old(Contents()), key, old(lru_access[key].value), v);
        assert forall n :: n in lru_list ==> n in multiset(l);
      } else {
        NotThere(lru_list, lru_access, key);
        var n := new Node(key, v);
        AgreeFront(lru_list, lru_access, n);
        EntriesFront(n, lru_list);
        lru_access := lru_access[key := n];
        lru_list := [n] + lru_list;
      }
    }

    method PutAtBack(key: K, v: V)
      requires Valid()
      modifies this, lru_list
      ensures Valid() && Contents() == PutBack(old(Contents()), key, v)
      ensures fresh(set n | n in lru_list && n !in old(lru_list))
    {
      hide Agree, Entries, Unlinked, Without, ValueOf;
      if key in lru_access {
        var i := Located(lru_list, lru_access, key);
        SetValue(key, v);
      } else {
        NotThere(lru_list, lru_access, key);
        var n := new Node(key, v);
        AgreeBack(lru_list, lru_access, n);
        EntriesBack(n, lru_list);
        lru_access := lru_access[key := n];
        lru_list := lru_list + [n];
      }
    }

    method Size() returns (n: nat)
      requires Valid()
      ensures n == |Contents()|
    {
      AgreeSize(lru_list, lru_access);
      n := |lru_access|;
    }

    /** The node of the key, in which the caller may change the value; null if there is none. */
    method Get(key: K, bringFront: bool) returns (r: Node?<K, V>)
      requires Valid()
      modifies this
      ensures Valid() && lru_access == old(lru_access)
      ensures Contents() == if bringFront then Touched(old(Contents()), key) else old(Contents())
      ensures match ValueOf(old(Contents()), key)
        case None => r == null
        case Some(v) => r != null && r in lru_list && r.key == key && r.value == v
    {
      hide Agree, Entries, Unlinked, Without, ValueOf;
      if key in lru_access {
        var i := Located(lru_list, lru_access, key);
        if bringFront {
          BringToFront(key);
        }
        r := lru_access[key];
        InList(lru_list, lru_access, key);
      } else {
        NotThere(lru_list, lru_access, key);
        r := null;
      }
    }

    method HasKey(key: K) returns (r: bool)
      requires Valid()
      ensures r <==> ValueOf(Contents(), key).Some?
    {
      hide Agree, Entries, Unlinked, Without, ValueOf;
      r := key in lru_access;
      if r {
        var i := Located(lru_list, lru_access, key);
      } else {
        NotThere(lru_list, lru_access, key);
      }
    }

    method EvictOne() returns (r: Option<Entry<K, V>>)
      requires Valid()
      modifies this
      ensures Valid() && Contents() == Evicted(old(Contents())) && r == Oldest(old(Contents()))
    {
      hide Agree, Unlinked, Without, ValueOf;
      if |lru_list| != 0 {
        var back := lru_list[|lru_list| - 1];
        BackNode(lru_list, lru_access);
        r := Some(Entry(lru_access[back.key].key, back.value));
        lru_access := lru_access - {back.key};
        lru_list := lru_list[..|lru_list| - 1];
      } else {
        r := None;
      }
    }

    /** Walks back from the end of the list. */
    method EvictionCandidate(skip: nat) returns (r: Option<Entry<K, V>>)
      requires Valid()
      ensures r == Candidate(Contents(), skip)
      ensures r == Oldest(EvictedTimes(Contents(), skip))
    {
      hide Agree, EvictedTimes;
      CandidateIsEvicted(Contents(), skip);
      if |lru_list| != 0 {
        var it := |lru_list| - 1;
        for i := 0 to skip
          invariant 0 <= it < |lru_list| && it == |lru_list| - 1 - i
        {
          if it == 0 {
            return None;
          }
          it := it - 1;
        }
        r := Some(Entry(lru_list[it].key, lru_list[it].value));
      } else {
        r := None;
      }
    }

    method Del(key: K)
      requires Valid()
      modifies this
      ensures Valid() && Contents() == Without(old(Contents()), key)
    {
      hide Agree, Entries, Unlinked, Without, ValueOf;
      if key in lru_access {
        var i := Located(lru_list, lru_access, key);
        lru_list := Unlinked(lru_list, lru_access[key]);
        lru_access := lru_access - {key};
      } else {
        NotThere(lru_list, lru_access, key);
      }
    }

    method ClearAll()
      modifies this
      ensures Valid() && Contents() == []
    {
      lru_list, lru_access := [], map[];
    }
  }

  /** The node at the back. */
  lemma BackNode<K, V>(l: seq<Node<K, V>>, m: map<K, Node<K, V>>)
    requires Agree(l, m) && l != []
    ensures var n := l[|l| - 1]; n.key in m && m[n.key] == n && Agree(l[..|l| - 1], m - {n.key})
    ensures Entries(l[..|l| - 1]) == Evicted(Entries(l))
  {
    var last := |l| - 1;
    AgreeUnlinked(l, m, last);
    EntriesParts(l, last);
    assert l[..last] + l[last + 1..] == l[..last];
  }

  lemma InList<K, V>(l: seq<Node<K, V>>, m: map<K, Node<K, V>>, k: K)
    requires Agree(l, m) && k in m
    ensures m[k] in l && m[k] in multiset(l)
  {
  }

  lemma FrontReplaced<K, V>(c: seq<Entry<K, V>>, k: K, u: V, v: V)
    ensures Replaced([Entry(k, u)] + Without(c, k), k, v) == PutFront(c, k, v)
  {
    NoneLeft(c, k);
  }

  lemma {:induction false} NoneLeft<K, V>(c: seq<Entry<K, V>>, k: K)
    ensures forall i :: 0 <= i < |Without(c, k)| ==> Without(c, k)[i].key != k
  {
    if c != [] {
      NoneLeft(c[1..], k);
    }
  }
}
