/** No prefix code beats the Huffman lengths: every length assignment that fits the code space costs at least the
    total node weight of the merge history, and one that costs no more has no shorter longest code.

    Both follow by undoing the merges. An item of the queues has a weight and a height; a code has a cost and
    reaches as far down as the largest sum of a height and a code length. */
module HuffmanOptimal {
  import opened Sums
  import opened MergeTree
  import opened HuffmanTree
  import opened HuffmanHeight

  datatype Item = Item(w: nat, h: nat)

  /** An item together with the code length some code gives it. */
  datatype Coded = Coded(x: Item, l: nat)

  ghost predicate Within(p: seq<Coded>, m: nat) {
    forall i :: 0 <= i < |p| ==> p[i].l <= m
  }

  ghost function Space(p: seq<Coded>, m: nat): nat
    requires Within(p, m)
  {
    if p == [] then 0 else Space(p[..|p| - 1], m) + Pow2(m - p[|p| - 1].l)
  }

  ghost function Price(p: seq<Coded>): nat {
    if p == [] then 0 else Price(p[..|p| - 1]) + p[|p| - 1].x.w * p[|p| - 1].l
  }

  ghost function Items(p: seq<Coded>): multiset<Item> {
    if p == [] then multiset{} else Items(p[..|p| - 1]) + multiset{p[|p| - 1].x}
  }

  /** Nothing lies deeper than b. */
  ghost predicate Above(p: seq<Coded>, b: nat) {
    forall i :: 0 <= i < |p| ==> p[i].x.h + p[i].l <= b
  }

  /** Lighter, or as heavy and no higher. */
  predicate Leq(x: Item, y: Item) {
    x.w < y.w || (x.w == y.w && x.h <= y.h)
  }

  ghost function Remove<T>(p: seq<T>, i: nat): seq<T>
    requires i < |p|
  {
    p[..i] + p[i + 1..]
  }

  lemma RemoveLast<T>(p: seq<T>, i: nat)
    requires i < |p|
    ensures i == |p| - 1 ==> Remove(p, i) == p[..|p| - 1]
    ensures i < |p| - 1 ==> Remove(p, i) == Remove(p[..|p| - 1], i) + [p[|p| - 1]]
    ensures i < |p| - 1 ==> Remove(p, i)[..|p| - 2] == Remove(p[..|p| - 1], i)
  {
  }

  lemma {:induction false} RemoveSpace(p: seq<Coded>, i: nat, m: nat)
    requires i < |p| && Within(p, m)
    ensures Within(Remove(p, i), m)
    ensures Space(p, m) == Space(Remove(p, i), m) + Pow2(m - p[i].l)
  {
    RemoveLast(p, i);
    if i < |p| - 1 {
      RemoveSpace(p[..|p| - 1], i, m);
    }
  }

  lemma {:induction false} RemovePrice(p: seq<Coded>, i: nat)
    requires i < |p|
    ensures Price(p) == Price(Remove(p, i)) + p[i].x.w * p[i].l
    ensures Items(p) == Items(Remove(p, i)) + multiset{p[i].x}
  {
    RemoveLast(p, i);
    if i < |p| - 1 {
      RemovePrice(p[..|p| - 1], i);
    }
  }

  lemma RemoveAbove(p: seq<Coded>, i: nat, b: nat)
    requires i < |p|
    ensures Above(p, b) <==> Above(Remove(p, i), b) && p[i].x.h + p[i].l <= b
  {
    var q := Remove(p, i);
    assert forall k :: 0 <= k < |q| ==> q[k] == if k < i then p[k] else p[k + 1];
    assert forall k :: 0 <= k < |p| && k != i ==> p[k] == q[if k < i then k else k - 1];
  }

  lemma RemoveCounts(p: seq<Coded>, i: nat, m: nat, b: nat)
    requires i < |p| && Within(p, m)
    ensures Within(Remove(p, i), m)
    ensures Space(p, m) == Space(Remove(p, i), m) + Pow2(m - p[i].l)
    ensures Price(p) == Price(Remove(p, i)) + p[i].x.w * p[i].l
    ensures Items(p) == Items(Remove(p, i)) + multiset{p[i].x}
    ensures Above(p, b) <==> Above(Remove(p, i), b) && p[i].x.h + p[i].l <= b
  {
    RemoveSpace(p, i, m);
    RemovePrice(p, i);
    RemoveAbove(p, i, b);
  }

  lemma {:induction false} FindItem(p: seq<Coded>, x: Item) returns (i: nat)
    requires x in Items(p)
    ensures i < |p| && p[i].x == x
  {
    if p[|p| - 1].x == x {
      i := |p| - 1;
    } else {
      i := FindItem(p[..|p| - 1], x);
    }
  }

  lemma ItemPresent(p: seq<Coded>, i: nat)
    requires i < |p|
    ensures p[i].x in Items(p)
  {
    RemovePrice(p, i);
  }

  lemma {:induction false} MaxLength(p: seq<Coded>) returns (i: nat)
    requires p != []
    ensures i < |p| && Within(p, p[i].l)
  {
    if |p| == 1 {
      i := 0;
    } else {
      i := MaxLength(p[..|p| - 1]);
      if p[i].l < p[|p| - 1].l {
        i := |p| - 1;
      }
    }
  }

  /** Measuring the code space in a finer unit scales it. */
  lemma {:induction false} Rescale(p: seq<Coded>, m: nat, d: nat)
    requires Within(p, m)
    ensures Within(p, m + d) && Space(p, m + d) == Space(p, m) * Pow2(d)
  {
    if p != [] {
      var q, l := p[..|p| - 1], p[|p| - 1].l;
      Rescale(q, m, d);
      Pow2Add(m - l, d);
      assert m + d - l == m - l + d;
      hide Pow2;
      Distribute(Space(q, m), Pow2(m - l), Pow2(d));
    }
  }

  /** The part of a code that is left when two entries are set apart. */
  ghost predicate Fits(a: Coded, b: Coded, r: seq<Coded>, m: nat) {
    a.l <= m && b.l <= m && Within(r, m) && Pow2(m - a.l) + Pow2(m - b.l) + Space(r, m) <= Pow2(m)
  }

  ghost function Price3(a: Coded, b: Coded, r: seq<Coded>): nat {
    a.x.w * a.l + b.x.w * b.l + Price(r)
  }

  ghost predicate Above3(a: Coded, b: Coded, r: seq<Coded>, h: nat) {
    a.x.h + a.l <= h && b.x.h + b.l <= h && Above(r, h)
  }

  /** Giving the smaller weight the longer of two codes never costs more, and costs less unless the weights or the
      lengths are equal. */
  lemma Swap(x: nat, y: nat, s: nat, t: nat)
    requires x <= y && s <= t
    ensures x * t + y * s <= x * s + y * t
    ensures x < y && s < t ==> x * t + y * s < x * s + y * t
  {
    assert x * t + y * s == x * s + y * t - (y - x) * (t - s);
    MulPositive(y - x, t - s);
  }

  lemma MulPositive(x: nat, y: nat)
    ensures x > 0 && y > 0 ==> x * y > 0
  {
  }

  /** Exchange the code of `a` with that of entry i of the rest. */
  lemma Exchange(a: Coded, r: seq<Coded>, i: nat, m: nat, h: nat) returns (a': Coded, r': seq<Coded>)
    requires i < |r| && a.l <= m && Within(r, m) && Leq(a.x, r[i].x) && a.l <= r[i].l
    ensures a' == a.(l := r[i].l) && r' == [Coded(r[i].x, a.l)] + Remove(r, i)
    ensures Within(r', m) && Pow2(m - a.l) + Space(r, m) == Pow2(m - a'.l) + Space(r', m)
    ensures a'.x.w * a'.l + Price(r') <= a.x.w * a.l + Price(r)
    ensures a'.x.w * a'.l + Price(r') == a.x.w * a.l + Price(r) && a.x.h + a.l <= h && Above(r, h) ==>
      a'.x.h + a'.l <= h && Above(r', h)
    ensures Items(r') == Items(r)
  {
    hide Space, Price, Items, Pow2, Above;
    a', r' := a.(l := r[i].l), [Coded(r[i].x, a.l)] + Remove(r, i);
    RemoveCounts(r, i, m, h);
    RemoveCounts(r', 0, m, h);
    assert Remove(r', 0) == Remove(r, i);
    Swap(a.x.w, r[i].x.w, a.l, r[i].l);
  }

  /** When `a` alone has the longest code, it can be shortened to the next length. */
  lemma Shorten(a: Coded, b: Coded, r: seq<Coded>, m: nat)
    requires Fits(a, b, r, m) && a.l >= b.l && Within(r, b.l)
    ensures b.l >= 1 && Fits(a.(l := b.l), b, r, b.l)
    ensures a.x.w * b.l <= a.x.w * a.l
  {
    var k, d, e := b.l, a.l - b.l, m - a.l;
    var s := Space(r, k);
    Rescale(r, k, m - k);
    Pow2Add(d, e);
    Pow2Add(k, m - k);
    assert d + e == m - k && k + (m - k) == m;
    ShortenArithmetic(Pow2(d) * Pow2(e), Pow2(e), Pow2(k), s);
    assert Pow2(0) == 1;
    Swap(0, a.x.w, b.l, a.l);
  }

  lemma ShortenArithmetic(q: nat, pe: nat, pk: nat, s: nat)
    requires pe > 0 && pe + q + s * q <= pk * q
    ensures 2 + s <= pk
  {
    MulMonotone(pk, s + 1, q);
    Distribute(s, 1, q);
  }

  lemma MulMonotone(x: int, y: int, c: nat)
    ensures x <= y ==> x * c <= y * c
  {
  }

  /** From one form of a code to another: it costs no more, and if it costs as much it lies no deeper than h. */
  ghost predicate Improves(a: Coded, b: Coded, r: seq<Coded>, a': Coded, b': Coded, r': seq<Coded>, h: nat) {
    && a'.x == a.x && b'.x == b.x && Items(r') == Items(r) && Price3(a', b', r') <= Price3(a, b, r)
    && (Price3(a', b', r') == Price3(a, b, r) && Above3(a, b, r, h) ==> Above3(a', b', r', h))
  }

  /** With `a` at least as long as everything, `b` is brought up to the longest of the rest. */
  lemma RaiseSecond(a: Coded, b: Coded, r: seq<Coded>, m: nat, h: nat) returns (b': Coded, r': seq<Coded>)
    requires Fits(a, b, r, m) && a.l >= b.l && Within(r, a.l) && forall x :: x in Items(r) ==> Leq(b.x, x)
    ensures a.l >= b'.l && Within(r', b'.l) && Fits(a, b', r', m)
    ensures Improves(a, b, r, a, b', r', h)
  {
    b', r' := b, r;
    if r != [] {
      var i := MaxLength(r);
      if r[i].l > b.l {
        ItemPresent(r, i);
        b', r' := Exchange(b, r, i, m, h);
      }
    }
  }

  lemma SwapFirst(a: Coded, b: Coded, r: seq<Coded>, m: nat, h: nat) returns (a': Coded, b': Coded)
    requires Fits(a, b, r, m) && Leq(a.x, b.x)
    ensures a'.l >= b'.l && Fits(a', b', r, m) && Improves(a, b, r, a', b', r, h)
  {
    a', b' := a, b;
    if a.l < b.l {
      Swap(a.x.w, b.x.w, a.l, b.l);
      a', b' := a.(l := b.l), b.(l := a.l);
    }
  }

  lemma RaiseFirst(a: Coded, b: Coded, r: seq<Coded>, m: nat, h: nat) returns (a': Coded, r': seq<Coded>)
    requires Fits(a, b, r, m) && a.l >= b.l && Leq(a.x, b.x) && forall x :: x in Items(r) ==> Leq(b.x, x)
    ensures a'.l >= b.l && Within(r', a'.l) && Fits(a', b, r', m) && Improves(a, b, r, a', b, r', h)
  {
    a', r' := a, r;
    if r != [] {
      var i := MaxLength(r);
      if r[i].l > a.l {
        ItemPresent(r, i);
        a', r' := Exchange(a, r, i, m, h);
      }
    }
  }

  /** The two smallest items can be given equal, longest codes: at no extra cost, and no deeper if the cost is the
      same. */
  lemma EqualizeLongest(a: Coded, b: Coded, r: seq<Coded>, m: nat, h: nat) returns (k: nat, r': seq<Coded>)
    requires Leq(a.x, b.x) && Fits(a, b, r, m) && forall x :: x in Items(r) ==> Leq(b.x, x)
    ensures k >= 1 && Fits(a.(l := k), b.(l := k), r', k)
    ensures Improves(a, b, r, a.(l := k), b.(l := k), r', h)
  {
    hide Fits, Items, Price, Above, Within;
    var a1, b1 := SwapFirst(a, b, r, m, h);
    var a2, r2 := RaiseFirst(a1, b1, r, m, h);
    var b3;
    b3, r' := RaiseSecond(a2, b1, r2, m, h);
    k := b3.l;
    Shorten(a2, b3, r', m);
    assert a.(l := k) == a2.(l := k) && b.(l := k) == b3;
  }

  // ---------------------------------------------------------------- lower bound

  /** Every assignment of lengths to these items that fits the code space costs at least `c`, and reaches at least
      down to `d` if it costs no more. */
  ghost predicate AtLeast(ws: multiset<Item>, c: nat, d: nat) {
    forall p: seq<Coded>, m: nat, h: nat :: Items(p) == ws && Within(p, m) && Space(p, m) <= Pow2(m) && Above(p, h)
      ==> Price(p) >= c && (Price(p) == c ==> h >= d)
  }

  lemma TakeOut(p: seq<Coded>, m: nat, x: Item, h: nat) returns (a: Coded, q: seq<Coded>)
    requires Within(p, m) && x in Items(p)
    ensures a.x == x && a.l <= m && Within(q, m) && Items(p) == Items(q) + multiset{x}
    ensures Space(p, m) == Space(q, m) + Pow2(m - a.l) && Price(p) == Price(q) + a.x.w * a.l
    ensures Above(p, h) <==> Above(q, h) && a.x.h + a.l <= h
  {
    var i := FindItem(p, x);
    RemoveCounts(p, i, m, h);
    a, q := p[i], Remove(p, i);
  }

  lemma Cancel(a: multiset<Item>, b: multiset<Item>, x: Item)
    requires a + multiset{x} == b + multiset{x}
    ensures a == b
  {
    assert a == a + multiset{x} - multiset{x};
    assert b == b + multiset{x} - multiset{x};
  }

  lemma SetApart(p: seq<Coded>, m: nat, x: Item, y: Item, rest: multiset<Item>, h: nat)
    returns (a: Coded, b: Coded, r: seq<Coded>)
    requires Within(p, m) && Space(p, m) <= Pow2(m) && Items(p) == rest + multiset{x, y}
    ensures a.x == x && b.x == y && Fits(a, b, r, m)
    ensures Items(r) == rest && Price(p) == Price3(a, b, r) && (Above(p, h) ==> Above3(a, b, r, h))
  {
    var q;
    assert x in Items(p);
    a, q := TakeOut(p, m, x, h);
    Cancel(Items(q), rest + multiset{y}, x);
    b, r := TakeOut(q, m, y, h);
    Cancel(Items(r), rest, y);
  }

  lemma {:induction false} Push(p: seq<Coded>, e: Coded, m: nat)
    requires Within(p, m) && e.l <= m
    ensures Within(p + [e], m) && Space(p + [e], m) == Space(p, m) + Pow2(m - e.l)
    ensures Price(p + [e]) == Price(p) + e.x.w * e.l && Items(p + [e]) == Items(p) + multiset{e.x}
  {
    assert (p + [e])[..|p|] == p;
  }

  lemma OneStep()
    ensures Pow2(1) == 2 && Pow2(0) == 1
  {
  }

  /** What a merge makes of two items. */
  function Merged(x: Item, y: Item): Item {
    Item(x.w + y.w, 1 + Larger(x.h, y.h))
  }

  /** Replacing two equally long codes by one a bit shorter saves their weights once and lies as deep. */
  lemma Fuse(x: Item, y: Item, k: nat, r: seq<Coded>, h: nat) returns (p: seq<Coded>)
    requires k >= 1 && Fits(Coded(x, k), Coded(y, k), r, k)
    ensures Within(p, k) && Space(p, k) <= Pow2(k) && Items(p) == Items(r) + multiset{Merged(x, y)}
    ensures Price3(Coded(x, k), Coded(y, k), r) == Price(p) + x.w + y.w
    ensures Above3(Coded(x, k), Coded(y, k), r, h) ==> Above(p, h)
  {
    var e := Coded(Merged(x, y), k - 1);
    p := r + [e];
    OneStep();
    hide Pow2, Space, Items, Price, Above, Within;
    Push(r, e, k);
    if Above3(Coded(x, k), Coded(y, k), r, h) {
      PushAbove(r, e, h);
    }
    FuseArithmetic(x.w, y.w, k);
    assert Fits(Coded(x, k), Coded(y, k), r, k);
  }

  lemma FuseArithmetic(x: nat, y: nat, k: nat)
    requires k >= 1
    ensures x * k + y * k == (x + y) * (k - 1) + x + y
  {
    Distribute(x, y, k - 1);
    Distribute(k - 1, 1, x);
    Distribute(k - 1, 1, y);
  }

  lemma PushAbove(r: seq<Coded>, e: Coded, h: nat)
    requires Above(r, h) && e.x.h + e.l <= h
    ensures Above(r + [e], h)
  {
  }

  lemma MergePrice(p: seq<Coded>, m: nat, x: Item, y: Item, rest: multiset<Item>, c: nat, d: nat, h: nat)
    requires Leq(x, y) && (forall v :: v in rest ==> Leq(y, v)) && AtLeast(rest + multiset{Merged(x, y)}, c, d)
    requires Items(p) == rest + multiset{x, y} && Within(p, m) && Space(p, m) <= Pow2(m) && Above(p, h)
    ensures Price(p) >= c + x.w + y.w && (Price(p) == c + x.w + y.w ==> h >= d)
  {
    hide Fits, Space, Price, Items, Above, Above3, Price3, Leq, Pow2, Within;
    var a, b, r := SetApart(p, m, x, y, rest, h);
    var k, r' := EqualizeLongest(a, b, r, m, h);
    var q := Fuse(x, y, k, r', h);
    assert Items(q) == rest + multiset{Merged(x, y)};
    assert Price(q) >= c by {
      AboveSome(q);
      var g :| Above(q, g);
    }
  }

  lemma {:induction false} AboveSome(p: seq<Coded>)
    ensures exists h: nat :: Above(p, h)
  {
    if p == [] {
      assert Above(p, 0);
    } else {
      var q, e := p[..|p| - 1], p[|p| - 1];
      AboveSome(q);
      var h: nat :| Above(q, h);
      assert Above(p, h + e.x.h + e.l);
    }
  }

  /** Merging the two smallest items raises the lower bound by their weights. */
  lemma MergeRaisesBound(ws: multiset<Item>, x: Item, y: Item, rest: multiset<Item>, c: nat, d: nat)
    requires Leq(x, y) && ws == rest + multiset{x, y} && (forall v :: v in rest ==> Leq(y, v))
    requires AtLeast(rest + multiset{Merged(x, y)}, c, d)
    ensures AtLeast(ws, c + x.w + y.w, d)
  {
    hide Space, Price, Items, Pow2, Above, Leq, Merged;
    forall p: seq<Coded>, m: nat, h: nat | Items(p) == ws && Within(p, m) && Space(p, m) <= Pow2(m) && Above(p, h)
      ensures Price(p) >= c + x.w + y.w && (Price(p) == c + x.w + y.w ==> h >= d)
    {
      MergePrice(p, m, x, y, rest, c, d, h);
    }
  }

  // ---------------------------------------------------------------- the queues

  /** The leaves from position a on, without height. */
  ghost function Leaves(f: seq<nat>): (s: seq<Item>)
    ensures |s| == |f| && forall k :: 0 <= k < |f| ==> s[k] == Item(f[k], 0)
  {
    seq(|f|, k requires 0 <= k < |f| => Item(f[k], 0))
  }

  ghost function Nodes(t: Tree): (s: seq<Item>)
    requires t.Valid()
    ensures |s| == |t.w| && |t.ic| == |t.f| == |t.w| + 1 && History(|t.f|, t.ic)
    ensures forall j :: 0 <= j < |t.w| ==> s[j] == Item(t.w[j], Height(t.ic, |t.f|, j))
  {
    seq(|t.w|, j requires 0 <= j < |t.w| => Item(t.w[j], Height(t.ic, |t.f|, j)))
  }

  /** What is queued after m merges. */
  ghost function Queued(t: Tree, leaves: seq<Item>, nodes: seq<Item>, m: nat): multiset<Item>
    requires |t.ic| == |nodes| + 1 == |leaves| && m < |leaves| && t.ic[m] <= m && 0 <= Lc(t.ic, m) <= |leaves|
  {
    multiset(leaves[Lc(t.ic, m)..]) + multiset(nodes[t.ic[m]..m])
  }

  /** The items a node consumed, by how many of them are leaves; y is the larger one, and the last of its kind. */
  ghost predicate Consumed(leaves: seq<Item>, nodes: seq<Item>, a: nat, b: nat, c: nat, d: nat, m: nat, x: Item,
      y: Item)
    requires a <= b <= |leaves| && c <= d <= m < |nodes|
  {
    && Leq(x, y) && Merged(x, y) == nodes[m] && multiset(leaves[a..b] + nodes[c..d]) == multiset{x, y}
    && (forall k :: b <= k < |leaves| ==> Leq(y, leaves[k])) && (forall i :: d <= i < m ==> Leq(y, nodes[i]))
  }

  lemma TwoLeaves(leaves: seq<Item>, nodes: seq<Item>, a: nat, c: nat, m: nat)
    requires a + 2 <= |leaves| && c <= m < |nodes| && Merged(leaves[a], leaves[a + 1]) == nodes[m]
    requires forall j, k :: 0 <= j < k < |leaves| ==> Leq(leaves[j], leaves[k])
    requires leaves[a + 1].h == 0 && forall i :: c <= i < m ==> leaves[a + 1].w <= nodes[i].w
    ensures Consumed(leaves, nodes, a, a + 2, c, c, m, leaves[a], leaves[a + 1])
  {
    assert leaves[a..a + 2] + nodes[c..c] == [leaves[a], leaves[a + 1]];
  }

  lemma LeafAndNode(leaves: seq<Item>, nodes: seq<Item>, a: nat, c: nat, m: nat) returns (x: Item, y: Item)
    requires a + 1 <= |leaves| && c + 1 <= m < |nodes| && Merged(leaves[a], nodes[c]) == nodes[m]
    requires forall j, k :: 0 <= j < k < |leaves| ==> Leq(leaves[j], leaves[k])
    requires forall j, k :: 0 <= j < k < |nodes| ==> Leq(nodes[j], nodes[k])
    requires leaves[a].h == 0 && forall i :: c + 1 <= i < m ==> leaves[a].w <= nodes[i].w
    requires forall k :: a + 1 <= k < |leaves| ==> nodes[c].w < leaves[k].w
    ensures Consumed(leaves, nodes, a, a + 1, c, c + 1, m, x, y)
  {
    assert leaves[a..a + 1] + nodes[c..c + 1] == [leaves[a], nodes[c]];
    x, y := leaves[a], nodes[c];
    if y.w < x.w {
      x, y := y, x;
    }
  }

  lemma TwoNodes(leaves: seq<Item>, nodes: seq<Item>, a: nat, c: nat, m: nat)
    requires a <= |leaves| && c + 2 <= m < |nodes| && Merged(nodes[c], nodes[c + 1]) == nodes[m]
    requires forall j, k :: 0 <= j < k < |nodes| ==> Leq(nodes[j], nodes[k])
    requires forall k :: a <= k < |leaves| ==> nodes[c + 1].w < leaves[k].w
    ensures Consumed(leaves, nodes, a, a, c, c + 2, m, nodes[c], nodes[c + 1])
  {
    assert leaves[a..a] + nodes[c..c + 2] == [nodes[c], nodes[c + 1]];
  }

  /** Leaves left over are heavier than every node just consumed. */
  lemma LeavesLeft(t: Tree, m: nat)
    requires t.Valid() && m < |t.w|
    ensures |t.ic| == |t.w| + 1 == |t.f| && 0 <= Lc(t.ic, m) <= Lc(t.ic, m + 1) <= |t.f|
    ensures t.ic[m] <= t.ic[m + 1] <= m
    ensures forall i, k :: t.ic[m] <= i < t.ic[m + 1] && Lc(t.ic, m + 1) <= k < |t.f| ==> t.w[i] < t.f[k]
    ensures forall j, k :: 0 <= j < k < |t.f| ==> t.f[j] <= t.f[k]
  {
    GreedyFacts(t, m);
    assert Sorted(t.f);
    hide Greedy, History;
  }

  /** The weight and height of node m are those of its two items merged. */
  lemma NodeMerges(t: Tree, m: nat, leaves: seq<Item>, nodes: seq<Item>)
    requires t.Valid() && m < |t.w| && leaves == Leaves(t.f) && nodes == Nodes(t)
    ensures |t.ic| == |t.w| + 1 == |t.f| && 0 <= Lc(t.ic, m) <= Lc(t.ic, m + 1) <= |t.f|
    ensures t.ic[m] <= t.ic[m + 1] <= m < |nodes| && Lc(t.ic, m + 1) <= Lc(t.ic, m) + 2
    ensures Lc(t.ic, m + 1) - Lc(t.ic, m) + t.ic[m + 1] - t.ic[m] == 2
    ensures var a, b, c := Lc(t.ic, m), Lc(t.ic, m + 1), t.ic[m];
            && (b == a + 2 ==> nodes[m] == Merged(leaves[a], leaves[a + 1]))
            && (b == a + 1 ==> nodes[m] == Merged(leaves[a], nodes[c]))
            && (b == a ==> nodes[m] == Merged(nodes[c], nodes[c + 1]))
  {
    TwoItems(t, m);
    hide Tree.Valid, Leaves, Nodes;
  }

  lemma NodesInOrder(t: Tree, nodes: seq<Item>)
    requires t.Valid() && nodes == Nodes(t)
    ensures forall i, j :: 0 <= i < j < |nodes| ==> Leq(nodes[i], nodes[j])
  {
    NodesRanked(t, |t.w|);
    assert Sorted(t.w);
    hide Tree.Valid, Nodes;
  }

  lemma LeavesInOrder(t: Tree, leaves: seq<Item>)
    requires t.Valid() && leaves == Leaves(t.f)
    ensures |leaves| == |t.f| && forall j, k :: 0 <= j < k < |leaves| ==> Leq(leaves[j], leaves[k])
    ensures forall k :: 0 <= k < |leaves| ==> leaves[k].h == 0
  {
    assert Sorted(t.f);
    hide Tree.Valid;
  }

  /** What node m leaves in the queues is no lighter than what it takes, and leaves are heavier than nodes. */
  lemma TakenBelowLeft(t: Tree, m: nat, leaves: seq<Item>, nodes: seq<Item>)
    requires t.Valid() && m < |t.w| && leaves == Leaves(t.f) && nodes == Nodes(t)
    ensures |t.ic| == |t.w| + 1 == |t.f| && |leaves| == |t.f| && |nodes| == |t.w|
    ensures 0 <= Lc(t.ic, m) <= Lc(t.ic, m + 1) <= |t.f| && t.ic[m] <= t.ic[m + 1] <= m
    ensures forall k, i :: Lc(t.ic, m) <= k < Lc(t.ic, m + 1) && t.ic[m + 1] <= i < m ==> leaves[k].w <= nodes[i].w
    ensures forall i, k :: t.ic[m] <= i < t.ic[m + 1] && Lc(t.ic, m + 1) <= k < |leaves| ==> nodes[i].w < leaves[k].w
  {
    LeavesLeft(t, m);
    GreedyFacts(t, m);
    NodeWeights(t, nodes);
    hide Tree.Valid, Nodes, Leaves, Lc;
  }

  lemma NodeWeights(t: Tree, nodes: seq<Item>)
    requires t.Valid() && nodes == Nodes(t)
    ensures |nodes| == |t.w| && forall m :: 0 <= m < |t.w| ==> nodes[m].w == t.w[m]
  {
    hide Tree.Valid;
  }

  lemma TwoTaken(leaves: seq<Item>, nodes: seq<Item>, a: nat, b: nat, c: nat, d: nat, m: nat)
    returns (x: Item, y: Item)
    requires a <= b <= |leaves| && c <= d <= m < |nodes| && b - a + d - c == 2
    requires b == a + 2 ==> nodes[m] == Merged(leaves[a], leaves[a + 1])
    requires b == a + 1 ==> nodes[m] == Merged(leaves[a], nodes[c])
    requires b == a ==> nodes[m] == Merged(nodes[c], nodes[c + 1])
    requires forall j, k :: 0 <= j < k < |leaves| ==> Leq(leaves[j], leaves[k])
    requires forall k :: 0 <= k < |leaves| ==> leaves[k].h == 0
    requires forall j, k :: 0 <= j < k < |nodes| ==> Leq(nodes[j], nodes[k])
    requires forall k, i :: a <= k < b && d <= i < m ==> leaves[k].w <= nodes[i].w
    requires forall i, k :: c <= i < d && b <= k < |leaves| ==> nodes[i].w < leaves[k].w
    ensures Consumed(leaves, nodes, a, b, c, d, m, x, y)
  {
    hide Merged, Consumed, Leq;
    if b == a + 2 {
      x, y := leaves[a], leaves[a + 1];
      TwoLeaves(leaves, nodes, a, c, m);
    } else if b == a + 1 {
      x, y := LeafAndNode(leaves, nodes, a, c, m);
    } else {
      x, y := nodes[c], nodes[c + 1];
      TwoNodes(leaves, nodes, a, c, m);
    }
  }

  /** The items consumed by node m are the two smallest ones queued. */
  lemma TwoSmallest(t: Tree, m: nat, leaves: seq<Item>, nodes: seq<Item>) returns (x: Item, y: Item)
    requires t.Valid() && m < |t.w| && leaves == Leaves(t.f) && nodes == Nodes(t)
    ensures |t.ic| == |t.w| + 1 == |t.f| && |leaves| == |t.f| && |nodes| == |t.w|
    ensures 0 <= Lc(t.ic, m) <= Lc(t.ic, m + 1) <= |t.f| && t.ic[m] <= t.ic[m + 1] <= m
    ensures Consumed(leaves, nodes, Lc(t.ic, m), Lc(t.ic, m + 1), t.ic[m], t.ic[m + 1], m, x, y)
  {
    hide Tree.Valid, History, Merged, Consumed, Leaves, Nodes, Leq;
    NodeMerges(t, m, leaves, nodes);
    NodesInOrder(t, nodes);
    LeavesInOrder(t, leaves);
    TakenBelowLeft(t, m, leaves, nodes);
    x, y := TwoTaken(leaves, nodes, Lc(t.ic, m), Lc(t.ic, m + 1), t.ic[m], t.ic[m + 1], m);
  }

  lemma SplitQueues(f: seq<Item>, w: seq<Item>, a: nat, b: nat, c: nat, d: nat, m: nat, picked: multiset<Item>,
      rest: multiset<Item>)
    requires a <= b <= |f| && c <= d <= m < |w|
    requires picked == multiset(f[a..b] + w[c..d]) && rest == multiset(f[b..] + w[d..m])
    ensures multiset(f[a..]) + multiset(w[c..m]) == rest + picked
    ensures multiset(f[b..]) + multiset(w[d..m + 1]) == rest + multiset{w[m]}
  {
    assert f[a..] == f[a..b] + f[b..];
    assert w[c..m] == w[c..d] + w[d..m];
    assert w[d..m + 1] == w[d..m] + [w[m]];
  }

  /** One merge replaces its two items in the queues by what it makes of them. */
  lemma QueuedStep(t: Tree, m: nat, leaves: seq<Item>, nodes: seq<Item>)
    returns (x: Item, y: Item, rest: multiset<Item>)
    requires t.Valid() && m < |t.w| && leaves == Leaves(t.f) && nodes == Nodes(t)
    ensures |t.ic| == |t.w| + 1 == |t.f| && |leaves| == |t.f| && |nodes| == |t.w|
    ensures 0 <= Lc(t.ic, m) <= Lc(t.ic, m + 1) <= |t.f| && t.ic[m] <= t.ic[m + 1] <= m
    ensures Leq(x, y) && Merged(x, y) == nodes[m] && forall v :: v in rest ==> Leq(y, v)
    ensures Queued(t, leaves, nodes, m) == rest + multiset{x, y}
    ensures Queued(t, leaves, nodes, m + 1) == rest + multiset{nodes[m]}
  {
    x, y := TwoSmallest(t, m, leaves, nodes);
    hide Tree.Valid, Leaves, Nodes;
    var b, d := Lc(t.ic, m + 1), t.ic[m + 1];
    var u := leaves[b..] + nodes[d..m];
    rest := multiset(u);
    assert forall v :: v in rest ==> v in u;
    SplitQueues(leaves, nodes, Lc(t.ic, m), b, t.ic[m], d, m, multiset{x, y}, rest);
  }

  /** The lower bound on what is queued after m merges. */
  ghost predicate QueuedAtLeast(t: Tree, leaves: seq<Item>, nodes: seq<Item>, m: nat, c: nat, d: nat) {
    && |t.ic| == |nodes| + 1 == |leaves| && m < |leaves| && t.ic[m] <= m && 0 <= Lc(t.ic, m) <= |leaves|
    && AtLeast(Queued(t, leaves, nodes, m), c, d)
  }

  lemma TreeBoundStep(t: Tree, m: nat, leaves: seq<Item>, nodes: seq<Item>, c: nat, d: nat)
    requires t.Valid() && m < |t.w| && leaves == Leaves(t.f) && nodes == Nodes(t)
    requires QueuedAtLeast(t, leaves, nodes, m + 1, c, d)
    ensures QueuedAtLeast(t, leaves, nodes, m, c + t.w[m], d)
  {
    NodeWeights(t, nodes);
    hide Tree.Valid, History, AtLeast, Queued, Leq, Leaves, Nodes, Lc;
    var x, y, rest := QueuedStep(t, m, leaves, nodes);
    MergeRaisesBound(Queued(t, leaves, nodes, m), x, y, rest, c, d);
  }

  /** What is queued after m merges can be coded no cheaper than by the merges to come, and at that cost reaches
      down as far as the root is high. */
  lemma {:induction false} TreeBound(t: Tree, m: nat, leaves: seq<Item>, nodes: seq<Item>)
    requires t.Valid() && m <= |t.w| && leaves == Leaves(t.f) && nodes == Nodes(t)
    ensures |nodes| >= 1 && QueuedAtLeast(t, leaves, nodes, m, Sum(t.w[m..]), nodes[|nodes| - 1].h)
    decreases |t.w| - m
  {
    hide Tree.Valid, QueuedAtLeast, Leaves, Nodes, Sum;
    SameSizes(t, leaves, nodes);
    if m < |t.w| {
      TreeBound(t, m + 1, leaves, nodes);
      TreeBoundStep(t, m, leaves, nodes, Sum(t.w[m + 1..]), nodes[|nodes| - 1].h);
      SumFirst(t.w, m);
    } else {
      NothingLeft(t.w);
      OneQueued(t, leaves, nodes);
    }
  }

  lemma SameSizes(t: Tree, leaves: seq<Item>, nodes: seq<Item>)
    requires t.Valid() && leaves == Leaves(t.f) && nodes == Nodes(t)
    ensures |leaves| == |t.f| && |nodes| == |t.w| >= 1
  {
  }

  lemma NothingLeft(w: seq<nat>)
    ensures Sum(w[|w|..]) == 0
  {
  }

  lemma SumFirst(w: seq<nat>, m: nat)
    requires m < |w|
    ensures Sum(w[m..]) == w[m] + Sum(w[m + 1..])
  {
    assert w[m..] == [w[m]] + w[m + 1..];
    SumAppend([w[m]], w[m + 1..]);
    SumOne(w[m]);
  }

  lemma OneQueued(t: Tree, leaves: seq<Item>, nodes: seq<Item>)
    requires t.Valid() && leaves == Leaves(t.f) && nodes == Nodes(t)
    ensures |nodes| >= 1 && QueuedAtLeast(t, leaves, nodes, |nodes|, 0, nodes[|nodes| - 1].h)
  {
    Sizes(t);
    hide Tree.Valid, Leaves, Nodes, AtLeast;
    var n := |nodes|;
    assert t.ic[n] == n - 1 && Lc(t.ic, n) == |leaves|;
    assert leaves[Lc(t.ic, n)..] == [] && nodes[n - 1..n] == [nodes[n - 1]];
    AtLeastOne(nodes[n - 1]);
    assert Queued(t, leaves, nodes, n) == multiset{nodes[n - 1]};
  }

  lemma AtLeastOne(x: Item)
    ensures AtLeast(multiset{x}, 0, x.h)
  {
    forall p: seq<Coded>, m: nat, h: nat |
        Items(p) == multiset{x} && Within(p, m) && Space(p, m) <= Pow2(m) && Above(p, h)
      ensures h >= x.h
    {
      assert x in Items(p);
      var i := FindItem(p, x);
    }
  }

  lemma NoItems()
    ensures Items([]) == multiset{} && Space([], 0) == 0 && Price([]) == 0
  {
  }

  lemma NoSpace(m: nat)
    ensures Space([], m) == 0
  {
  }

  lemma PushLeaf(f: seq<nat>, x: nat)
    ensures multiset(Leaves(f + [x])) == multiset(Leaves(f)) + multiset{Item(x, 0)}
  {
    assert Leaves(f + [x]) == Leaves(f) + [Item(x, 0)];
  }

  lemma {:induction false} Zip(f: seq<nat>, l: seq<nat>, m: nat) returns (p: seq<Coded>)
    requires |f| == |l| && AllAtMost(l, m)
    ensures Items(p) == multiset(Leaves(f)) && Within(p, m) && Above(p, m)
    ensures Space(p, m) == Kraft(l, m) && Price(p) == Cost(f, l)
  {
    hide Pow2, Space, Price, Items, Leaves;
    if f == [] {
      p := [];
      NoItems();
      NoSpace(m);
      assert Leaves(f) == [];
    } else {
      var n := |f| - 1;
      var q := Zip(f[..n], l[..n], m);
      var e := Coded(Item(f[n], 0), l[n]);
      p := q + [e];
      Push(q, e, m);
      PushAbove(q, e, m);
      PushLeaf(f[..n], f[n]);
      assert f == f[..n] + [f[n]];
    }
  }

  /** The lengths computed from a merge history are optimal among all lengths that fit the code space, and hence
      among all prefix codes; and no lengths as good as them have a shorter longest one. */
  lemma Optimal(t: Tree, l: seq<nat>, m: nat)
    requires t.Valid() && |l| == |t.f| && AllAtMost(l, m) && Kraft(l, m) <= Pow2(m)
    ensures |t.len| == |t.f| && Cost(t.f, t.len) <= Cost(t.f, l)
    ensures Cost(t.f, t.len) == Cost(t.f, l) ==> AllAtMost(t.len, m)
  {
    CostIsTotalWeight(t);
    LengthsBelowRoot(t);
    Sizes(t);
    var leaves, nodes := Leaves(t.f), Nodes(t);
    TreeBound(t, 0, leaves, nodes);
    var p := Zip(t.f, l, m);
    hide Tree.Valid, History, Height;
    assert t.w[0..] == t.w && leaves[0..] == leaves && nodes[0..0] == [];
  }
}
