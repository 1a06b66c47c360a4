/** Shamir-style double multiplication with a table of joint powers (CascadeScalarMultiply). */
module Cascade {
  import opened Sums
  import opened Bits
  import opened AbelianGroup
  import opened SlidingWindow

  /** a x + b y */
  ghost function Combo<T(!new)>(g: Group<T>, x: T, y: T, a: nat, b: nat): T {
    g.add(Times(g, a, x), Times(g, b, y))
  }

  lemma ComboAdd<T(!new)>(g: Group<T>, x: T, y: T, a: nat, b: nat, c: nat, d: nat)
    requires Laws(g)
    ensures g.add(Combo(g, x, y, a, b), Combo(g, x, y, c, d)) == Combo(g, x, y, a + c, b + d)
  {
    hide Laws, Times;
    Exchange(g, Times(g, a, x), Times(g, b, y), Times(g, c, x), Times(g, d, y));
    Plus(g, a, c, x);
    Plus(g, b, d, y);
  }

  lemma ComboUnits<T(!new)>(g: Group<T>, x: T, y: T)
    requires Laws(g)
    ensures Combo(g, x, y, 1, 0) == x && Combo(g, x, y, 0, 1) == y && Combo(g, x, y, 0, 0) == g.zero
  {
    hide Laws, Times;
    One(g, x);
    One(g, y);
    Zero(g, x);
    Zero(g, y);
    Zero(g, g.zero);
  }

  // ---------------------------------------------------------------- the table

  /** (b << w) + a, where n == 1 << w. */
  function Index(n: nat, a: nat, b: nat): nat {
    if n == 2 then 2 * b + a else if n == 4 then 4 * b + a else 8 * b + a
  }

  ghost predicate Entry<T(!new)>(t: seq<T>, n: nat, g: Group<T>, x: T, y: T, a: nat, b: nat) {
    Index(n, a, b) < |t| && t[Index(n, a, b)] == Combo(g, x, y, a, b)
  }

  /** Every pair of powers that are not both even has its entry. */
  ghost predicate Table<T(!new)>(t: seq<T>, n: nat, g: Group<T>, x: T, y: T) {
    forall a: nat, b: nat :: a < n && b < n && (a % 2 == 1 || b % 2 == 1) ==> Entry(t, n, g, x, y, a, b)
  }

  /** The entries for odd powers of x below `cols`, for powers of y below `rows`. */
  ghost predicate OddColumns<T(!new)>(t: seq<T>, n: nat, g: Group<T>, x: T, y: T, cols: nat, rows: nat) {
    forall a: nat, b: nat :: a < cols && b < rows && a % 2 == 1 ==> Entry(t, n, g, x, y, a, b)
  }

  /** The entries for odd powers of y below `rows`, for even powers of x below `cols`. */
  ghost predicate OddRows<T(!new)>(t: seq<T>, n: nat, g: Group<T>, x: T, y: T, cols: nat, rows: nat) {
    forall a: nat, b: nat :: a < cols && b < rows && a % 2 == 0 && b % 2 == 1 ==> Entry(t, n, g, x, y, a, b)
  }

  ghost predicate Dimensions(n: nat, size: nat) {
    (n == 4 && size == 16) || (n == 8 && size == 64)
  }

  /** One addition into the table. */
  lemma Grow<T(!new)>(t: seq<T>, n: nat, g: Group<T>, x: T, y: T, a: nat, b: nat, c: nat, d: nat, v: T, t': seq<T>)
    requires Entry(t, n, g, x, y, a, b) && v == Combo(g, x, y, c, d)
    requires Index(n, a + c, b + d) < |t| && t' == t[Index(n, a + c, b + d) := g.add(t[Index(n, a, b)], v)]
    requires Laws(g)
    ensures Entry(t', n, g, x, y, a + c, b + d)
  {
    hide Laws, Combo;
    ComboAdd(g, x, y, a, b, c, d);
  }

  lemma Kept<T(!new)>(t: seq<T>, n: nat, g: Group<T>, x: T, y: T, a: nat, b: nat, k: nat, v: T)
    requires Entry(t, n, g, x, y, a, b) && k < |t| && k != Index(n, a, b)
    ensures Entry(t[k := v], n, g, x, y, a, b)
  {
  }

  /** The entries of column a for powers of y below `rows`. */
  ghost predicate Column<T(!new)>(t: seq<T>, n: nat, g: Group<T>, x: T, y: T, a: nat, rows: nat) {
    forall b: nat :: b < rows ==> Entry(t, n, g, x, y, a, b)
  }

  /** The even entries of row b below `cols`. */
  ghost predicate EvenRow<T(!new)>(t: seq<T>, n: nat, g: Group<T>, x: T, y: T, b: nat, cols: nat) {
    forall a: nat :: a < cols && a % 2 == 0 ==> Entry(t, n, g, x, y, a, b)
  }

  ghost predicate Doubles<T(!new)>(t: seq<T>, n: nat, g: Group<T>, x: T, y: T) {
    Entry(t, n, g, x, y, 2, 0) && Entry(t, n, g, x, y, 0, 2) && Entry(t, n, g, x, y, 0, 1)
  }

  /** Writing entry (c, d) leaves all entries before it. */
  lemma KeepColumns<T(!new)>(t: seq<T>, n: nat, g: Group<T>, x: T, y: T, cols: nat, rows: nat, c: nat, d: nat, v: T)
    requires OddColumns(t, n, g, x, y, cols, rows) && Dimensions(n, |t|) && cols <= n && rows <= n && c < n && d < n
    requires c >= cols || d >= rows || c % 2 == 0
    ensures Index(n, c, d) < |t| && OddColumns(t[Index(n, c, d) := v], n, g, x, y, cols, rows)
  {
    hide Combo;
    var t' := t[Index(n, c, d) := v];
    forall a: nat, b: nat | a < cols && b < rows && a % 2 == 1 ensures Entry(t', n, g, x, y, a, b) {
      Kept(t, n, g, x, y, a, b, Index(n, c, d), v);
    }
  }

  lemma KeepColumn<T(!new)>(t: seq<T>, n: nat, g: Group<T>, x: T, y: T, a: nat, rows: nat, c: nat, d: nat, v: T)
    requires Column(t, n, g, x, y, a, rows) && Dimensions(n, |t|) && a < n && rows <= n && c < n && d < n
    requires (c != a || d >= rows)
    ensures Index(n, c, d) < |t| && Column(t[Index(n, c, d) := v], n, g, x, y, a, rows)
  {
    hide Combo;
    var t' := t[Index(n, c, d) := v];
    forall b: nat | b < rows ensures Entry(t', n, g, x, y, a, b) {
      Kept(t, n, g, x, y, a, b, Index(n, c, d), v);
    }
  }

  lemma KeepRows<T(!new)>(t: seq<T>, n: nat, g: Group<T>, x: T, y: T, cols: nat, rows: nat, c: nat, d: nat, v: T)
    requires OddRows(t, n, g, x, y, cols, rows) && Dimensions(n, |t|) && cols <= n && rows <= n && c < n && d < n
    requires (c >= cols || d >= rows)
    ensures Index(n, c, d) < |t| && OddRows(t[Index(n, c, d) := v], n, g, x, y, cols, rows)
  {
    hide Combo;
    var t' := t[Index(n, c, d) := v];
    forall a: nat, b: nat | a < cols && b < rows && a % 2 == 0 && b % 2 == 1 ensures Entry(t', n, g, x, y, a, b) {
      Kept(t, n, g, x, y, a, b, Index(n, c, d), v);
    }
  }

  lemma KeepEvenRow<T(!new)>(t: seq<T>, n: nat, g: Group<T>, x: T, y: T, b: nat, cols: nat, c: nat, d: nat, v: T)
    requires EvenRow(t, n, g, x, y, b, cols) && Dimensions(n, |t|) && b < n && cols <= n && c < n && d < n
    requires (d != b || c >= cols)
    ensures Index(n, c, d) < |t| && EvenRow(t[Index(n, c, d) := v], n, g, x, y, b, cols)
  {
    hide Combo;
    var t' := t[Index(n, c, d) := v];
    forall a: nat | a < cols && a % 2 == 0 ensures Entry(t', n, g, x, y, a, b) {
      Kept(t, n, g, x, y, a, b, Index(n, c, d), v);
    }
  }

  lemma KeepDoubles<T(!new)>(t: seq<T>, n: nat, g: Group<T>, x: T, y: T, c: nat, d: nat, v: T)
    requires Doubles(t, n, g, x, y) && Dimensions(n, |t|) && c < n && d < n && (c, d) != (2, 0) && (c, d) != (0, 2)
    requires (c, d) != (0, 1)
    ensures Index(n, c, d) < |t| && Doubles(t[Index(n, c, d) := v], n, g, x, y)
  {
    hide Combo;
  }

  /** The odd multiples of x. */
  method FillBase<T(!new)>(g: Group<T>, t: array<T>, n: nat, x: T, y: T)
    requires Dimensions(n, t.Length) && Doubles(t[..], n, g, x, y) && OddColumns(t[..], n, g, x, y, 2, 1)
    requires Laws(g)
    modifies t
    ensures Doubles(t[..], n, g, x, y) && OddColumns(t[..], n, g, x, y, n, 1)
  {
    hide Laws, Combo, Entry, OddColumns, Doubles;
    var i := 3;
    while i < n
      invariant 3 <= i <= n + 1 && i % 2 == 1 && Dimensions(n, t.Length)
      invariant Doubles(t[..], n, g, x, y) && OddColumns(t[..], n, g, x, y, i - 1, 1)
      decreases n - i
    {
      ghost var s, v := t[..], g.add(t[i - 2], t[2]);
      ColumnEntry(s, n, g, x, y, i - 2);
      Grow(s, n, g, x, y, i - 2, 0, 2, 0, s[2], s[i := v]);
      KeepColumns(s, n, g, x, y, i - 1, 1, i, 0, v);
      KeepDoubles(s, n, g, x, y, i, 0, v);
      t[i] := g.add(t[i - 2], t[2]);
      assert t[..] == s[i := v];
      MoreColumns(t[..], n, g, x, y, i, 1);
      i := i + 2;
    }
  }

  lemma ColumnEntry<T(!new)>(t: seq<T>, n: nat, g: Group<T>, x: T, y: T, a: nat)
    requires OddColumns(t, n, g, x, y, a + 1, 1) && Doubles(t, n, g, x, y) && a % 2 == 1 && Dimensions(n, |t|)
    ensures Entry(t, n, g, x, y, a, 0) && Index(n, a, 0) == a && t[2] == Combo(g, x, y, 2, 0)
    ensures t[2 * n] == Combo(g, x, y, 0, 2)
  {
    hide Combo;
  }

  lemma MoreColumns<T(!new)>(t: seq<T>, n: nat, g: Group<T>, x: T, y: T, a: nat, rows: nat)
    requires a % 2 == 1 && OddColumns(t, n, g, x, y, a - 1, rows) && Column(t, n, g, x, y, a, rows)
    ensures OddColumns(t, n, g, x, y, a + 1, rows)
  {
    hide Entry;
  }

  lemma FirstOfColumn<T(!new)>(t: seq<T>, n: nat, g: Group<T>, x: T, y: T, a: nat)
    requires OddColumns(t, n, g, x, y, n, 1) && a % 2 == 1 && a < n && Dimensions(n, |t|)
    ensures Column(t, n, g, x, y, a, 1)
  {
    hide Combo, Index;
  }

  lemma ColumnGrows<T(!new)>(t: seq<T>, n: nat, g: Group<T>, x: T, y: T, a: nat, rows: nat)
    requires Column(t, n, g, x, y, a, rows) && Entry(t, n, g, x, y, a, rows)
    ensures Column(t, n, g, x, y, a, rows + 1)
  {
    hide Entry;
    forall b: nat | b < rows + 1 ensures Entry(t, n, g, x, y, a, b) {
    }
  }

  lemma LastOfColumn<T(!new)>(t: seq<T>, n: nat, g: Group<T>, x: T, y: T, a: nat, rows: nat)
    requires Column(t, n, g, x, y, a, rows) && rows > 0
    ensures Entry(t, n, g, x, y, a, rows - 1)
  {
  }

  lemma RowIndex(n: nat, a: nat, b: nat)
    requires n == 4 || n == 8
    ensures Index(n, a, b) == b * n + a && Index(n, a, b + 1) == Index(n, a, b) + n
    ensures Index(n, a + 1, b) == Index(n, a, b) + 1
  {
  }

  /** Column a, upwards from its first entry. */
  method FillColumn<T(!new)>(g: Group<T>, t: array<T>, n: nat, x: T, y: T, a: nat)
    requires Dimensions(n, t.Length) && Doubles(t[..], n, g, x, y) && OddColumns(t[..], n, g, x, y, n, 1)
    requires a % 2 == 1 && a < n && OddColumns(t[..], n, g, x, y, a - 1, n)
    requires Laws(g)
    modifies t
    ensures Doubles(t[..], n, g, x, y) && OddColumns(t[..], n, g, x, y, n, 1) && OddColumns(t[..], n, g, x, y, a + 1, n)
  {
    hide Laws, Combo, Entry, OddColumns, Doubles, Column, Index;
    var j := a + n;
    ghost var row := 1;
    FirstOfColumn(t[..], n, g, x, y, a);
    RowIndex(n, a, 0);
    while j < n * n
      invariant 1 <= row <= n && Dimensions(n, t.Length) && j == Index(n, a, row) && (j < n * n <==> row < n)
      invariant Doubles(t[..], n, g, x, y) && OddColumns(t[..], n, g, x, y, n, 1)
      invariant OddColumns(t[..], n, g, x, y, a - 1, n)
      invariant Column(t[..], n, g, x, y, a, row)
      decreases n * n - j
    {
      ghost var s, v := t[..], g.add(t[j - n], y);
      LastOfColumn(s, n, g, x, y, a, row);
      RowIndex(n, a, row - 1);
      RowIndex(n, a, row);
      ComboUnits(g, x, y);
      GrowUp(s, n, g, x, y, a, row, s[j := v]);
      KeepColumns(s, n, g, x, y, n, 1, a, row, v);
      KeepColumns(s, n, g, x, y, a - 1, n, a, row, v);
      KeepColumn(s, n, g, x, y, a, row, a, row, v);
      KeepDoubles(s, n, g, x, y, a, row, v);
      t[j] := g.add(t[j - n], y);
      assert t[..] == s[j := v];
      ColumnGrows(t[..], n, g, x, y, a, row);
      j := j + n;
      row := row + 1;
      ColumnEnd(n, a, row);
    }
    MoreColumns(t[..], n, g, x, y, a, n);
  }

  lemma ColumnEnd(n: nat, a: nat, row: nat)
    requires (n == 4 || n == 8) && a < n && row <= n
    ensures Index(n, a, row) < n * n <==> row < n
  {
  }

  lemma GrowUp<T(!new)>(t: seq<T>, n: nat, g: Group<T>, x: T, y: T, a: nat, row: nat, t': seq<T>)
    requires Dimensions(n, |t|) && a < n && 1 <= row < n && Entry(t, n, g, x, y, a, row - 1)
    requires Index(n, a, row) < |t| && t' == t[Index(n, a, row) := g.add(t[Index(n, a, row - 1)], y)]
    requires Laws(g)
    ensures Entry(t', n, g, x, y, a, row)
  {
    hide Laws, Combo, Index;
    ComboUnits(g, x, y);
    Grow(t, n, g, x, y, a, row - 1, 0, 1, y, t');
  }

  lemma MoreRows<T(!new)>(t: seq<T>, n: nat, g: Group<T>, x: T, y: T, b: nat, cols: nat)
    requires b % 2 == 1 && OddRows(t, n, g, x, y, cols, b - 1) && EvenRow(t, n, g, x, y, b, cols)
    ensures OddRows(t, n, g, x, y, cols, b + 1)
  {
    hide Entry;
  }

  lemma RowEntry<T(!new)>(t: seq<T>, n: nat, g: Group<T>, x: T, y: T, b: nat)
    requires OddRows(t, n, g, x, y, 1, b + 1) && Doubles(t, n, g, x, y) && b % 2 == 1 && Dimensions(n, |t|)
    ensures Entry(t, n, g, x, y, 0, b) && t[2 * n] == Combo(g, x, y, 0, 2) && Index(n, 0, b) == b * n
  {
    hide Combo;
  }

  lemma SingleRow<T(!new)>(t: seq<T>, n: nat, g: Group<T>, x: T, y: T, b: nat)
    requires Entry(t, n, g, x, y, 0, b)
    ensures EvenRow(t, n, g, x, y, b, 1)
  {
    hide Entry;
  }

  lemma RowEnd(n: nat, b: nat)
    requires (n == 4 || n == 8) && b <= n + 1 && b % 2 == 1
    ensures b * n < n * n <==> b < n
    ensures (b + 2) * n == b * n + 2 * n
  {
  }

  /** The odd multiples of y. */
  method FillRowHeads<T(!new)>(g: Group<T>, t: array<T>, n: nat, x: T, y: T)
    requires Dimensions(n, t.Length) && Doubles(t[..], n, g, x, y) && OddColumns(t[..], n, g, x, y, n, n)
    requires OddRows(t[..], n, g, x, y, 1, 2)
    requires Laws(g)
    modifies t
    ensures OddColumns(t[..], n, g, x, y, n, n) && OddRows(t[..], n, g, x, y, 1, n)
  {
    hide Laws, Combo, Entry, OddColumns, OddRows, Doubles, Index;
    var i := 3 * n;
    ghost var row := 3;
    while i < n * n
      invariant 3 <= row <= n + 1 && row % 2 == 1 && i == row * n && Dimensions(n, t.Length)
      invariant Doubles(t[..], n, g, x, y) && OddColumns(t[..], n, g, x, y, n, n)
      invariant OddRows(t[..], n, g, x, y, 1, row - 1)
      decreases n * n - i
    {
      RowEnd(n, row);
      RowEnd(n, row - 2);
      ghost var s, v := t[..], g.add(t[i - 2 * n], t[2 * n]);
      RowEntry(s, n, g, x, y, row - 2);
      RowIndex(n, 0, row);
      Grow(s, n, g, x, y, 0, row - 2, 0, 2, s[2 * n], s[i := v]);
      KeepColumns(s, n, g, x, y, n, n, 0, row, v);
      KeepRows(s, n, g, x, y, 1, row - 1, 0, row, v);
      KeepDoubles(s, n, g, x, y, 0, row, v);
      t[i] := g.add(t[i - 2 * n], t[2 * n]);
      assert t[..] == s[i := v];
      SingleRow(t[..], n, g, x, y, row);
      MoreRows(t[..], n, g, x, y, row, 1);
      i := i + 2 * n;
      row := row + 2;
    }
    RowEnd(n, row);
    AllRows(t[..], n, g, x, y, 1, row - 1);
  }

  lemma AllRows<T(!new)>(t: seq<T>, n: nat, g: Group<T>, x: T, y: T, cols: nat, rows: nat)
    requires OddRows(t, n, g, x, y, cols, rows) && n <= rows
    ensures OddRows(t, n, g, x, y, cols, n)
  {
    hide Entry;
  }

  lemma LeftEntry<T(!new)>(t: seq<T>, n: nat, g: Group<T>, x: T, y: T, c: nat, b: nat)
    requires OddColumns(t, n, g, x, y, n, n) && c % 2 == 1 && c < n && b < n
    ensures Entry(t, n, g, x, y, c, b)
  {
    hide Combo;
  }

  lemma HeadOfRow<T(!new)>(t: seq<T>, n: nat, g: Group<T>, x: T, y: T, b: nat)
    requires OddRows(t, n, g, x, y, 1, n) && b % 2 == 1 && b < n
    ensures EvenRow(t, n, g, x, y, b, 2)
  {
    hide Combo;
    forall a: nat | a < 2 && a % 2 == 0 ensures Entry(t, n, g, x, y, a, b) {
    }
  }

  lemma EvenRowGrows<T(!new)>(t: seq<T>, n: nat, g: Group<T>, x: T, y: T, b: nat, c: nat)
    requires EvenRow(t, n, g, x, y, b, c) && c % 2 == 0 && Entry(t, n, g, x, y, c, b)
    ensures EvenRow(t, n, g, x, y, b, c + 2)
  {
    hide Entry;
    forall a: nat | a < c + 2 && a % 2 == 0 ensures Entry(t, n, g, x, y, a, b) {
    }
  }

  lemma GrowRight<T(!new)>(t: seq<T>, n: nat, g: Group<T>, x: T, y: T, c: nat, b: nat, t': seq<T>)
    requires Dimensions(n, |t|) && 1 <= c < n && b < n && Entry(t, n, g, x, y, c - 1, b)
    requires Index(n, c, b) < |t| && t' == t[Index(n, c, b) := g.add(t[Index(n, c - 1, b)], x)]
    requires Laws(g)
    ensures Entry(t', n, g, x, y, c, b)
  {
    hide Laws, Combo, Index;
    ComboUnits(g, x, y);
    Grow(t, n, g, x, y, c - 1, b, 1, 0, x, t');
  }

  /** The even powers of x in row b. */
  method FillRow<T(!new)>(g: Group<T>, t: array<T>, n: nat, x: T, y: T, i: nat, ghost b: nat)
    requires i == b * n
    requires Dimensions(n, t.Length) && OddColumns(t[..], n, g, x, y, n, n) && OddRows(t[..], n, g, x, y, 1, n)
    requires b % 2 == 1 && b < n && OddRows(t[..], n, g, x, y, n, b - 1)
    requires Laws(g)
    modifies t
    ensures OddColumns(t[..], n, g, x, y, n, n) && OddRows(t[..], n, g, x, y, 1, n)
    ensures OddRows(t[..], n, g, x, y, n, b + 1)
  {
    hide Laws, Combo, Entry, OddColumns, OddRows, EvenRow, Index;
    var j := i + 2;
    HeadOfRow(t[..], n, g, x, y, b);
    while j < i + n
      invariant i + 2 <= j <= i + n && (j - i) % 2 == 0 && Dimensions(n, t.Length) && i == b * n
      invariant OddColumns(t[..], n, g, x, y, n, n) && OddRows(t[..], n, g, x, y, 1, n)
      invariant OddRows(t[..], n, g, x, y, n, b - 1)
      invariant EvenRow(t[..], n, g, x, y, b, j - i)
      decreases i + n - j
    {
      ghost var s, v, c := t[..], g.add(t[j - 1], x), j - i;
      RowIndex(n, c, b);
      RowIndex(n, c - 1, b);
      LeftEntry(s, n, g, x, y, c - 1, b);
      GrowRight(s, n, g, x, y, c, b, s[j := v]);
      KeepColumns(s, n, g, x, y, n, n, c, b, v);
      KeepRows(s, n, g, x, y, 1, n, c, b, v);
      KeepRows(s, n, g, x, y, n, b - 1, c, b, v);
      KeepEvenRow(s, n, g, x, y, b, c, c, b, v);
      t[j] := g.add(t[j - 1], x);
      assert t[..] == s[j := v];
      EvenRowGrows(t[..], n, g, x, y, b, c);
      j := j + 2;
    }
    MoreRows(t[..], n, g, x, y, b, n);
  }

  /** The power table for windows of two or three bits. */
  method FillTable<T(!new)>(g: Group<T>, t: array<T>, n: nat, x: T, y: T)
    requires Dimensions(n, t.Length)
    requires Laws(g)
    modifies t
    ensures Table(t[..], n, g, x, y)
  {
    hide Laws, OddColumns, OddRows, Doubles, Table, Times;
    t[1] := x;
    t[n] := y;
    t[2] := g.add(x, x);
    t[2 * n] := g.add(y, y);
    Seeds(g, t[..], n, x, y);
    FillBase(g, t, n, x, y);
    var i := 1;
    NoColumns(t[..], n, g, x, y);
    while i < n
      invariant 1 <= i <= n + 1 && i % 2 == 1 && Doubles(t[..], n, g, x, y) && OddColumns(t[..], n, g, x, y, n, 1)
      invariant OddColumns(t[..], n, g, x, y, i - 1, n)
      decreases n - i
    {
      FillColumn(g, t, n, x, y, i);
      i := i + 2;
    }
    AllColumns(t[..], n, g, x, y, i - 1);
    FirstRow(t[..], n, g, x, y);
    FillRowHeads(g, t, n, x, y);
    i := n;
    ghost var row := 1;
    NoRows(t[..], n, g, x, y);
    while i < n * n
      invariant 1 <= row <= n + 1 && row % 2 == 1 && i == row * n
      invariant OddColumns(t[..], n, g, x, y, n, n) && OddRows(t[..], n, g, x, y, 1, n)
      invariant OddRows(t[..], n, g, x, y, n, row - 1)
      decreases n * n - i
    {
      RowEnd(n, row);
      FillRow(g, t, n, x, y, i, row);
      i := i + 2 * n;
      row := row + 2;
    }
    RowEnd(n, row);
    AllRows(t[..], n, g, x, y, n, row - 1);
    TableFull(t[..], n, g, x, y);
  }

  lemma Seeds<T(!new)>(g: Group<T>, t: seq<T>, n: nat, x: T, y: T)
    requires Dimensions(n, |t|) && t[1] == x && t[n] == y && t[2] == g.add(x, x) && t[2 * n] == g.add(y, y)
    requires Laws(g)
    ensures Doubles(t, n, g, x, y) && OddColumns(t, n, g, x, y, 2, 1)
  {
    hide Laws, Combo;
    ComboUnits(g, x, y);
    ComboAdd(g, x, y, 1, 0, 1, 0);
    ComboAdd(g, x, y, 0, 1, 0, 1);
  }

  lemma NoColumns<T(!new)>(t: seq<T>, n: nat, g: Group<T>, x: T, y: T)
    ensures OddColumns(t, n, g, x, y, 0, n)
  {
  }

  lemma AllColumns<T(!new)>(t: seq<T>, n: nat, g: Group<T>, x: T, y: T, cols: nat)
    requires OddColumns(t, n, g, x, y, cols, n) && n <= cols
    ensures OddColumns(t, n, g, x, y, n, n)
  {
    hide Entry;
  }

  lemma FirstRow<T(!new)>(t: seq<T>, n: nat, g: Group<T>, x: T, y: T)
    requires Doubles(t, n, g, x, y)
    ensures OddRows(t, n, g, x, y, 1, 2)
  {
    hide Combo, Index;
    forall a: nat, b: nat | a < 1 && b < 2 && a % 2 == 0 && b % 2 == 1 ensures Entry(t, n, g, x, y, a, b) {
      assert a == 0 && b == 1;
    }
  }

  lemma NoRows<T(!new)>(t: seq<T>, n: nat, g: Group<T>, x: T, y: T)
    ensures OddRows(t, n, g, x, y, n, 0)
  {
  }

  lemma TableFull<T(!new)>(t: seq<T>, n: nat, g: Group<T>, x: T, y: T)
    requires OddColumns(t, n, g, x, y, n, n) && OddRows(t, n, g, x, y, n, n)
    ensures Table(t, n, g, x, y)
  {
    hide Entry;
  }

  // ---------------------------------------------------------------- the multiplication

  /** The smallest window has three entries. */
  lemma SmallTable<T(!new)>(g: Group<T>, t: seq<T>, x: T, y: T)
    requires |t| == 4 && t[1] == x && t[2] == y && t[3] == g.add(x, y)
    requires Laws(g)
    ensures Table(t, 2, g, x, y)
  {
    hide Laws, Combo;
    ComboUnits(g, x, y);
    ComboAdd(g, x, y, 1, 0, 0, 1);
    forall a: nat, b: nat | a < 2 && b < 2 && (a % 2 == 1 || b % 2 == 1) ensures Entry(t, 2, g, x, y, a, b) {
      assert (a == 1 && b == 0) || (a == 0 && b == 1) || (a == 1 && b == 1);
    }
  }

  method MakeTable<T(!new)>(g: Group<T>, w: nat, n: nat, x: T, y: T) returns (t: array<T>)
    requires (w == 1 && n == 2) || (w == 2 && n == 4) || (w == 3 && n == 8)
    requires Laws(g)
    ensures fresh(t) && Table(t[..], n, g, x, y) && t.Length == n * n
  {
    hide Laws, Table, Times;
    t := new T[n * n](_ => g.zero);
    if w == 1 {
      t[1] := x;
      t[n] := y;
      t[3] := g.add(x, y);
      SmallTable(g, t[..], x, y);
    } else {
      FillTable(g, t, n, x, y);
    }
  }

  /** Doubling k times. */
  method DoubleTimes<T(!new)>(g: Group<T>, r0: T, k: nat, ghost x: T, ghost y: T, ghost a: nat, ghost b: nat)
    returns (r: T)
    requires r0 == Combo(g, x, y, a, b)
    requires Laws(g)
    ensures r == Combo(g, x, y, ShiftLeft(a, k), ShiftLeft(b, k))
  {
    hide Laws, Combo, ShiftLeft;
    r := r0;
    var left := k;
    ShiftZero(a);
    ShiftZero(b);
    while left > 0
      invariant 0 <= left <= k && r == Combo(g, x, y, ShiftLeft(a, k - left), ShiftLeft(b, k - left))
    {
      ComboAdd(g, x, y, ShiftLeft(a, k - left), ShiftLeft(b, k - left), ShiftLeft(a, k - left), ShiftLeft(b, k - left));
      ShiftNext(a, k - left);
      ShiftNext(b, k - left);
      r := g.add(r, r);
      left := left - 1;
    }
  }

  lemma ShiftZero(a: nat)
    ensures ShiftLeft(a, 0) == a
  {
    assert Pow2(0) == 1;
  }

  lemma ShiftNext(a: nat, k: nat)
    ensures ShiftLeft(a, k + 1) == ShiftLeft(a, k) + ShiftLeft(a, k)
  {
    DoubleProduct(Pow2(k), a);
  }

  lemma ShiftShift(a: nat, j: nat, k: nat)
    ensures ShiftLeft(ShiftLeft(a, j), k) == ShiftLeft(a, j + k)
  {
    Pow2Add(j, k);
    var p, q := Pow2(j), Pow2(k);
    assert q * (p * a) == (p * q) * a;
  }

  lemma ShiftSum(a: nat, b: nat, k: nat)
    ensures ShiftLeft(a + b, k) == ShiftLeft(a, k) + ShiftLeft(b, k)
  {
    var p := Pow2(k);
    assert p * (a + b) == p * a + p * b;
  }

  lemma HalvingStep(p: nat, q: nat, p0: nat, h: nat)
    requires p0 == ShiftLeft(p, h) && p % 2 == 0 && q == p / 2
    ensures p0 == ShiftLeft(q, h + 1)
  {
    ShiftNext(q, h);
    ShiftSum(q, q, h);
    assert q + q == p;
  }

  lemma RoomToHalve(p: nat, m: nat)
    requires p >= 2 && p % 2 == 0 && p < Pow2(m)
    ensures m >= 2 && p / 2 < Pow2(m - 1)
  {
    assert Pow2(0) == 1 && Pow2(1) == 2;
  }

  /** Common factors of two are taken out of both powers; there are fewer of them than bits were read. */
  method TakeOutTwos(p0: nat, q0: nat, m: nat) returns (p: nat, q: nat, squaresAfter: nat)
    requires p0 < Pow2(m) && q0 < Pow2(m)
    ensures p0 == ShiftLeft(p, squaresAfter) && q0 == ShiftLeft(q, squaresAfter) && p <= p0 && q <= q0
    ensures (p == 0 && q == 0) || p % 2 == 1 || q % 2 == 1
    ensures squaresAfter <= m && (p0 != 0 || q0 != 0 ==> squaresAfter + 1 <= m && (p != 0 || q != 0))
  {
    hide ShiftLeft, Pow2;
    p, q, squaresAfter := p0, q0, 0;
    ShiftZero(p0);
    ShiftZero(q0);
    NonZeroFits(p, q, m);
    while (p != 0 || q != 0) && p % 2 == 0 && q % 2 == 0
      invariant squaresAfter <= m && p0 == ShiftLeft(p, squaresAfter) && q0 == ShiftLeft(q, squaresAfter) && p <= p0
      invariant q <= q0
      invariant p < Pow2(m - squaresAfter) && q < Pow2(m - squaresAfter)
      invariant p0 != 0 || q0 != 0 ==> squaresAfter + 1 <= m && (p != 0 || q != 0)
      decreases p + q
    {
      HalvingFits(p, q, m - squaresAfter);
      HalvingStep(p, p / 2, p0, squaresAfter);
      HalvingStep(q, q / 2, q0, squaresAfter);
      p, q := p / 2, q / 2;
      squaresAfter := squaresAfter + 1;
    }
  }

  lemma NonZeroFits(p: nat, q: nat, m: nat)
    requires p < Pow2(m) && q < Pow2(m)
    ensures p != 0 || q != 0 ==> m >= 1
  {
    assert Pow2(0) == 1;
  }

  lemma HalvingFits(p: nat, q: nat, m: nat)
    requires p < Pow2(m) && q < Pow2(m) && p % 2 == 0 && q % 2 == 0 && (p != 0 || q != 0)
    ensures m >= 2 && p / 2 < Pow2(m - 1) && q / 2 < Pow2(m - 1)
  {
    if p != 0 {
      RoomToHalve(p, m);
    } else {
      RoomToHalve(q, m);
    }
    assert Pow2(m - 1) >= 1;
    if q != 0 {
      RoomToHalve(q, m);
    }
  }

  lemma TableLookup<T(!new)>(t: seq<T>, n: nat, g: Group<T>, x: T, y: T, p: nat, q: nat)
    requires Table(t, n, g, x, y) && p < n && q < n && (p % 2 == 1 || q % 2 == 1)
    ensures Index(n, p, q) < |t| && t[Index(n, p, q)] == Combo(g, x, y, p, q)
  {
    hide Combo, Index;
    assert Entry(t, n, g, x, y, p, q);
  }

  /** (a 2^s + p) 2^k is a 2^m + p 2^k. */
  lemma Assemble(a: nat, p: nat, p0: nat, s: nat, k: nat)
    requires p0 == ShiftLeft(p, k)
    ensures ShiftLeft(ShiftLeft(a, s) + p, k) == ShiftLeft(a, s + k) + p0
  {
    ShiftSum(ShiftLeft(a, s), p, k);
    ShiftShift(a, s, k);
  }

  lemma ShiftNothing(k: nat)
    ensures ShiftLeft(0, k) == 0
  {
  }

  /** Works the collected bits of both exponents into the result: with the squarings that belong before the
      table entry, whose number never goes below zero, and those that belong after it. */
  method Flush<T(!new)>(g: Group<T>, t: array<T>, n: nat, w: nat, result: T, firstTime: bool, power1: nat, power2: nat,
      distance: nat,
      ghost x: T, ghost y: T, ghost a: nat, ghost b: nat)
    returns (r: T)
    requires Table(t[..], n, g, x, y) && power1 < n && power2 < n
    requires firstTime ==> a == b == 0 && (power1 != 0 || power2 != 0)
    requires firstTime ==> power1 < Pow2(distance + 1) && power2 < Pow2(distance + 1)
    requires !firstTime ==> result == Combo(g, x, y, a, b) && power1 < Pow2(distance) && power2 < Pow2(distance)
    requires Laws(g)
    ensures r == Combo(g, x, y, ShiftLeft(a, distance) + power1, ShiftLeft(b, distance) + power2)
  {
    hide Laws, Table, Combo, ShiftLeft, Pow2, Index;
    var p, q, squaresAfter := TakeOutTwos(power1, power2, if firstTime then distance + 1 else distance);
    var squaresBefore := distance - squaresAfter;
    Assemble(a, p, power1, squaresBefore, squaresAfter);
    Assemble(b, q, power2, squaresBefore, squaresAfter);
    ghost var c, d := ShiftLeft(a, squaresBefore), ShiftLeft(b, squaresBefore);
    if p != 0 || q != 0 {
      TableLookup(t[..], n, g, x, y, p, q);
    }
    if firstTime {
      ShiftNothing(squaresBefore);
      r := t[Index(n, p, q)];
    } else {
      r := DoubleTimes(g, result, squaresBefore, x, y, a, b);
      if p != 0 || q != 0 {
        ComboAdd(g, x, y, c, d, p, q);
        r := g.add(r, t[Index(n, p, q)]);
      }
    }
    r := DoubleTimes(g, r, squaresAfter, x, y, c + p, d + q);
  }

  lemma {:induction false} TopBit(e: nat)
    requires e > 0
    ensures BitCount(e) >= 1 && Shr(e, BitCount(e) - 1) >= 1
  {
    if e >= 2 {
      TopBit(e / 2);
      assert BitCount(e) == 1 + BitCount(e / 2);
    } else {
      assert Shr(1, 0) == 1;
    }
  }

  lemma {:induction false} ShrAtLeast(e: nat, i: nat, j: nat)
    requires i <= j && Shr(e, j) >= 1
    ensures Shr(e, i) >= 1
    decreases j
  {
    if i < j {
      ShrNext(e, j - 1);
      ShrAtLeast(e, i, j - 1);
    }
  }

  /** One more bit of an exponent, below what has been worked in. */
  lemma BitIn(e: nat, i: nat, a: nat, k: nat, p: nat)
    requires Shr(e, i + 1) == ShiftLeft(a, k) + p && p < Pow2(k)
    ensures Shr(e, i) == ShiftLeft(a, k + 1) + (2 * p + Shr(e, i) % 2) && 2 * p + Shr(e, i) % 2 < Pow2(k + 1)
  {
    ShrNext(e, i);
    ShiftNext(a, k);
    hide Shr;
  }

  /** What the loop knows about one exponent before it reads bit i. */
  ghost predicate Progress(e: nat, i: nat, firstTime: bool, prev: nat, expLen: nat, p: nat) {
    if firstTime then i <= expLen && Shr(e, i) == p && p < Pow2(expLen - i)
    else i <= prev && Shr(e, i) == ShiftLeft(Shr(e, prev), prev - i) + p && p < Pow2(prev - i)
  }

  lemma ProgressBit(e: nat, i: nat, firstTime: bool, prev: nat, expLen: nat, p: nat)
    requires Progress(e, i + 1, firstTime, prev, expLen, p)
    ensures Progress(e, i, firstTime, prev, expLen, 2 * p + Shr(e, i) % 2)
  {
    hide Shr, ShiftLeft;
    if firstTime {
      ShiftNothing(expLen - i - 1);
      ShiftNothing(expLen - i);
      BitIn(e, i, 0, expLen - i - 1, p);
    } else {
      BitIn(e, i, Shr(e, prev), prev - i - 1, p);
    }
  }

  lemma ProgressStart(e: nat, expLen: nat)
    requires BitCount(e) <= expLen
    ensures Progress(e, expLen, true, if expLen == 0 then 0 else expLen - 1, expLen, 0)
  {
    Pow2Monotone(BitCount(e), expLen);
    Beyond(e, expLen, expLen);
    assert Pow2(0) == 1;
  }

  lemma ProgressFlushed(e: nat, i: nat, expLen: nat)
    ensures Progress(e, i, false, i, expLen, 0)
  {
    ShiftZero(Shr(e, i));
    assert Pow2(0) == 1;
  }

  /** AbstractGroup::CascadeScalarMultiply: e1 x + e2 y in every commutative group. */
  method CascadeScalarMultiply<T(!new)>(g: Group<T>, x: T, e1: nat, y: T, e2: nat) returns (result: T)
    requires Laws(g)
    ensures result == Combo(g, x, y, e1, e2)
  {
    hide Laws, Table, Combo, Progress, Times, Shr, ShiftLeft, Pow2, BitCount;
    var expLen := if BitCount(e1) >= BitCount(e2) then BitCount(e1) else BitCount(e2);
    if expLen == 0 {
      BitlessIsZero(e1);
      BitlessIsZero(e2);
      ComboUnits(g, x, y);
      return g.zero;
    }
    var w := if expLen <= 46 then 1 else if expLen <= 260 then 2 else 3;
    var n := if w == 1 then 2 else if w == 2 then 4 else 8;
    var t := MakeTable(g, w, n, x, y);
    result := g.zero;
    var power1, power2, prevPosition, firstTime := 0, 0, expLen - 1, true;
    var i := expLen - 1;
    ProgressStart(e1, expLen);
    ProgressStart(e2, expLen);
    LeadingBit(e1, e2, expLen);
    while i >= 0
      invariant -1 <= i < expLen && Table(t[..], n, g, x, y) && 0 <= prevPosition < expLen && 0 <= power1 && 0 <= power2
      invariant 2 * power1 < n && 2 * power2 < n
      invariant Progress(e1, i + 1, firstTime, prevPosition, expLen, power1)
      invariant Progress(e2, i + 1, firstTime, prevPosition, expLen, power2)
      invariant firstTime ==> prevPosition == expLen - 1 && i >= 0
      invariant !firstTime ==> i < prevPosition + 1
      invariant !firstTime ==> result == Combo(g, x, y, Shr(e1, prevPosition), Shr(e2, prevPosition))
      invariant i == -1 ==> prevPosition == 0
    {
      ProgressBit(e1, i, firstTime, prevPosition, expLen, power1);
      ProgressBit(e2, i, firstTime, prevPosition, expLen, power2);
      power1 := 2 * power1 + Shr(e1, i) % 2;
      power2 := 2 * power2 + Shr(e2, i) % 2;
      if i == 0 || 2 * power1 >= n || 2 * power2 >= n {
        ghost var a, b := FlushFacts(e1, e2, i, firstTime, prevPosition, expLen, power1, power2);
        result := Flush(g, t, n, w, result, firstTime, power1, power2, prevPosition - i, x, y, a, b);
        prevPosition, firstTime := i, false;
        power1, power2 := 0, 0;
        ProgressFlushed(e1, i, expLen);
        ProgressFlushed(e2, i, expLen);
      }
      i := i - 1;
    }
    ShrZero(e1);
    ShrZero(e2);
  }

  lemma BitlessIsZero(e: nat)
    requires BitCount(e) == 0
    ensures e == 0
  {
  }

  lemma LeadingBit(e1: nat, e2: nat, expLen: nat)
    requires expLen >= 1 && (expLen == BitCount(e1) || expLen == BitCount(e2))
    ensures forall i :: 0 <= i < expLen ==> Shr(e1, i) >= 1 || Shr(e2, i) >= 1
  {
    var e := if expLen == BitCount(e1) then e1 else e2;
    assert BitCount(0) == 0;
    TopBit(e);
    forall i | 0 <= i < expLen ensures Shr(e, i) >= 1 {
      ShrAtLeast(e, i, expLen - 1);
    }
  }

  /** The conditions for a flush at bit i, and what it amounts to. */
  lemma FlushFacts(e1: nat, e2: nat, i: nat, firstTime: bool, prev: nat, expLen: nat, p: nat, q: nat)
    returns (a: nat, b: nat)
    requires Progress(e1, i, firstTime, prev, expLen, p) && Progress(e2, i, firstTime, prev, expLen, q)
    requires i < expLen && (firstTime ==> prev == expLen - 1) && (Shr(e1, i) >= 1 || Shr(e2, i) >= 1)
    ensures i <= prev
    ensures firstTime ==> a == b == 0 && (p != 0 || q != 0) && p < Pow2(prev - i + 1) && q < Pow2(prev - i + 1)
    ensures !firstTime ==> a == Shr(e1, prev) && b == Shr(e2, prev) && p < Pow2(prev - i) && q < Pow2(prev - i)
    ensures ShiftLeft(a, prev - i) + p == Shr(e1, i) && ShiftLeft(b, prev - i) + q == Shr(e2, i)
  {
    hide Shr, ShiftLeft, Pow2;
    a, b := if firstTime then 0 else Shr(e1, prev), if firstTime then 0 else Shr(e2, prev);
    ShiftNothing(prev - i);
  }
}
