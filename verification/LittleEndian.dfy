/** Numbers as bytes, least significant first, and as machine words. */
module LittleEndian {
  import opened Words

  function Nibble(n: nat): bv4 {
    (n % 16) as bv4
  }

  function NibbleNumber(x: bv4): (r: nat)
    ensures r < 16
  {
    x as nat
  }

  lemma NibbleRoundTrip(n: nat)
    ensures NibbleNumber(Nibble(n)) == n % 16
  {
    NibbleValue(n % 16);
  }

  lemma NibbleValue(n: nat)
    requires n < 16
    ensures (n as bv4) as int == n
  {
  }

  function JoinNibbles(h: bv4, l: bv4): bv8 {
    ((h as bv8) << 4) | (l as bv8)
  }

  function HighNibble(x: bv8): bv4 {
    (x >> 4) as bv4
  }

  function LowNibble(x: bv8): bv4 {
    (x & 15) as bv4
  }

  lemma NibblesRoundTrip(h: bv4, l: bv4)
    ensures HighNibble(JoinNibbles(h, l)) == h && LowNibble(JoinNibbles(h, l)) == l
  {
  }

  /** n modulo 256, as a byte. */
  function ToByte(n: nat): bv8 {
    JoinNibbles(Nibble(n / 16), Nibble(n))
  }

  function OfByte(x: bv8): (r: nat)
    ensures r < 256
  {
    16 * NibbleNumber(HighNibble(x)) + NibbleNumber(LowNibble(x))
  }

  lemma TwoNibbles(n: nat)
    ensures 16 * (n / 16 % 16) + n % 16 == n % 256
  {
  }

  lemma ByteRoundTrip(n: nat)
    ensures OfByte(ToByte(n)) == n % 256
  {
    hide Nibble, NibbleNumber, JoinNibbles, HighNibble, LowNibble;
    NibblesRoundTrip(Nibble(n / 16), Nibble(n));
    NibbleRoundTrip(n / 16);
    NibbleRoundTrip(n);
    TwoNibbles(n);
  }

  /** The k low bytes of n. */
  function Bytes(n: nat, k: nat): (r: seq<bv8>)
    ensures |r| == k
  {
    if k == 0 then [] else [ToByte(n)] + Bytes(n / 256, k - 1)
  }

  function Number(s: seq<bv8>): nat {
    if s == [] then 0 else OfByte(s[0]) + 256 * Number(s[1..])
  }

  /** 256 to the power k. */
  function Range(k: nat): (r: nat)
    ensures r > 0
  {
    if k == 0 then 1 else 256 * Range(k - 1)
  }

  lemma {:induction false} NumberRoundTrip(n: nat, k: nat)
    requires n < Range(k)
    ensures Number(Bytes(n, k)) == n
  {
    hide ToByte, OfByte;
    if k > 0 {
      ByteRoundTrip(n);
      NumberRoundTrip(n / 256, k - 1);
      assert Bytes(n, k)[1..] == Bytes(n / 256, k - 1);
    }
  }

  /** Putting two halves together and taking them apart is what it is for numbers. */
  lemma ByteValue(x: bv8)
    ensures OfByte(x) == x as int
  {
  }

  lemma Digit(n: nat, r: nat)
    requires r > 0
    ensures n / 256 / r == n / (256 * r)
  {
    var q := n / 256 / r;
    var a, b := n / 256 % r, n % 256;
    assert n == 256 * (r * q + a) + b;
    assert n == 256 * r * q + (256 * a + b);
    Quotient(n, 256 * r, q, 256 * a + b);
  }

  lemma Quotient(n: nat, d: nat, q: nat, r: nat)
    requires d > 0 && n == d * q + r && r < d
    ensures n / d == q
  {
    var e := n / d - q;
    assert d * e == r - n % d;
    Whole(d, e);
  }

  lemma Whole(d: int, e: int)
    requires d > 0
    ensures (e >= 1 ==> d * e >= d) && (e <= -1 ==> d * e <= -d)
  {
  }

  lemma LowDigit(b: nat, m: nat)
    requires b < 256
    ensures (b + 256 * m) % 256 == b && (b + 256 * m) / 256 == m
  {
  }

  /** Byte i of a number is its digit of weight 256 to the power i. */
  lemma {:induction false} BytesAt(n: nat, k: nat, i: nat)
    requires i < k
    ensures Bytes(n, k)[i] as int == n / Range(i) % 256
  {
    hide ToByte, OfByte;
    if i == 0 {
      ByteRoundTrip(n);
      ByteValue(ToByte(n));
    } else {
      BytesAt(n / 256, k - 1, i - 1);
      Digit(n, Range(i - 1));
    }
  }

  /** And the number has the bytes as its digits. */
  lemma {:induction false} NumberAt(s: seq<bv8>, i: nat)
    requires i < |s|
    ensures Number(s) / Range(i) % 256 == s[i] as int
  {
    hide OfByte;
    ByteValue(s[0]);
    LowDigit(OfByte(s[0]), Number(s[1..]));
    hide Number;
    if i > 0 {
      NumberAt(s[1..], i - 1);
      Digit(Number(s), Range(i - 1));
    }
  }

  lemma {:induction false} NumberBound(s: seq<bv8>)
    ensures Number(s) < Range(|s|)
  {
    hide OfByte;
    if s != [] {
      NumberBound(s[1..]);
    }
  }

  // A 64-bit word and its bytes.

  function HighBytes(v: bv64): bv64 {
    v >> 8
  }

  function Pushed(v: bv64, x: bv8): bv64 {
    (v << 8) | (x as bv64)
  }

  function Joined(s: seq<bv8>): bv64 {
    if s == [] then 0 else Pushed(Joined(s[1..]), s[0])
  }

  function Split(v: bv64, k: nat): (r: seq<bv8>)
    ensures |r| == k
  {
    if k == 0 then [] else [LowByte(v)] + Split(HighBytes(v), k - 1)
  }

  /** v has at most n bytes. */
  predicate BytesFit(v: bv64, n: nat) {
    if n == 0 then v == 0 else BytesFit(HighBytes(v), n - 1)
  }

  lemma {:induction false} BytesFitMore(v: bv64, n: nat, m: nat)
    requires BytesFit(v, n) && n <= m
    ensures BytesFit(v, m)
  {
    if n > 0 {
      BytesFitMore(HighBytes(v), n - 1, m - 1);
    } else if m > 0 {
      assert HighBytes(0) == 0;
      BytesFitMore(HighBytes(v), 0, m - 1);
    }
  }

  ghost predicate TopByteClear(v: bv64) {
    v >> 56 == 0
  }

  lemma SevenFit(v: bv64)
    requires BytesFit(v, 7)
    ensures TopByteClear(v)
  {
    hide HighBytes;
    var x := HighBytes(HighBytes(HighBytes(v)));
    assert BytesFit(HighBytes(v), 6);
    assert BytesFit(HighBytes(HighBytes(v)), 5);
    assert BytesFit(x, 4);
    FourFit(x);
    ThreeDown(v);
  }

  lemma ThreeDown(v: bv64)
    ensures HighBytes(HighBytes(HighBytes(v))) >> 32 == v >> 56
  {
  }

  lemma FourFit(v: bv64)
    requires BytesFit(v, 4)
    ensures v >> 32 == 0
  {
    hide HighBytes;
    var a := HighBytes(v);
    var b := HighBytes(a);
    var c := HighBytes(b);
    assert BytesFit(a, 3);
    assert BytesFit(b, 2);
    assert BytesFit(c, 1);
    assert BytesFit(HighBytes(c), 0);
    FourDown(v);
  }

  lemma FourDown(v: bv64)
    ensures HighBytes(HighBytes(HighBytes(HighBytes(v)))) == v >> 32
  {
  }

  lemma PushedParts(v: bv64, x: bv8)
    requires TopByteClear(v)
    ensures LowByte(Pushed(v, x)) == x && HighBytes(Pushed(v, x)) == v
  {
  }

  lemma {:induction false} SplitJoined(s: seq<bv8>)
    requires |s| <= 8
    ensures Split(Joined(s), |s|) == s && BytesFit(Joined(s), |s|)
  {
    hide LowByte, HighBytes, Pushed, TopByteClear;
    if s != [] {
      var v := Joined(s[1..]);
      SplitJoined(s[1..]);
      BytesFitMore(v, |s| - 1, 7);
      SevenFit(v);
      PushedParts(v, s[0]);
    }
  }

  const WORD64: nat := 0x1_0000_0000_0000_0000

  function ToWord(n: nat): bv64 {
    Joined(Bytes(n, 8))
  }

  function OfWord(v: bv64): nat {
    Number(Split(v, 8))
  }

  lemma WordRoundTrip(n: nat)
    requires n < WORD64
    ensures OfWord(ToWord(n)) == n
  {
    hide Joined, Split, Bytes, Number;
    assert Range(4) == 0x1_0000_0000 && Range(8) == WORD64;
    SplitJoined(Bytes(n, 8));
    NumberRoundTrip(n, 8);
  }
}
