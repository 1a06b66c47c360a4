/** Typed messages: fields appended to a byte vector, and read back one by one. */
module Messages {
  import opened LittleEndian
  import Varint

  const MAX_STRING: nat := 10 * 1024 * 1024
  const MAX_MESSAGE: nat := 100 * 1024 * 1024

  datatype Field =
    | Int(int32: int)
    | UInt(uint32: nat)
    | Int64(int64: int)
    | UShort(uint16: nat)
    | Char(byte: bv8)
    | VarInt(varint: int)
    | Str(text: seq<bv8>)
    | Str2(text2: seq<bv8>)

  datatype Kind = AnInt | AUInt | AnInt64 | AUShort | AChar | AVarInt | AStr | AStr2

  function KindOf(f: Field): Kind {
    match f
    case Int(_) => AnInt
    case UInt(_) => AUInt
    case Int64(_) => AnInt64
    case UShort(_) => AUShort
    case Char(_) => AChar
    case VarInt(_) => AVarInt
    case Str(_) => AStr
    case Str2(_) => AStr2
  }

  // ---------------------------------------------------------------- numbers

  function Half(k: nat): nat {
    Range(k) / 2
  }

  predicate Fits(i: int, k: nat) {
    0 <= i + Half(k) && i < Half(k)
  }

  /** Two's complement in k bytes. */
  function Unsigned(i: int, k: nat): (r: nat)
    requires Fits(i, k)
    ensures r < Range(k)
  {
    if i < 0 then i + Range(k) else i
  }

  function Signed(n: nat, k: nat): int {
    if n >= Half(k) then n - Range(k) else n
  }

  lemma SignedRoundTrip(i: int, k: nat)
    requires Fits(i, k) && k > 0
    ensures Signed(Unsigned(i, k), k) == i
  {
    assert Range(k) == 2 * Half(k);
  }

  /** What the types of the add methods' parameters say. */
  predicate InRange(f: Field) {
    match f
    case Int(i) => Fits(i, 4)
    case UInt(n) => n < Range(4)
    case Int64(i) => Fits(i, 8)
    case UShort(n) => n < Range(2)
    case Char(_) => true
    case VarInt(i) => Fits(i, 8)
    case Str(s) => |s| < WORD64
    case Str2(s) => |s| < WORD64
  }

  lemma Ranges()
    ensures Range(1) == 256 && Range(2) == 0x1_0000 && Range(4) == 0x1_0000_0000 && Range(8) == WORD64
  {
    assert Range(4) == 256 * 256 * Range(2);
    assert Range(6) == 256 * 256 * Range(4);
  }

  // ---------------------------------------------------------------- what is written

  function VarBytes(n: nat): seq<bv8> {
    Varint.Encoded(ToWord(n))
  }

  /** The bytes of a field. The length of a string is cut to 32 bits in the older format. */
  function Image(f: Field): seq<bv8>
    requires InRange(f)
  {
    match f
    case Int(i) => Bytes(Unsigned(i, 4), 4)
    case UInt(n) => Bytes(n, 4)
    case Int64(i) => Bytes(Unsigned(i, 8), 8)
    case UShort(n) => Bytes(n, 2)
    case Char(c) => [c]
    case VarInt(i) => VarBytes(Unsigned(i, 8))
    case Str(s) => Bytes(|s| % 0x1_0000_0000, 4) + s
    case Str2(s) => VarBytes(|s|) + s
  }

  function Written(fs: seq<Field>): seq<bv8>
    requires forall i :: 0 <= i < |fs| ==> InRange(fs[i])
  {
    if fs == [] then [] else Image(fs[0]) + Written(fs[1..])
  }

  // ---------------------------------------------------------------- what is read

  datatype Got = Ok(value: Field, pos: nat) | Failed(pos: nat)

  /** The length of the variable-length number at the start of p, 0 if it is not all there. */
  ghost function VarSize(p: seq<bv8>): nat {
    if exists n: nat :: Varint.Ends(p, |p|, n) then var n: nat :| Varint.Ends(p, |p|, n); n else 0
  }

  ghost function VarValue(p: seq<bv8>): nat {
    var n := VarSize(p);
    if n == 0 then 0 else OfWord(Varint.Value(p, n))
  }

  ghost function GetVar(data: seq<bv8>, pos: nat): (r: Got)
    requires pos <= |data|
  {
    var p := data[pos..];
    if VarSize(p) == 0 then Failed(pos) else Ok(VarInt(Signed(VarValue(p), 8)), pos + VarSize(p))
  }

  ghost function GetStr(data: seq<bv8>, pos: nat): (r: Got)
    requires pos <= |data|
  {
    if pos + 4 > |data| then Failed(pos) else
      var length := Number(data[pos..pos + 4]);
      if length > MAX_STRING || pos + 4 + length > |data| then Failed(pos + 4)
      else Ok(Str(data[pos + 4..pos + 4 + length]), pos + 4 + length)
  }

  /** A length is a signed number here: one that reads as negative is not refused as too long, and moves the
      position by its 64-bit value. */
  ghost function GetStr2(data: seq<bv8>, pos: nat): (r: Got)
    requires pos <= |data|
  {
    var p := data[pos..];
    var start, length := pos + VarSize(p), VarValue(p);
    var end := (start + length) % WORD64;
    if VarSize(p) == 0 then Failed(pos)
    else if Signed(length, 8) > MAX_STRING || end > |data| then Failed(start)
    else if Signed(length, 8) > 0 && start <= end then Ok(Str2(data[start..end]), end)
    else Ok(Str2([]), end)
  }

  /** What the get method for a kind of field does at a position. */
  ghost function Get(kind: Kind, data: seq<bv8>, pos: nat): (r: Got)
    requires pos <= |data|
  {
    match kind
    case AnInt => if pos + 4 > |data| then Failed(pos) else Ok(Int(Signed(Number(data[pos..pos + 4]), 4)), pos + 4)
    case AUInt => if pos + 4 > |data| then Failed(pos) else Ok(UInt(Number(data[pos..pos + 4])), pos + 4)
    case AnInt64 => if pos + 8 > |data| then Failed(pos) else Ok(Int64(Signed(Number(data[pos..pos + 8]), 8)), pos + 8)
    case AUShort => if pos + 2 > |data| then Failed(pos) else Ok(UShort(Number(data[pos..pos + 2])), pos + 2)
    case AChar => if pos + 1 > |data| then Failed(pos) else Ok(Char(data[pos]), pos + 1)
    case AVarInt => GetVar(data, pos)
    case AStr => GetStr(data, pos)
    case AStr2 => GetStr2(data, pos)
  }

  datatype Outcome = Outcome(values: seq<Field>, ok: bool, pos: nat)

  /** Get after get, until one fails. */
  ghost function ReadAll(kinds: seq<Kind>, data: seq<bv8>, pos: nat): (r: Outcome)
    requires pos <= |data|
    decreases |kinds|
  {
    if kinds == [] then Outcome([], true, pos) else
      match Get(kinds[0], data, pos)
      case Failed(p) => Outcome([], false, p)
      case Ok(v, p) =>
        if p > |data| then Outcome([], false, p) else
          var rest := ReadAll(kinds[1..], data, p);
          Outcome([v] + rest.values, rest.ok, rest.pos)
  }

  // ---------------------------------------------------------------- round trip

  /** A string the reader accepts. */
  predicate Readable(f: Field) {
    && InRange(f)
    && (f.Str? ==> |f.text| <= MAX_STRING)
    && (f.Str2? ==> |f.text2| <= MAX_STRING)
  }

  lemma VarReads(n: nat, p: seq<bv8>)
    requires n < WORD64 && |VarBytes(n)| <= |p| && p[..|VarBytes(n)|] == VarBytes(n)
    ensures VarSize(p) == |VarBytes(n)| > 0 && VarValue(p) == n
  {
    hide Varint.Encoded, Varint.Value, ToWord, OfWord, Varint.Ends;
    var v := ToWord(n);
    Varint.EncodedLength(v);
    Varint.RoundTrip(v, p, |p|);
    Varint.OneReading(p, |p|, VarSize(p), |p|, |VarBytes(n)|);
    WordRoundTrip(n);
  }

  lemma VarFails(n: nat, p: seq<bv8>)
    requires |p| < |VarBytes(n)| && p == VarBytes(n)[..|p|]
    ensures VarSize(p) == 0
  {
    hide Varint.Encoded, Varint.Ends;
    if n': nat :| Varint.Ends(p, |p|, n') {
      Varint.TruncatedFails(ToWord(n), p, |p|, n');
      assert false;
    }
  }

  /** A field is read back wherever its bytes stand. */
  lemma FieldRoundTrip(f: Field, data: seq<bv8>, pos: nat)
    requires Readable(f) && pos + |Image(f)| <= |data| <= MAX_MESSAGE && data[pos..pos + |Image(f)|] == Image(f)
    ensures Get(KindOf(f), data, pos) == Ok(f, pos + |Image(f)|)
  {
    hide VarBytes, VarSize, VarValue, Bytes, Number;
    Ranges();
    match f {
      case Int(i) =>
        SignedRoundTrip(i, 4);
        NumberRoundTrip(Unsigned(i, 4), 4);
      case UInt(n) =>
        NumberRoundTrip(n, 4);
      case Int64(i) =>
        SignedRoundTrip(i, 8);
        NumberRoundTrip(Unsigned(i, 8), 8);
      case UShort(n) =>
        NumberRoundTrip(n, 2);
      case Char(c) =>
        assert data[pos..pos + 1] == [c];
      case VarInt(i) =>
        SignedRoundTrip(i, 8);
        PartOfData(data, pos, |Image(f)|);
        VarReads(Unsigned(i, 8), data[pos..]);
      case Str(s) =>
        StrRoundTrip(s, data, pos);
      case Str2(s) =>
        Str2RoundTrip(s, data, pos);
    }
  }

  lemma PartOfData(data: seq<bv8>, pos: nat, n: nat)
    requires pos + n <= |data|
    ensures data[pos..][..n] == data[pos..pos + n]
  {
  }

  lemma StrRoundTrip(s: seq<bv8>, data: seq<bv8>, pos: nat)
    requires |s| <= MAX_STRING && pos + 4 + |s| <= |data| && data[pos..pos + 4 + |s|] == Bytes(|s|, 4) + s
    ensures GetStr(data, pos) == Ok(Str(s), pos + 4 + |s|)
  {
    hide Bytes, Number, Range;
    Ranges();
    NumberRoundTrip(|s|, 4);
    TwoParts(data, pos, Bytes(|s|, 4), s);
  }

  lemma TwoParts(data: seq<bv8>, pos: nat, a: seq<bv8>, b: seq<bv8>)
    requires pos + |a| + |b| <= |data| && data[pos..pos + |a| + |b|] == a + b
    ensures data[pos..pos + |a|] == a && data[pos + |a|..pos + |a| + |b|] == b
  {
    var whole := data[pos..pos + |a| + |b|];
    assert whole[..|a|] == a && whole[|a|..] == b;
    assert data[pos..pos + |a|] == whole[..|a|] && data[pos + |a|..pos + |a| + |b|] == whole[|a|..];
  }

  lemma Str2RoundTrip(s: seq<bv8>, data: seq<bv8>, pos: nat)
    requires |s| <= MAX_STRING
    requires pos + |VarBytes(|s|)| + |s| <= |data| <= MAX_MESSAGE
    requires data[pos..pos + |VarBytes(|s|)| + |s|] == VarBytes(|s|) + s
    ensures GetStr2(data, pos) == Ok(Str2(s), pos + |VarBytes(|s|)| + |s|)
  {
    hide VarBytes, VarSize, VarValue, Range;
    Ranges();
    var n := |VarBytes(|s|)|;
    assert data[pos..][..n] == data[pos..pos + n + |s|][..n] == VarBytes(|s|);
    VarReads(|s|, data[pos..]);
    assert data[pos + n..pos + n + |s|] == data[pos..pos + n + |s|][n..] == s;
  }

  /** A field that is not all there is not read. */
  lemma FieldTruncated(f: Field, data: seq<bv8>, pos: nat)
    requires Readable(f) && pos <= |data| < pos + |Image(f)| && |data| <= MAX_MESSAGE
    requires data[pos..] == Image(f)[..|data| - pos]
    ensures Get(KindOf(f), data, pos).Failed?
  {
    hide VarBytes, VarSize, VarValue, Bytes, Number;
    match f {
      case Int(_) =>
      case UInt(_) =>
      case Int64(_) =>
      case UShort(_) =>
      case Char(_) =>
      case VarInt(i) =>
        VarFails(Unsigned(i, 8), data[pos..]);
      case Str(s) =>
        StrTruncated(s, data, pos);
      case Str2(s) =>
        Str2Truncated(s, data, pos);
    }
  }

  lemma StrTruncated(s: seq<bv8>, data: seq<bv8>, pos: nat)
    requires |s| <= MAX_STRING && pos <= |data| < pos + 4 + |s| && data[pos..] == (Bytes(|s|, 4) + s)[..|data| - pos]
    ensures GetStr(data, pos).Failed?
  {
    hide Bytes, Number, Range;
    if pos + 4 <= |data| {
      Ranges();
      NumberRoundTrip(|s|, 4);
      assert data[pos..pos + 4] == data[pos..][..4] == Bytes(|s|, 4);
    }
  }

  lemma Str2Truncated(s: seq<bv8>, data: seq<bv8>, pos: nat)
    requires |s| <= MAX_STRING && pos <= |data| < pos + |VarBytes(|s|)| + |s| && |data| <= MAX_MESSAGE
    requires data[pos..] == (VarBytes(|s|) + s)[..|data| - pos]
    ensures GetStr2(data, pos).Failed?
  {
    hide VarBytes, VarSize, VarValue, Range;
    Ranges();
    var n := |VarBytes(|s|)|;
    if pos + n <= |data| {
      assert data[pos..][..n] == VarBytes(|s|);
      VarReads(|s|, data[pos..]);
    } else {
      assert data[pos..] == VarBytes(|s|)[..|data| - pos];
      VarFails(|s|, data[pos..]);
    }
  }

  ghost predicate AllReadable(fs: seq<Field>) {
    forall i :: 0 <= i < |fs| ==> Readable(fs[i])
  }

  function Kinds(fs: seq<Field>): (r: seq<Kind>)
    ensures |r| == |fs|
  {
    if fs == [] then [] else [KindOf(fs[0])] + Kinds(fs[1..])
  }

  lemma TakeFirst(data: seq<bv8>, pos: nat, a: seq<bv8>, b: seq<bv8>)
    requires pos <= |data| && data[pos..] == a + b
    ensures pos + |a| <= |data| && data[pos..pos + |a|] == a && data[pos + |a|..] == b
  {
    assert data[pos..pos + |a|] == data[pos..][..|a|];
    assert data[pos + |a|..] == data[pos..][|a|..];
  }

  /** Whatever fields are written, reading the same kinds in the same order gives them back and uses up every byte. */
  lemma {:induction false} MessageRoundTrip(fs: seq<Field>, data: seq<bv8>, pos: nat)
    requires AllReadable(fs) && pos <= |data| <= MAX_MESSAGE && data[pos..] == Written(fs)
    ensures ReadAll(Kinds(fs), data, pos) == Outcome(fs, true, |data|)
  {
    hide Image, Get, Readable, InRange;
    if fs != [] {
      ReadableInRange(fs);
      assert Readable(fs[0]) by { assert AllReadable(fs); }
      TakeFirst(data, pos, Image(fs[0]), Written(fs[1..]));
      FieldRoundTrip(fs[0], data, pos);
      MessageRoundTrip(fs[1..], data, pos + |Image(fs[0])|);
      assert Kinds(fs)[1..] == Kinds(fs[1..]) && fs == [fs[0]] + fs[1..];
    }
  }

  lemma ReadableInRange(fs: seq<Field>)
    requires AllReadable(fs)
    ensures forall i :: 0 <= i < |fs| ==> InRange(fs[i])
  {
  }

  /** The first k fields are all there in m bytes, the next one is not. */
  ghost predicate WhollyPresent(fs: seq<Field>, k: nat, m: int)
    requires forall i :: 0 <= i < |fs| ==> InRange(fs[i])
  {
    k < |fs| && |Written(fs[..k])| <= m < |Written(fs[..k + 1])|
  }

  /** Of a message cut short, the fields that are wholly present are read, and the get of the next one fails. */
  lemma {:induction false} MessageTruncated(fs: seq<Field>, data: seq<bv8>, pos: nat)
    requires AllReadable(fs) && pos <= |data| <= MAX_MESSAGE
    requires |data| - pos < |Written(fs)| && data[pos..] == Written(fs)[..|data| - pos]
    ensures var r := ReadAll(Kinds(fs), data, pos);
      !r.ok && |r.values| < |fs| && r.values == fs[..|r.values|] && WhollyPresent(fs, |r.values|, |data| - pos)
  {
    hide Image, Get, Readable, InRange;
    ReadableInRange(fs);
    var n := |Image(fs[0])|;
    assert Readable(fs[0]) by { assert AllReadable(fs); }
    var m := |data| - pos;
    WrittenStep(fs, 0);
    if m < n {
      assert data[pos..] == Image(fs[0])[..m];
      FieldTruncated(fs[0], data, pos);
      assert fs[..0] == [];
    } else {
      assert data[pos..] == Image(fs[0]) + Written(fs[1..])[..m - n];
      TakeFirst(data, pos, Image(fs[0]), Written(fs[1..])[..m - n]);
      FieldRoundTrip(fs[0], data, pos);
      MessageTruncated(fs[1..], data, pos + n);
      assert Kinds(fs)[1..] == Kinds(fs[1..]);
      PresentStep(fs, |ReadAll(Kinds(fs[1..]), data, pos + n).values|, m - n);
    }
  }

  lemma PresentStep(fs: seq<Field>, k: nat, m: int)
    requires fs != [] && (forall i :: 0 <= i < |fs| ==> InRange(fs[i])) && WhollyPresent(fs[1..], k, m)
    ensures WhollyPresent(fs, k + 1, m + |Image(fs[0])|) && [fs[0]] + fs[1..][..k] == fs[..k + 1]
  {
    hide Image, InRange;
    WrittenStep(fs, k);
    WrittenStep(fs, k + 1);
  }

  lemma WrittenStep(fs: seq<Field>, k: nat)
    requires fs != [] && k < |fs| && forall i :: 0 <= i < |fs| ==> InRange(fs[i])
    ensures |Written(fs[..k + 1])| == |Image(fs[0])| + |Written(fs[1..][..k])|
  {
    hide Image;
    assert fs[..k + 1][1..] == fs[1..][..k];
  }

  // ---------------------------------------------------------------- the writer

  class Writer {
    var data: seq<bv8>

    constructor ()
      ensures data == []
    {
      data := [];
    }

    method AddInt(i: int)
      requires InRange(Int(i))
      modifies this
      ensures data == old(data) + Image(Int(i))
    {
      data := data + Bytes(Unsigned(i, 4), 4);
    }

    method AddUInt(n: nat)
      requires InRange(UInt(n))
      modifies this
      ensures data == old(data) + Image(UInt(n))
    {
      data := data + Bytes(n, 4);
    }

    method AddInt64(i: int)
      requires InRange(Int64(i))
      modifies this
      ensures data == old(data) + Image(Int64(i))
    {
      data := data + Bytes(Unsigned(i, 8), 8);
    }

    method AddUShort(n: nat)
      requires InRange(UShort(n))
      modifies this
      ensures data == old(data) + Image(UShort(n))
    {
      data := data + Bytes(n, 2);
    }

    method AddChar(c: bv8)
      modifies this
      ensures data == old(data) + Image(Char(c))
    {
      data := data + [c];
    }

    /** The vector grows by as many bytes as the length function says, and the number is written there. */
    method AddVar(v: bv64)
      modifies this
      ensures data == old(data) + Varint.Encoded(v)
    {
      var needed := Varint.VarintLen(v);
      var room := new bv8[needed];
      var p := Varint.PutVarint(room, v);
      assert p == needed;
      assert room[..p] == room[..];
      data := data + room[..];
    }

    method AddVarInt(i: int)
      requires InRange(VarInt(i))
      modifies this
      ensures data == old(data) + Image(VarInt(i))
    {
      AddVar(ToWord(Unsigned(i, 8)));
    }

    method AddString(s: seq<bv8>)
      requires InRange(Str(s))
      modifies this
      ensures data == old(data) + Image(Str(s))
    {
      Ranges();
      AddUInt(|s| % 0x1_0000_0000);
      if s != [] {
        data := data + s;
      }
    }

    method AddString2(s: seq<bv8>)
      requires InRange(Str2(s))
      modifies this
      ensures data == old(data) + Image(Str2(s))
    {
      hide Varint.Encoded, ToWord;
      AddVar(ToWord(|s|));
      if s != [] {
        data := data + s;
      }
    }
  }

  // ---------------------------------------------------------------- the reader

  class Reader {
    const data: seq<bv8>
    var streampos: nat

    ghost predicate Valid()
      reads this
    {
      |data| <= MAX_MESSAGE && streampos <= |data|
    }

    /** At most 100 MiB are looked at. */
    constructor (message: seq<bv8>)
      ensures Valid() && streampos == 0
      ensures data == if |message| <= MAX_MESSAGE then message else message[..MAX_MESSAGE]
    {
      data := if |message| <= MAX_MESSAGE then message else message[..MAX_MESSAGE];
      streampos := 0;
    }

    function GetLeft(): (r: nat)
      requires Valid()
      reads this
      ensures r == 0 <==> streampos == |data|
    {
      |data| - streampos
    }

    /** The state after get, and the result, are those of the specification. */
    twostate predicate Did(kind: Kind, ok: bool, value: Field)
      requires old(Valid())
      reads this
    {
      && Valid() && streampos == Get(kind, data, old(streampos)).pos
      && ok == Get(kind, data, old(streampos)).Ok? && (ok ==> value == Get(kind, data, old(streampos)).value)
    }

    method GetInt() returns (ok: bool, value: int)
      requires Valid()
      modifies this
      ensures Did(AnInt, ok, Int(value))
    {
      ok, value := false, 0;
      if streampos + 4 > |data| {
        return;
      }
      value := Signed(Number(data[streampos..streampos + 4]), 4);
      streampos := streampos + 4;
      ok := true;
    }

    method GetUInt() returns (ok: bool, value: nat)
      requires Valid()
      modifies this
      ensures Did(AUInt, ok, UInt(value))
    {
      ok, value := false, 0;
      if streampos + 4 > |data| {
        return;
      }
      value := Number(data[streampos..streampos + 4]);
      streampos := streampos + 4;
      ok := true;
    }

    method GetInt64() returns (ok: bool, value: int)
      requires Valid()
      modifies this
      ensures Did(AnInt64, ok, Int64(value))
    {
      ok, value := false, 0;
      if streampos + 8 > |data| {
        return;
      }
      value := Signed(Number(data[streampos..streampos + 8]), 8);
      streampos := streampos + 8;
      ok := true;
    }

    method GetUShort() returns (ok: bool, value: nat)
      requires Valid()
      modifies this
      ensures Did(AUShort, ok, UShort(value))
    {
      ok, value := false, 0;
      if streampos + 2 > |data| {
        return;
      }
      value := Number(data[streampos..streampos + 2]);
      streampos := streampos + 2;
      ok := true;
    }

    method GetChar() returns (ok: bool, value: bv8)
      requires Valid()
      modifies this
      ensures Did(AChar, ok, Char(value))
    {
      ok, value := false, 0;
      if streampos + 1 > |data| {
        return;
      }
      value := data[streampos];
      streampos := streampos + 1;
      ok := true;
    }

    method GetVarInt() returns (ok: bool, value: int)
      requires Valid()
      modifies this
      ensures Did(AVarInt, ok, VarInt(value))
    {
      hide Varint.Ends, Varint.Value, OfWord, VarSize, VarValue;
      var p := data[streampos..];
      var n, v := Varint.GetVarint(p, GetLeft());
      VarOf(p, n, v);
      ok, value := n != 0, Signed(OfWord(v), 8);
      streampos := streampos + n;
    }

    method GetString() returns (ok: bool, value: seq<bv8>)
      requires Valid()
      modifies this
      ensures Did(AStr, ok, Str(value))
    {
      hide Number;
      value := [];
      var length: nat;
      ok, length := GetUInt();
      if !ok {
        return;
      }
      if length > MAX_STRING || streampos + length > |data| {
        return false, [];
      }
      if length > 0 {
        value := data[streampos..streampos + length];
      }
      streampos := streampos + length;
    }

    method GetString2() returns (ok: bool, value: seq<bv8>)
      requires Valid()
      modifies this
      ensures Did(AStr2, ok, Str2(value))
    {
      hide Varint.Ends, Varint.Value, OfWord, VarSize, VarValue, Range;
      value := [];
      Ranges();
      var p := data[streampos..];
      var length: int;
      ok, length := GetVarInt();
      if !ok {
        return;
      }
      if length > MAX_STRING {
        return false, [];
      }
      var end := (streampos + length) % WORD64;
      if end > |data| {
        return false, [];
      }
      if length > 0 {
        value := data[streampos..streampos + length];
      }
      streampos := end;
    }
  }

  lemma VarOf(p: seq<bv8>, n: nat, v: bv64)
    requires n != 0 ==> Varint.Ends(p, |p|, n) && v == Varint.Value(p, n)
    requires n == 0 ==> forall k :: !Varint.Ends(p, |p|, k)
    ensures VarSize(p) == n && (n != 0 ==> VarValue(p) == OfWord(v) && n <= |p|)
  {
    hide Varint.Value, OfWord;
    if n != 0 {
      Varint.OneReading(p, |p|, VarSize(p), |p|, n);
    }
  }
}
