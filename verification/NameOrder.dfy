/** File names in a ZIP central directory, and the order in which they are indexed. */
module NameOrder {
  import opened Words

  const HEADER_SIZE: nat := 46
  const NAME_LENGTH_OFFSET: nat := 28

  /** The central directory as read from the archive, and where each record starts. */
  datatype Directory = Directory(bytes: seq<Byte>, offsets: seq<nat>)

  function ReadLE16(bytes: seq<Byte>, at: nat): (r: nat)
    requires at + 2 <= |bytes|
    ensures r <= 0xFFFF
  {
    var low: nat, high: nat := bytes[at], bytes[at + 1];
    low + 256 * high
  }

  ghost predicate RecordFits(dir: Directory, offset: nat) {
    && offset + HEADER_SIZE <= |dir.bytes|
    && offset + HEADER_SIZE + ReadLE16(dir.bytes, offset + NAME_LENGTH_OFFSET) <= |dir.bytes|
  }

  /** What has been checked of every record by the time the index is built. */
  ghost predicate WellFormed(dir: Directory) {
    forall i :: 0 <= i < |dir.offsets| ==> RecordFits(dir, dir.offsets[i])
  }

  function Name(dir: Directory, i: nat): seq<Byte>
    requires WellFormed(dir) && i < |dir.offsets|
  {
    var start := dir.offsets[i] + HEADER_SIZE;
    dir.bytes[start..start + ReadLE16(dir.bytes, dir.offsets[i] + NAME_LENGTH_OFFSET)]
  }

  /** MZ_TOLOWER */
  function ToLower(b: Byte): Byte {
    if 65 <= b <= 90 then b + 32 else b
  }

  const CAPITALS := "ABCDEFGHIJKLMNOPQRSTUVWXYZ"
  const SMALLS := "abcdefghijklmnopqrstuvwxyz"

  /** The order compares letters as small ones, and all other bytes as they are. */
  lemma LetterCase(k: nat, b: Byte)
    requires k < 26
    ensures CAPITALS[k] as int == 65 + k && SMALLS[k] as int == 97 + k
    ensures ToLower(CAPITALS[k] as int) == ToLower(SMALLS[k] as int) == SMALLS[k] as int
    ensures (forall j :: 0 <= j < 26 ==> b != CAPITALS[j] as int) ==> ToLower(b) == b
  {
    if 65 <= b <= 90 {
      assert b == CAPITALS[b - 65] as int;
    }
  }

  /** The same byte, or the same letter in both cases. */
  predicate SameLetter(b: Byte, c: Byte) {
    b == c || (65 <= b <= 90 && c == b + 32) || (65 <= c <= 90 && b == c + 32)
  }

  ghost predicate SameName(a: seq<Byte>, b: seq<Byte>) {
    |a| == |b| && forall i :: 0 <= i < |a| ==> SameLetter(a[i], b[i])
  }

  ghost function Lower(s: seq<Byte>): (r: seq<Byte>)
    ensures |r| == |s| && forall i :: 0 <= i < |s| ==> r[i] == ToLower(s[i])
  {
    seq(|s|, i requires 0 <= i < |s| => ToLower(s[i]))
  }

  lemma LowerSame(a: seq<Byte>, b: seq<Byte>)
    ensures Lower(a) == Lower(b) <==> SameName(a, b)
  {
    if Lower(a) == Lower(b) {
      forall i | 0 <= i < |a| ensures |a| == |b| && SameLetter(a[i], b[i]) {
        assert |Lower(a)| == |Lower(b)| && Lower(a)[i] == Lower(b)[i];
      }
      assert |Lower(a)| == |Lower(b)|;
    }
  }

  /** Lower-cased names of all records. */
  ghost function Keys(dir: Directory): (r: seq<seq<Byte>>)
    requires WellFormed(dir)
    ensures |r| == |dir.offsets| && forall i :: 0 <= i < |r| ==> r[i] == Lower(Name(dir, i))
  {
    seq(|dir.offsets|, i requires 0 <= i < |dir.offsets| => Lower(Name(dir, i)))
  }

  /** Dictionary order: at the first difference the smaller byte is first, and a proper prefix is first. */
  ghost predicate LexLess(a: seq<Byte>, b: seq<Byte>) {
    b != [] && (a == [] || a[0] < b[0] || (a[0] == b[0] && LexLess(a[1..], b[1..])))
  }

  lemma {:induction false} LexTrichotomy(a: seq<Byte>, b: seq<Byte>)
    ensures !(LexLess(a, b) && LexLess(b, a))
    ensures LexLess(a, b) || LexLess(b, a) <==> a != b
  {
    if a != [] && b != [] && a[0] == b[0] {
      LexTrichotomy(a[1..], b[1..]);
      assert a == [a[0]] + a[1..] && b == [b[0]] + b[1..];
    }
  }

  lemma {:induction false} LexTransitive(a: seq<Byte>, b: seq<Byte>, c: seq<Byte>)
    requires LexLess(a, b) && LexLess(b, c)
    ensures LexLess(a, c)
  {
    if a != [] && a[0] == b[0] == c[0] {
      LexTransitive(a[1..], b[1..], c[1..]);
    }
  }

  /** A common prefix does not matter. */
  lemma {:induction false} LexAfterPrefix(a: seq<Byte>, b: seq<Byte>, k: nat)
    requires k <= |a| && k <= |b| && a[..k] == b[..k]
    ensures LexLess(a, b) == LexLess(a[k..], b[k..])
  {
    if k > 0 {
      assert a[0] == a[..k][0] && b[0] == b[..k][0];
      assert a[1..][..k - 1] == a[..k][1..] && b[1..][..k - 1] == b[..k][1..];
      LexAfterPrefix(a[1..], b[1..], k - 1);
      assert a[1..][k - 1..] == a[k..] && b[1..][k - 1..] == b[k..];
    } else {
      assert a[k..] == a && b[k..] == b;
    }
  }

  /** Where the byte-by-byte comparison stops: at the end of the shorter name, or at a difference. */
  lemma LexDecided(a: seq<Byte>, b: seq<Byte>, k: nat)
    requires k <= |a| && k <= |b| && a[..k] == b[..k]
    requires k == |a| || k == |b| || a[k] != b[k]
    ensures LexLess(a, b) <==> (if k == |a| || k == |b| then |a| < |b| else a[k] < b[k])
    ensures a == b <==> |a| == |b| == k
  {
    LexAfterPrefix(a, b, k);
    if |a| == |b| == k {
      assert a == a[..k] && b == b[..k];
    }
  }

  /** mz_zip_reader_filename_less */
  method FilenameLess(dir: Directory, l: nat, r: nat) returns (less: bool)
    requires WellFormed(dir) && l < |dir.offsets| && r < |dir.offsets|
    ensures less <==> LexLess(Lower(Name(dir, l)), Lower(Name(dir, r)))
  {
    hide LexLess;
    var left, right := Name(dir, l), Name(dir, r);
    ghost var a, b := Lower(left), Lower(right);
    var k: nat := 0;
    while k < |left| && k < |right|
      invariant k <= |left| && k <= |right| && a[..k] == b[..k]
    {
      if ToLower(left[k]) != ToLower(right[k]) {
        LexDecided(a, b, k);
        return ToLower(left[k]) < ToLower(right[k]);
      }
      k := k + 1;
    }
    LexDecided(a, b, k);
    less := |left| < |right|;
  }

  /** A 32-bit difference taken as a signed number. */
  function SignedDifference(a: nat, b: nat): (r: int) {
    var d := (a - b) % 0x1_0000_0000;
    if d < 0x8000_0000 then d else d - 0x1_0000_0000
  }

  /** mz_zip_filename_compare: the entry's name against the first `length` bytes of the name looked for. The sign is
      only right for names that a directory can hold, but 0 always means equal. */
  method FilenameCompare(dir: Directory, l: nat, name: seq<Byte>, length: nat) returns (comp: int)
    requires WellFormed(dir) && l < |dir.offsets| && length <= |name| && length < 0x1_0000_0000
    ensures comp == 0 <==> SameName(Name(dir, l), name[..length])
    ensures length <= 0xFFFF ==> (comp < 0 <==> LexLess(Lower(Name(dir, l)), Lower(name[..length])))
  {
    hide LexLess;
    var left := Name(dir, l);
    ghost var a, b := Lower(left), Lower(name[..length]);
    LowerSame(left, name[..length]);
    var k: nat := 0;
    while k < |left| && k < length
      invariant k <= |left| && k <= length && a[..k] == b[..k]
    {
      if ToLower(left[k]) != ToLower(name[k]) {
        LexDecided(a, b, k);
        return ToLower(left[k]) - ToLower(name[k]);
      }
      k := k + 1;
    }
    LexDecided(a, b, k);
    comp := SignedDifference(|left|, length);
  }
}
