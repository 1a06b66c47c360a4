/** Finding a file by name: binary search in the index against a scan of the directory, with the default flags. */
module NameSearch {
  import opened Words
  import opened NameOrder
  import opened NameIndex

  const MZ_UINT16_MAX: nat := 0xFFFF
  const UINT_RANGE: nat := 0x1_0000_0000

  /** The records in the order of their names, none missing. */
  ghost predicate IsIndex(dir: Directory, s: seq<nat>)
    requires WellFormed(dir)
  {
    && |s| == |dir.offsets| && Indices(Keys(dir), s) && SortedFrom(Keys(dir), s, 0)
    && forall i: nat :: i < |dir.offsets| ==> i in s
  }

  /** Does record i have this name, up to case? */
  ghost predicate Matches(dir: Directory, i: nat, name: seq<Byte>)
    requires WellFormed(dir)
  {
    i < |dir.offsets| && SameName(Name(dir, i), name)
  }

  /** The scan: refuses names longer than a directory can hold. */
  ghost predicate ScanFinds(dir: Directory, name: seq<Byte>) {
    WellFormed(dir) && |name| <= MZ_UINT16_MAX && exists i: nat :: Matches(dir, i, name)
  }

  /** The search: the length of the name is kept in 32 bits. */
  ghost predicate SearchFinds(dir: Directory, name: seq<Byte>) {
    WellFormed(dir) && exists i: nat :: Matches(dir, i, name[..|name| % UINT_RANGE])
  }

  /** The records are numbered, then sorted. */
  method BuildIndex(dir: Directory) returns (a: array<nat>)
    requires WellFormed(dir)
    ensures fresh(a) && IsIndex(dir, a[..])
    ensures multiset(a[..]) == multiset(seq(|dir.offsets|, (i: nat) => i))
  {
    hide WellFormed, Keys;
    a := new nat[|dir.offsets|]((i: nat) => i);
    ghost var s := a[..];
    assert s == seq(|dir.offsets|, (i: nat) => i);
    SortByFilename(dir, a);
    forall i: nat | i < |dir.offsets| ensures i in a[..] {
      assert s[i] == i;
      assert i in multiset(s);
    }
    KeysLength(dir);
  }

  lemma KeysLength(dir: Directory)
    requires WellFormed(dir)
    ensures |Keys(dir)| == |dir.offsets|
  {
  }

  /** mz_zip_locate_file_binary_search */
  method BinarySearch(dir: Directory, a: array<nat>, name: seq<Byte>) returns (found: bool, index: nat)
    requires WellFormed(dir) && IsIndex(dir, a[..]) && |dir.offsets| <= 0xFFFF_FFFF
    ensures found <==> SearchFinds(dir, name)
    ensures found ==> Matches(dir, index, name[..|name| % UINT_RANGE])
  {
    hide LexLess, WellFormed, Le;
    var length := |name| % UINT_RANGE;
    ghost var target := name[..length];
    found, index := false, 0;
    var l, h := 0, a.Length - 1;
    while l <= h
      invariant 0 <= l <= h + 1 <= a.Length
      invariant forall k :: 0 <= k < l || h < k < a.Length ==> !Matches(dir, a[k], target)
    {
      var m := l + (h - l) / 2;
      var comp := FilenameCompare(dir, a[m], name, length);
      if comp == 0 {
        assert Matches(dir, a[m], target);
        return true, a[m];
      } else if comp < 0 {
        NoneBefore(dir, a[..], target, m);
        l := m + 1;
      } else {
        NoneAfter(dir, a[..], target, m);
        h := m - 1;
      }
    }
    assert forall i: nat :: i < |dir.offsets| ==> i in a[..];
    forall i: nat ensures !Matches(dir, i, target) {
      if i < |dir.offsets| {
        assert i in a[..];
        var k :| 0 <= k < a.Length && a[..][k] == i;
        assert a[k] == i;
      }
    }
  }

  /** If the middle entry is below the name, so is everything before it. */
  lemma NoneBefore(dir: Directory, s: seq<nat>, target: seq<Byte>, m: nat)
    requires WellFormed(dir) && IsIndex(dir, s) && m < |s|
    requires |target| > MZ_UINT16_MAX || LexLess(Lower(Name(dir, s[m])), Lower(target))
    ensures forall k :: 0 <= k <= m ==> !Matches(dir, s[k], target)
  {
    hide LexLess;
    if |target| <= MZ_UINT16_MAX {
      forall k | 0 <= k <= m ensures !Matches(dir, s[k], target) {
        LexTrichotomy(Lower(Name(dir, s[m])), Lower(target));
        LowerSame(Name(dir, s[k]), target);
        LowerSame(Name(dir, s[m]), target);
        assert k == m || Le(Keys(dir), s[k], s[m]);
      }
    } else {
      TooLong(dir, target);
    }
  }

  lemma NoneAfter(dir: Directory, s: seq<nat>, target: seq<Byte>, m: nat)
    requires WellFormed(dir) && IsIndex(dir, s) && m < |s|
    requires |target| > MZ_UINT16_MAX ||
      (!LexLess(Lower(Name(dir, s[m])), Lower(target)) && !Matches(dir, s[m], target))
    ensures forall k :: m <= k < |s| ==> !Matches(dir, s[k], target)
  {
    hide LexLess;
    if |target| <= MZ_UINT16_MAX {
      forall k | m <= k < |s| ensures !Matches(dir, s[k], target) {
        LexTrichotomy(Lower(Name(dir, s[m])), Lower(target));
        LowerSame(Name(dir, s[k]), target);
        LowerSame(Name(dir, s[m]), target);
        assert k == m || Le(Keys(dir), s[m], s[k]);
      }
    } else {
      TooLong(dir, target);
    }
  }

  /** No record has a name that long. */
  lemma TooLong(dir: Directory, target: seq<Byte>)
    requires WellFormed(dir) && |target| > MZ_UINT16_MAX
    ensures forall i: nat :: !Matches(dir, i, target)
  {
    forall i: nat ensures !Matches(dir, i, target) {
      if i < |dir.offsets| {
        assert RecordFits(dir, dir.offsets[i]);
        assert |Name(dir, i)| <= MZ_UINT16_MAX;
      }
    }
  }

  /** mz_zip_string_equal without MZ_ZIP_FLAG_CASE_SENSITIVE */
  method StringEqual(a: seq<Byte>, b: seq<Byte>) returns (equal: bool)
    requires |a| == |b|
    ensures equal <==> SameName(a, b)
  {
    for i := 0 to |a|
      invariant forall j :: 0 <= j < i ==> SameLetter(a[j], b[j])
    {
      if ToLower(a[i]) != ToLower(b[i]) {
        return false;
      }
    }
    equal := true;
  }

  /** The scan in mz_zip_reader_locate_file_v2: the first record with the name. */
  method Scan(dir: Directory, name: seq<Byte>) returns (found: bool, index: nat)
    requires WellFormed(dir)
    ensures found <==> ScanFinds(dir, name)
    ensures found ==> Matches(dir, index, name) && forall i: nat :: i < index ==> !Matches(dir, i, name)
  {
    hide WellFormed;
    found, index := false, 0;
    if |name| > MZ_UINT16_MAX {
      return;
    }
    for i := 0 to |dir.offsets|
      invariant forall k: nat :: k < i ==> !Matches(dir, k, name)
    {
      var filename := Name(dir, i);
      if |filename| == |name| {
        var equal := StringEqual(name, filename);
        assert equal <==> Matches(dir, i, name);
        if equal {
          return true, i;
        }
      }
    }
  }

  /** mz_zip_reader_locate_file_v2 with the default flags and no comment: the index is used if it was built. */
  method LocateFile(dir: Directory, sorted: bool, a: array<nat>, name: seq<Byte>) returns (found: bool, index: nat)
    requires WellFormed(dir) && |dir.offsets| <= 0xFFFF_FFFF && (sorted ==> IsIndex(dir, a[..]))
    ensures found <==> if sorted && |dir.offsets| > 0 then SearchFinds(dir, name) else ScanFinds(dir, name)
    ensures |name| < UINT_RANGE ==> (found <==> ScanFinds(dir, name))
    ensures |name| < UINT_RANGE && found ==> Matches(dir, index, name)
    ensures found && !(sorted && |dir.offsets| > 0) ==>
      Matches(dir, index, name) && forall i: nat :: i < index ==> !Matches(dir, i, name)
  {
    hide WellFormed, IsIndex;
    Agree(dir, name);
    if sorted && |dir.offsets| > 0 {
      found, index := BinarySearch(dir, a, name);
    } else {
      found, index := Scan(dir, name);
    }
  }

  /** Search and scan agree on the names that 32 bits can measure... */
  lemma Agree(dir: Directory, name: seq<Byte>)
    requires WellFormed(dir)
    ensures |name| < UINT_RANGE ==> name[..|name| % UINT_RANGE] == name
    ensures |name| < UINT_RANGE || |name| % UINT_RANGE > MZ_UINT16_MAX ==>
      (SearchFinds(dir, name) <==> ScanFinds(dir, name))
  {
    hide WellFormed;
    var cut := name[..|name| % UINT_RANGE];
    if |name| < UINT_RANGE {
      assert cut == name;
      if |name| > MZ_UINT16_MAX {
        TooLong(dir, name);
      }
    } else if |cut| > MZ_UINT16_MAX {
      TooLong(dir, cut);
    }
  }

  /** ... but not on longer ones: a directory with this single record. */
  function SingleRecord(name: seq<Byte>): (dir: Directory)
    requires |name| <= MZ_UINT16_MAX
  {
    var low: Byte, high: Byte := |name| % 256, |name| / 256;
    Directory(seq(46, i => if i == 28 then low else if i == 29 then high else 0) + name, [0])
  }

  lemma SingleRecordHolds(name: seq<Byte>)
    requires |name| <= MZ_UINT16_MAX
    ensures WellFormed(SingleRecord(name)) && Name(SingleRecord(name), 0) == name
  {
    var dir := SingleRecord(name);
    assert ReadLE16(dir.bytes, 28) == |name|;
    assert RecordFits(dir, 0);
    assert dir.bytes[46..46 + |name|] == name;
  }

  /** The search finds a record named "a" for a name of 2^32 + 1 letters a; the scan refuses the name. */
  lemma LongNameDisagrees()
    ensures var name := seq(0x1_0000_0001, i => 97 as Byte); var dir := SingleRecord([97]);
      SearchFinds(dir, name) && !ScanFinds(dir, name)
  {
    var name, dir := seq(0x1_0000_0001, i => 97 as Byte), SingleRecord([97]);
    Differ(name);
    assert name[..|name| % UINT_RANGE] == [97];
  }

  lemma Differ(name: seq<Byte>)
    requires |name| >= UINT_RANGE && |name| % UINT_RANGE <= MZ_UINT16_MAX
    ensures SearchFinds(SingleRecord(name[..|name| % UINT_RANGE]), name)
    ensures !ScanFinds(SingleRecord(name[..|name| % UINT_RANGE]), name)
  {
    var cut := name[..|name| % UINT_RANGE];
    SingleRecordHolds(cut);
    assert Matches(SingleRecord(cut), 0, cut);
  }

  /** Case does not matter: "readme" finds "README". */
  lemma FoundInAnyCase()
    ensures ScanFinds(SingleRecord([82, 69, 65, 68, 77, 69]), [114, 101, 97, 100, 109, 101])
  {
    SingleRecordHolds([82, 69, 65, 68, 77, 69]);
    assert Matches(SingleRecord([82, 69, 65, 68, 77, 69]), 0, [114, 101, 97, 100, 109, 101]);
  }

  ghost predicate AgreeOn(dir: Directory, name: seq<Byte>) {
    SearchFinds(dir, name) <==> ScanFinds(dir, name)
  }

  /** The names for which the index gives the answer of the scan, whatever the directory. */
  lemma AgreeExactlyWhen(name: seq<Byte>)
    ensures |name| < UINT_RANGE || |name| % UINT_RANGE > MZ_UINT16_MAX
       <==> forall dir :: WellFormed(dir) ==> AgreeOn(dir, name)
  {
    hide WellFormed, SearchFinds, ScanFinds;
    if |name| < UINT_RANGE || |name| % UINT_RANGE > MZ_UINT16_MAX {
      forall dir | WellFormed(dir) ensures AgreeOn(dir, name) {
        Agree(dir, name);
      }
    } else {
      Differ(name);
      SingleRecordHolds(name[..|name| % UINT_RANGE]);
      assert !AgreeOn(SingleRecord(name[..|name| % UINT_RANGE]), name);
    }
  }
}
