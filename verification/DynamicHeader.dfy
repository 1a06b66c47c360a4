/** The header of a dynamic block: the code sizes of both alphabets, run-length packed and Huffman coded. */
module DynamicHeader {
  import opened Collections
  import opened Sums
  import opened Bits
  import opened CanonicalCode
  import opened InflateTable
  import opened InflateDecode
  import opened InflateSpec
  import opened InflateBlock
  import opened BitReader
  import opened CodeLengthPacking

  ghost predicate CodedOps(sz: seq<nat>, ops: seq<Op>) {
    forall i :: 0 <= i < |ops| ==> Sym(ops[i]) < |sz| && sz[Sym(ops[i])] > 0
  }

  ghost function OpBits(sz: seq<nat>, op: Op): seq<bool>
    requires Sym(op) < |sz|
  {
    Word(sz, Sym(op)) + Bin(if Extra(op) >= 0 then Extra(op) else 0, ExtraBits(Sym(op)))
  }

  ghost function OpsBits(sz: seq<nat>, ops: seq<Op>): seq<bool>
    requires CodedOps(sz, ops)
  {
    if ops == [] then [] else OpBits(sz, ops[0]) + OpsBits(sz, ops[1..])
  }

  /** The sizes of the code-length codes k to n - 1 in swizzled order, three bits each. */
  ghost function LengthSizesBits(sz: seq<nat>, k: nat, n: nat): seq<bool>
    requires k <= n <= |sz| == 19
    decreases n - k
  {
    if k == n then [] else SwizzleRange(k); Bin(sz[SWIZZLE[k]], 3) + LengthSizesBits(sz, k + 1, n)
  }

  datatype Header = Header(numLit: nat, numDist: nat, numLengths: nat, sizes: seq<nat>, ops: seq<Op>)

  ghost predicate ValidHeader(h: Header) {
    && 257 <= h.numLit <= 288 && 1 <= h.numDist <= 32 && 4 <= h.numLengths <= 19
    && |h.sizes| == 19 && (forall i :: 0 <= i < 19 ==> h.sizes[i] <= 7)
    && (forall s :: 0 <= s < 19 && Unswizzle(s) >= h.numLengths ==> h.sizes[s] == 0)
    && Accepted(h.sizes) && CodedOps(h.sizes, h.ops) && ValidOps(h.ops)
    && |Unpacked(h.ops)| == h.numLit + h.numDist
    && Accepted(Unpacked(h.ops)[..h.numLit]) && Accepted(Unpacked(h.ops)[h.numLit..])
  }

  ghost function HeaderBits(h: Header): seq<bool>
    requires ValidHeader(h)
  {
    Bin(h.numLit - 257, 5) + Bin(h.numDist - 1, 5) + Bin(h.numLengths - 4, 4) + LengthSizesBits(h.sizes, 0,
      h.numLengths) + OpsBits(h.sizes, h.ops)
  }

  // ---------------------------------------------------------------- reading

  lemma Slices(bits: seq<bool>, i: nat, j: nat, k: nat)
    requires i + j + k <= |bits|
    ensures bits[i..][..j] == bits[i..i + j] && bits[i..][j..] == bits[i + j..]
  {
  }

  /** The three counts at the start of the header. */
  method ReadCounts(r: BitReader) returns (ok: bool, numLit: nat, numDist: nat, numLengths: nat)
    requires r.Valid()
    modifies r
    ensures r.Valid() && 257 <= numLit <= 288 && 1 <= numDist <= 32 && 4 <= numLengths <= 19
    ensures var bits := old(r.Remaining());
            && (ok <==> |bits| >= 14)
            && (ok ==> numLit == NumLit(bits) && numDist == NumDist(bits) && numLengths == NumLengths(bits))
            && (ok ==> r.Remaining() == bits[14..])
  {
    hide Bin, Val, Pow2;
    ghost var bits := r.Remaining();
    numLit, numDist, numLengths := 257, 1, 4;
    var x;
    ok, x := r.GetBits(5);
    if !ok {
      return;
    }
    numLit := numLit + x;
    assert numLit <= 288 by {
      ReadBound(bits, 5);
    }
    ok, x := r.GetBits(5);
    if !ok {
      return;
    }
    Slices(bits, 5, 5, 0);
    numDist := numDist + x;
    assert numDist <= 32 by {
      ReadBound(bits[5..], 5);
    }
    ok, x := r.GetBits(4);
    if ok {
      Slices(bits, 10, 4, 0);
      numLengths := numLengths + x;
      assert numLengths <= 19 by {
        ReadBound(bits[10..], 4);
      }
    }
  }

  lemma ReadBound(bits: seq<bool>, n: nat)
    requires n <= |bits|
    ensures n == 3 ==> Val(bits[..n]) < 8
    ensures n == 4 ==> Val(bits[..n]) < 16
    ensures n == 5 ==> Val(bits[..n]) < 32
    ensures n == 2 ==> Val(bits[..n]) < 4
    ensures n == 7 ==> Val(bits[..n]) < 128
  {
    ValBound(bits[..n]);
    SmallPower();
  }

  ghost predicate Below8(sz: seq<nat>) {
    forall i :: 0 <= i < |sz| ==> sz[i] <= 7
  }

  /** The sizes of the code-length codes. */
  method ReadLengthSizes(r: BitReader, len: HuffTable, n: nat) returns (ok: bool)
    requires r.Valid() && len.Shape() && n <= 19
    modifies r, len.codeSize
    ensures r.Valid() && Below8(len.codeSize[..19])
    ensures LengthSizesAt(old(r.Remaining()), Repeat(0, 19), 0, n)
         == if ok then SizeList(len.codeSize[..19], r.Remaining()) else NoSizes(NeedsInput)
  {
    hide Bin, Val, SWIZZLE, Repeat;
    Clear(len.codeSize, 0);
    ghost var all := LengthSizesAt(r.Remaining(), Repeat(0, 19), 0, n);
    assert len.codeSize[..19] == Repeat(0, 19);
    var counter := 0;
    while counter < n
      invariant 0 <= counter <= n && r.Valid() && Below8(len.codeSize[..19])
      invariant LengthSizesAt(r.Remaining(), len.codeSize[..19], counter, n) == all
    {
      SwizzleRange(counter);
      ghost var bits, before := r.Remaining(), len.codeSize[..19];
      var s;
      ok, s := r.GetBits(3);
      if !ok {
        return;
      }
      ReadBound(bits, 3);
      len.codeSize[SWIZZLE[counter]] := s % 256;
      assert len.codeSize[..19] == before[SWIZZLE[counter] := s];
      counter := counter + 1;
    }
    ok := true;
  }

  ghost predicate AtMost15(s: seq<nat>) {
    forall i :: 0 <= i < |s| ==> s[i] <= 15
  }

  /** memset */
  method Fill(a: array<nat>, from: nat, v: nat, n: nat)
    requires from + n <= a.Length
    modifies a
    ensures a[..from + n] == old(a[..from]) + Repeat(v, n)
  {
    ghost var before := a[..from];
    var i := 0;
    while i < n
      invariant 0 <= i <= n && a[..from + i] == before + Repeat(v, i)
    {
      a[from + i] := v;
      assert a[..from + i + 1] == a[..from + i] + [v];
      i := i + 1;
    }
  }

  /** One round of the loop that rebuilds the code sizes. */
  method ReadOp(r: BitReader, len: HuffTable, lenCodes: array<nat>, counter: nat)
    returns (status: Status, counter': nat)
    requires r.Valid() && len.Ready() && |len.sz| == 19 && lenCodes.Length == 457 && counter < 320
    requires AtMost15(lenCodes[..counter])
    modifies r, lenCodes
    ensures r.Valid() && (status == Done ==> counter < counter' <= 457 && AtMost15(lenCodes[..counter']))
    ensures MoreSizes(len.sz, old(r.Remaining()), old(lenCodes[..counter]))
         == if status == Done then SizeList(lenCodes[..counter'], r.Remaining()) else NoSizes(status)
  {
    hide Table, CodeAt, Val, Repeat;
    status, counter' := Done, counter;
    ghost var before := lenCodes[..counter];
    var ok, sym := len.NextSymbol(r);
    if !ok {
      status := NeedsInput;
      return;
    }
    if sym < 16 {
      lenCodes[counter] := sym % 256;
      counter' := counter + 1;
      assert lenCodes[..counter'] == before + [sym];
      return;
    }
    if sym == 16 && counter == 0 {
      status := Failed;
      return;
    }
    ghost var bits := r.Remaining();
    var s;
    ok, s := r.GetBits(ExtraBits(sym));
    if !ok {
      status := NeedsInput;
      return;
    }
    ReadBound(bits, ExtraBits(sym));
    s := s + LeastRun(sym);
    var value := if sym == 16 then lenCodes[counter - 1] else 0;
    Fill(lenCodes, counter, value, s);
    counter' := counter + s;
    RepeatBound(before, value, s);
  }

  lemma RepeatBound(before: seq<nat>, v: nat, n: nat)
    requires AtMost15(before) && v <= 15
    ensures AtMost15(before + Repeat(v, n))
  {
  }

  /** Rebuilds `total` code sizes; fails when they do not come out even. */
  method ReadCodeSizes(r: BitReader, len: HuffTable, lenCodes: array<nat>, total: nat) returns (status: Status)
    requires r.Valid() && len.Ready() && |len.sz| == 19 && lenCodes.Length == 457 && 1 <= total <= 320
    modifies r, lenCodes
    ensures r.Valid() && (status == Done ==> AtMost15(lenCodes[..total]))
    ensures CodeSizesAt(len.sz, old(r.Remaining()), [], total)
         == if status == Done then SizeList(lenCodes[..total], r.Remaining()) else NoSizes(status)
  {
    hide Table, MoreSizes;
    ghost var all := CodeSizesAt(len.sz, r.Remaining(), [], total);
    var counter := 0;
    assert lenCodes[..0] == [];
    while counter < total
      invariant r.Valid() && counter <= 457 && AtMost15(lenCodes[..counter])
      invariant CodeSizesAt(len.sz, r.Remaining(), lenCodes[..counter], total) == all
    {
      var counter';
      status, counter' := ReadOp(r, len, lenCodes, counter);
      if status != Done {
        return;
      }
      counter := counter';
    }
    status := if counter == total then Done else Failed;
  }

  lemma Small7(sz: seq<nat>)
    ensures Below8(sz) || AtMost15(sz) ==> Sizes(sz)
  {
  }

  lemma HeaderRanges(h: Header)
    requires ValidHeader(h)
    ensures 257 <= h.numLit <= 288 && 1 <= h.numDist <= 32 && 4 <= h.numLengths <= 19
    ensures |h.sizes| == 19 && Below8(h.sizes) && |Unpacked(h.ops)| == h.numLit + h.numDist
    ensures Accepted(Unpacked(h.ops)[..h.numLit]) && Accepted(Unpacked(h.ops)[h.numLit..])
  {
  }

  /** Copies n sizes into a table. */
  method SetSizes(t: HuffTable, from: array<nat>, start: nat, n: nat)
    requires t.Shape() && n <= 288 && start + n <= from.Length && from != t.codeSize
    modifies t.codeSize
    ensures t.codeSize[..n] == from[start..start + n]
  {
    var i := 0;
    while i < n
      invariant 0 <= i <= n && t.codeSize[..i] == from[start..start + i]
    {
      t.codeSize[i] := from[start + i];
      assert from[start..start + i + 1] == from[start..start + i] + [from[start + i]];
      i := i + 1;
    }
  }

  /** The arrays of three tables and the size list do not overlap. */
  ghost predicate Separate(lit: HuffTable, dist: HuffTable, len: HuffTable, lenCodes: array<nat>) {
    && lit.Shape() && dist.Shape() && len.Shape() && lit != dist && lit != len && dist != len
    && lit.codeSize != dist.codeSize && lit.codeSize != len.codeSize && dist.codeSize != len.codeSize
    && lenCodes != lit.codeSize && lenCodes != dist.codeSize && lenCodes != len.codeSize && lenCodes.Length == 457
    && {lit.lookUp, lit.tree} !! {dist.lookUp, dist.tree} && {lit.lookUp, lit.tree} !! {len.lookUp, len.tree}
    && {dist.lookUp, dist.tree} !! {len.lookUp, len.tree}
  }

  /** The code-length table. */
  method ReadLengthTable(r: BitReader, len: HuffTable, numLengths: nat) returns (status: Status)
    requires r.Valid() && len.Shape() && numLengths <= 19
    modifies r, len, len.codeSize, len.lookUp, len.tree
    ensures r.Valid() && status in {Done, Failed, NeedsInput} && (status == Done ==> len.Ready() && |len.sz| == 19)
    ensures match LengthSizesAt(old(r.Remaining()), Repeat(0, 19), 0, numLengths)
            case NoSizes(s) => status == s
            case SizeList(code, rest) =>
              && (status == if Accepted(code) then Done else Failed)
              && (status == Done ==> len.sz == code && r.Remaining() == rest)
  {
    hide Table, LengthSizesAt, Accepted, Below8, Sizes;
    var ok := ReadLengthSizes(r, len, numLengths);
    if !ok {
      status := NeedsInput;
      return;
    }
    Small7(len.codeSize[..19]);
    ok := len.Build(19);
    status := if ok then Done else Failed;
  }

  /** Both tables from the size list. */
  method BuildTables(lit: HuffTable, dist: HuffTable, len: HuffTable, lenCodes: array<nat>, numLit: nat, numDist: nat)
    returns (ok: bool)
    requires Separate(lit, dist, len, lenCodes) && numLit <= 288 && numDist <= 32
    requires AtMost15(lenCodes[..numLit + numDist])
    modifies lit, lit.codeSize, lit.lookUp, lit.tree, dist, dist.codeSize, dist.lookUp, dist.tree
    ensures var all := old(lenCodes[..numLit + numDist]);
            && (ok <==> Accepted(all[..numLit]) && Accepted(all[numLit..]))
            && (ok ==> lit.Ready() && dist.Ready() && lit.sz == all[..numLit] && dist.sz == all[numLit..])
  {
    hide Table, Accepted, AtMost15, Sizes;
    var total := numLit + numDist;
    SetSizes(lit, lenCodes, 0, numLit);
    SetSizes(dist, lenCodes, numLit, numDist);
    SliceSizes(lenCodes[..total], numLit);
    assert lit.codeSize[..numLit] == lenCodes[..total][..numLit];
    assert dist.codeSize[..numDist] == lenCodes[..total][numLit..];
    ok := dist.Build(numDist);
    if ok {
      ok := lit.Build(numLit);
    }
  }

  lemma SliceSizes(s: seq<nat>, k: nat)
    requires k <= |s| && AtMost15(s)
    ensures Sizes(s[..k]) && Sizes(s[k..])
  {
  }

  /** The tables, after the three counts. */
  method ReadTables(r: BitReader, lit: HuffTable, dist: HuffTable, len: HuffTable, lenCodes: array<nat>, numLit: nat,
      numDist: nat)
    returns (status: Status)
    requires r.Valid() && Separate(lit, dist, len, lenCodes) && 257 <= numLit <= 288 && 1 <= numDist <= 32
    requires len.Ready() && |len.sz| == 19
    modifies r, lenCodes, lit, lit.codeSize, lit.lookUp, lit.tree, dist, dist.codeSize, dist.lookUp, dist.tree
    ensures r.Valid() && (status == Done ==> Usable(lit, dist))
    ensures CodesAt(len.sz, old(r.Remaining()), numLit, numDist)
         == if status == Done then Codes(lit.sz, dist.sz, r.Remaining()) else NoCodes(status)
  {
    hide Table, CodeSizesAt, Accepted, AtMost15;
    status := ReadCodeSizes(r, len, lenCodes, numLit + numDist);
    if status != Done {
      return;
    }
    var ok := BuildTables(lit, dist, len, lenCodes, numLit, numDist);
    if !ok {
      status := Failed;
    }
  }

  /** The header of a dynamic block: on any bits, both tables are ready for exactly the sizes that the bits describe, or
      the status says why there are none. */
  method InflateDynamic(r: BitReader, lit: HuffTable, dist: HuffTable, len: HuffTable, lenCodes: array<nat>)
    returns (status: Status)
    requires r.Valid() && Separate(lit, dist, len, lenCodes)
    modifies r, lenCodes, lit, lit.codeSize, lit.lookUp, lit.tree, dist, dist.codeSize, dist.lookUp, dist.tree, len,
      len.codeSize, len.lookUp, len.tree
    ensures r.Valid() && (status == Done ==> Usable(lit, dist))
    ensures HeaderAt(old(r.Remaining()))
         == if status == Done then Codes(lit.sz, dist.sz, r.Remaining()) else NoCodes(status)
  {
    hide Table, LengthSizesAt, CodesAt, Accepted, NumLit, NumDist, NumLengths, Repeat;
    var ok, numLit, numDist, numLengths := ReadCounts(r);
    if !ok {
      status := NeedsInput;
      return;
    }
    status := ReadLengthTable(r, len, numLengths);
    if status == Done {
      status := ReadTables(r, lit, dist, len, lenCodes, numLit, numDist);
    }
  }
}
