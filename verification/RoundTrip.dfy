/** Compressing and decompressing again. */
module RoundTrip {
  import opened Words
  import opened Bits
  import opened BitReader
  import opened BitWriter
  import opened InflateSpec
  import opened StreamText
  import opened LzBuffer
  import opened LzParse
  import opened LzParser
  import opened LzTokens
  import opened DeflateStream
  import opened InflateStream
  import opened Compressor

  /** A complete output is a stream that the decompressor takes from its first bit. */
  lemma OutputIsStream(output: seq<nat>, parts: seq<Part>, text: seq<nat>)
    requires CompleteOutput(output, parts, text, |text|)
    ensures GoodParts(parts) && Complete(parts) && GoodTexts(parts, []) && TextOf(parts, []) == text
    ensures ByteBits(output) == Stream(parts, 0) + Bin(0, Pad(|Stream(parts, 0)|)) && |ByteBits(output)| % 8 == 0
  {
    hide Stream, GoodTexts, TextOf, Complete, GoodParts;
    assert text[..|text|] == text;
    ByteBitsLength(output);
  }

  datatype Setting = Setting(probes: nat, greedy: bool, rle: bool, filter: bool, raw: bool, staticBlocks: bool)

  /** Any contents of the hash tables, which the caller may ask not to clear. */
  ghost predicate HashTables(heads: seq<nat>, links: seq<nat>) {
    && |heads| == LZ_HASH_SIZE && |links| == DICT_SIZE
    && (forall i :: 0 <= i < |heads| ==> heads[i] < 0x10000) && forall i :: 0 <= i < |links| ==> links[i] < 0x10000
  }

  /** tdefl_compress_mem_to_output without the zlib wrapper: one call with the whole input. `heads` and `links`
      are what the hash tables happen to contain. */
  method Deflate(input: seq<nat>, s: Setting, heads: seq<nat>, links: seq<nat>)
    returns (output: seq<nat>, ghost parts: seq<Part>)
    requires AllBytes(input) && s.probes <= 0xFFF && HashTables(heads, links)
    ensures AllBytes(output) && CompleteOutput(output, parts, input, |input|)
  {
    hide CompleteOutput, Window, Emitted;
    var c := new Compressor(s.probes, s.greedy, s.rle, s.filter, s.raw, s.staticBlocks, heads, links);
    c.Compress(input, FINISH);
    assert [] + input == input;
    output, parts := c.output, c.parts;
  }

  lemma WholeBytes(output: seq<nat>, stream: seq<bool>, pad: nat, taken: nat)
    requires ByteBits(output) == stream + Bin(0, pad) && pad < 8 && |stream| <= 8 * taken < |stream| + 8
    ensures taken == |output|
  {
    hide Bin, ByteBits;
    ByteBitsLength(output);
  }

  lemma Followed(output: seq<nat>, after: seq<nat>, stream: seq<bool>, pad: seq<bool>)
    requires ByteBits(output) == stream + pad
    ensures ByteBits(output + after) == stream + (pad + ByteBits(after))
  {
    hide ByteBits;
    ByteBitsAppend(output, after);
  }

  /** Decompresses a complete output that is followed by other data, into a buffer of the given size. */
  method Restore(output: seq<nat>, after: seq<nat>, room: nat, ghost parts: seq<Part>, ghost text: seq<nat>)
    returns (status: Status, restored: seq<nat>, taken: nat)
    requires AllBytes(output) && AllBytes(after) && CompleteOutput(output, parts, text, |text|)
    ensures status == if |text| <= room then Done else HasMoreOutput
    ensures status == Done ==> restored == text && taken == |output|
    ensures status == HasMoreOutput ==> restored == text[..room]
  {
    hide CompleteOutput, ByteBits, Stream, GoodTexts, TextOf, Complete, GoodParts, Bin, Pad, Inflated;
    OutputIsStream(output, parts, text);
    ghost var rest := Bin(0, Pad(|Stream(parts, 0)|)) + ByteBits(after);
    Followed(output, after, Stream(parts, 0), Bin(0, Pad(|Stream(parts, 0)|)));
    var r := new BitReader(output + after);
    var inf := new Inflater();
    var out := new nat[room](_ => 0);
    ByteBitsLength(r.input);
    StreamInflates(parts, 0, Place(ByteBits(r.input), out[..], 0), rest);
    var pos;
    status, pos := Decompress(r, inf, out);
    restored, taken := out[..pos], r.cur;
    if status == Done {
      PadBound(|Stream(parts, 0)|);
      ByteBitsLength(output);
      WholeBytes(output, Stream(parts, 0), Pad(|Stream(parts, 0)|), taken);
    }
  }

  /** Deflate is lossless: for every input and every setting of the compressor, decompressing its output into a
      buffer that is large enough gives back the input and takes exactly the output, whatever follows it; a smaller
      buffer receives the beginning of the input. */
  method RoundTrip(input: seq<nat>, s: Setting, heads: seq<nat>, links: seq<nat>, after: seq<nat>, room: nat)
    returns (output: seq<nat>, status: Status, restored: seq<nat>, taken: nat)
    requires AllBytes(input) && AllBytes(after) && s.probes <= 0xFFF && HashTables(heads, links)
    ensures status == if |input| <= room then Done else HasMoreOutput
    ensures status == Done ==> restored == input && taken == |output|
    ensures status == HasMoreOutput ==> restored == input[..room]
  {
    hide CompleteOutput;
    ghost var parts;
    output, parts := Deflate(input, s, heads, links);
    status, restored, taken := Restore(output, after, room, parts, input);
  }

  function Flat(chunks: seq<seq<nat>>): seq<nat> {
    if chunks == [] then [] else Flat(chunks[..|chunks| - 1]) + chunks[|chunks| - 1]
  }

  lemma FlatPush(chunks: seq<seq<nat>>, i: nat)
    requires i < |chunks|
    ensures Flat(chunks[..i + 1]) == Flat(chunks[..i]) + chunks[i]
  {
    assert chunks[..i + 1][..i] == chunks[..i];
  }

  lemma NothingFlat()
    ensures Flat([]) == []
  {
  }

  /** Compression in several calls, each with its own flush mode. */
  method Send(c: Compressor, chunks: seq<seq<nat>>, flushes: seq<nat>)
    requires |flushes| == |chunks| && c.Valid() && c.p.tb.pos <= LZ_CODE_BUF_SIZE - 8
    requires forall i :: 0 <= i < |chunks| ==> AllBytes(chunks[i]) && flushes[i] in {0, 2, 3}
    modifies c.Repr()
    ensures c.Valid() && c.p.tb.pos <= LZ_CODE_BUF_SIZE - 8 && c.p.d.text == old(c.p.d.text) + Flat(chunks)
    ensures chunks != [] && flushes[|flushes| - 1] in {2, 3} ==> Synced(c.output, c.parts, c.p.d.text)
    ensures chunks != [] && flushes[|flushes| - 1] == 3 ==> Fresh(c)
    ensures old(c.output) <= c.output && old(c.parts) <= c.parts && (c.restart, c.start) == old((c.restart, c.start))
    ensures old(c.Independent()) ==> c.Independent()
  {
    hide Synced, Window, Emitted, Compressor.Valid, Compressor.Independent, Flat, Near, Restarts, CompleteOutput;
    NothingFlat();
    ghost var text := c.p.d.text;
    assert text + [] == text;
    for i := 0 to |chunks|
      invariant c.Valid() && c.p.tb.pos <= LZ_CODE_BUF_SIZE - 8 && c.p.d.text == text + Flat(chunks[..i])
      invariant i > 0 && flushes[i - 1] in {2, 3} ==> Synced(c.output, c.parts, c.p.d.text)
      invariant i > 0 && flushes[i - 1] == 3 ==> Fresh(c)
      invariant old(c.output) <= c.output && old(c.parts) <= c.parts
      invariant (c.restart, c.start) == old((c.restart, c.start))
      invariant old(c.Independent()) ==> c.Independent()
    {
      c.Compress(chunks[i], flushes[i]);
      FlatPush(chunks, i);
      assert text + Flat(chunks[..i]) + chunks[i] == text + (Flat(chunks[..i]) + chunks[i]);
    }
    assert chunks[..|chunks|] == chunks;
  }

  /** The state after a full flush: nothing is pending, and nothing is looked back on. */
  ghost predicate Fresh(c: Compressor)
    reads c, c.p, c.p.d, c.p.tb
  {
    c.p.LooksNear() && c.p.flushed == c.p.d.base == |c.p.d.text|
  }

  method SendChunks(chunks: seq<seq<nat>>, flushes: seq<nat>, s: Setting, heads: seq<nat>, links: seq<nat>)
    returns (c: Compressor)
    requires |flushes| == |chunks|
    requires forall i :: 0 <= i < |chunks| ==> AllBytes(chunks[i]) && flushes[i] in {0, 2, 3}
    requires s.probes <= 0xFFF && HashTables(heads, links)
    ensures fresh(c) && fresh(c.Repr()) && c.Valid() && c.p.tb.pos <= LZ_CODE_BUF_SIZE - 8
    ensures c.p.d.text == Flat(chunks)
    ensures chunks != [] && flushes[|flushes| - 1] in {2, 3} ==> Synced(c.output, c.parts, Flat(chunks))
    ensures chunks != [] && flushes[|flushes| - 1] == 3 ==> Fresh(c)
  {
    hide Synced, Window, Emitted, Compressor.Valid, Compressor.Independent, Flat;
    c := new Compressor(s.probes, s.greedy, s.rle, s.filter, s.raw, s.staticBlocks, heads, links);
    Send(c, chunks, flushes);
    assert [] + Flat(chunks) == Flat(chunks);
  }

  /** The same, and the finishing call. */
  method DeflateChunks(chunks: seq<seq<nat>>, flushes: seq<nat>, s: Setting, heads: seq<nat>, links: seq<nat>)
    returns (output: seq<nat>, ghost parts: seq<Part>)
    requires |flushes| == |chunks|
    requires forall i :: 0 <= i < |chunks| ==> AllBytes(chunks[i]) && flushes[i] in {0, 2, 3}
    requires s.probes <= 0xFFF && HashTables(heads, links)
    ensures AllBytes(output) && CompleteOutput(output, parts, Flat(chunks), |Flat(chunks)|)
  {
    hide CompleteOutput, Window, Emitted, Compressor.Valid, Flat;
    var c := SendChunks(chunks, flushes, s, heads, links);
    c.Compress([], FINISH);
    assert Flat(chunks) + [] == Flat(chunks);
    output, parts := c.output, c.parts;
  }

  /** Losslessness for compression in several calls. */
  method RoundTripChunks(chunks: seq<seq<nat>>, flushes: seq<nat>, s: Setting, heads: seq<nat>, links: seq<nat>,
      after: seq<nat>, room: nat)
    returns (output: seq<nat>, status: Status, restored: seq<nat>, taken: nat)
    requires |flushes| == |chunks|
    requires forall i :: 0 <= i < |chunks| ==> AllBytes(chunks[i]) && flushes[i] in {0, 2, 3}
    requires AllBytes(after) && s.probes <= 0xFFF && HashTables(heads, links)
    ensures status == if |Flat(chunks)| <= room then Done else HasMoreOutput
    ensures status == Done ==> restored == Flat(chunks) && taken == |output|
    ensures status == HasMoreOutput ==> restored == Flat(chunks)[..room]
  {
    hide CompleteOutput;
    ghost var parts;
    output, parts := DeflateChunks(chunks, flushes, s, heads, links);
    status, restored, taken := Restore(output, after, room, parts, Flat(chunks));
  }

  lemma SyncedInflates(output: seq<nat>, parts: seq<Part>, text: seq<nat>, out: seq<nat>)
    requires Synced(output, parts, text) && |text| <= |out|
    ensures var e := Inflated(Place(ByteBits(output), out, 0));
            e.status == NeedsInput && e.place.pos == |text| && e.place.out[..|text|] == text
  {
    hide Stream, GoodTexts, TextOf, GoodParts, Inflated, ByteBits;
    ByteBitsLength(output);
    assert out[..0] == [];
    PrefixInflates(parts, 0, Place(ByteBits(output), out, 0));
  }

  /** Decompresses what has been put out so far. */
  method RestoreSoFar(output: seq<nat>, room: nat, ghost parts: seq<Part>, ghost text: seq<nat>)
    returns (status: Status, restored: seq<nat>)
    requires Synced(output, parts, text) && |text| <= room
    ensures status == NeedsInput && restored == text
  {
    hide Synced, ByteBits, Inflated;
    SyncedBytes(output, parts, text);
    var r := new BitReader(output);
    var inf := new Inflater();
    var out := new nat[room](_ => 0);
    SyncedInflates(output, parts, text, out[..]);
    var pos;
    status, pos := Decompress(r, inf, out);
    restored := out[..pos];
  }

  /** After a sync or full flush the bytes put out so far decompress to everything that has been passed in; the
      decompressor then waits for more. */
  method RoundTripSoFar(chunks: seq<seq<nat>>, flushes: seq<nat>, s: Setting, heads: seq<nat>, links: seq<nat>,
      room: nat)
    returns (output: seq<nat>, status: Status, restored: seq<nat>)
    requires |flushes| == |chunks| > 0 && flushes[|flushes| - 1] in {2, 3}
    requires forall i :: 0 <= i < |chunks| ==> AllBytes(chunks[i]) && flushes[i] in {0, 2, 3}
    requires s.probes <= 0xFFF && HashTables(heads, links) && |Flat(chunks)| <= room
    ensures status == NeedsInput && restored == Flat(chunks)
  {
    hide Synced, Compressor.Valid, Flat;
    var c := SendChunks(chunks, flushes, s, heads, links);
    output := c.output;
    status, restored := RestoreSoFar(output, room, c.parts, Flat(chunks));
  }

  lemma SyncedBytes(output: seq<nat>, parts: seq<Part>, text: seq<nat>)
    requires Synced(output, parts, text)
    ensures AllBytes(output)
  {
  }

  // ---------------------------------------------------------------- starting from a full flush

  lemma SecondHalf(before: seq<nat>, output: seq<nat>, first: seq<Part>, parts: seq<Part>, text0: seq<nat>,
      text: seq<nat>)
    requires Synced(before, first, text0) && CompleteOutput(output, parts, text, |text|)
    requires before <= output && first <= parts && text0 <= text
    requires Restarts(parts, |first|, text, |text0|, |text|)
    ensures CompleteOutput(output[|before|..], parts[|first|..], text[|text0|..], |text| - |text0|)
  {
    hide *;
    var rest, second, text1 := output[|before|..], parts[|first|..], text[|text0|..];
    assert parts == first + second && output == before + rest && text == text0 + text1;
    OutputShape(output, parts, text);
    SecondParts(first, second, before, text0);
    SecondText(parts, first, second, text, text0, text1);
    SecondBits(before, rest, first, second);
    SecondComplete(rest, second, text1);
  }

  lemma OutputShape(output: seq<nat>, parts: seq<Part>, text: seq<nat>)
    requires CompleteOutput(output, parts, text, |text|)
    ensures GoodParts(parts) && Complete(parts)
    ensures ByteBits(output) == Stream(parts, 0) + Bin(0, Pad(|Stream(parts, 0)|))
  {
    hide Stream, GoodTexts, TextOf, GoodParts, ByteBits, Bin, Pad, Complete;
  }

  lemma SecondText(parts: seq<Part>, first: seq<Part>, second: seq<Part>, text: seq<nat>, text0: seq<nat>,
      text1: seq<nat>)
    requires Restarts(parts, |first|, text, |text0|, |text|) && parts == first + second && text == text0 + text1
    ensures GoodTexts(second, []) && TextOf(second, []) == text1
  {
    hide GoodTexts, TextOf;
    assert parts[|first|..] == second && text[|text0|..|text|] == text1;
  }

  lemma SecondComplete(rest: seq<nat>, second: seq<Part>, text1: seq<nat>)
    requires GoodParts(second) && Complete(second) && GoodTexts(second, []) && TextOf(second, []) == text1
    requires ByteBits(rest) == Stream(second, 0) + Bin(0, Pad(|Stream(second, 0)|))
    ensures CompleteOutput(rest, second, text1, |text1|)
  {
    hide Stream, GoodTexts, TextOf, GoodParts, ByteBits, Bin, Pad, Complete;
    assert text1[..|text1|] == text1;
  }

  /** Behind whole bytes, the bits of the second half are those of a stream of its own. */
  lemma SecondBits(before: seq<nat>, rest: seq<nat>, first: seq<Part>, second: seq<Part>)
    requires GoodParts(first) && GoodParts(second) && GoodParts(first + second) && ByteBits(before) == Stream(first, 0)
    requires var all := Stream(first + second, 0); ByteBits(before + rest) == all + Bin(0, Pad(|all|))
    ensures ByteBits(rest) == Stream(second, 0) + Bin(0, Pad(|Stream(second, 0)|))
  {
    hide Stream, GoodParts, ByteBits, Bin, Pad;
    ByteBitsAppend(before, rest);
    ByteBitsLength(before);
    var n := |Stream(first, 0)|;
    StreamJoin(first, second, 0);
    StreamAligned(second, n, 0);
    PadShift(n, |Stream(second, 0)|);
    SameTail(ByteBits(before), ByteBits(rest), Stream(second, 0), Bin(0, Pad(|Stream(second, 0)|)));
  }

  lemma SameTail(a: seq<bool>, b: seq<bool>, c: seq<bool>, d: seq<bool>)
    requires a + b == a + c + d
    ensures b == c + d
  {
    assert b == (a + b)[|a|..] == (a + c + d)[|a|..];
  }

  lemma SecondParts(first: seq<Part>, second: seq<Part>, before: seq<nat>, text0: seq<nat>)
    requires Synced(before, first, text0) && GoodParts(first + second) && Complete(first + second)
    ensures GoodParts(first) && GoodParts(second) && Complete(second)
    ensures ByteBits(before) == Stream(first, 0)
  {
    hide Stream, GoodTexts, TextOf, ByteBits, GoodBlock;
    forall i | 0 <= i < |second|
      ensures GoodBlock(second[i].block) && (second[i].final <==> i == |second| - 1)
    {
      assert (first + second)[|first| + i] == second[i];
    }
    var last := first + second;
    assert last[|last| - 1].final;
  }

  /** What is put out after a full flush decompresses on its own, to everything that is passed in after it, whatever
      comes before and however it goes on. */
  method RoundTripFromFlush(chunks: seq<seq<nat>>, flushes: seq<nat>, later: seq<seq<nat>>, laterFlushes: seq<nat>,
      s: Setting, heads: seq<nat>, links: seq<nat>, after: seq<nat>, room: nat)
    returns (before: seq<nat>, rest: seq<nat>, status: Status, restored: seq<nat>, taken: nat)
    requires |flushes| == |chunks| > 0 && flushes[|flushes| - 1] == 3 && |laterFlushes| == |later|
    requires forall i :: 0 <= i < |chunks| ==> AllBytes(chunks[i]) && flushes[i] in {0, 2, 3}
    requires forall i :: 0 <= i < |later| ==> AllBytes(later[i]) && laterFlushes[i] in {0, 2, 3}
    requires AllBytes(after) && s.probes <= 0xFFF && HashTables(heads, links)
    ensures status == if |Flat(later)| <= room then Done else HasMoreOutput
    ensures status == Done ==> restored == Flat(later) && taken == |rest|
    ensures status == HasMoreOutput ==> restored == Flat(later)[..room]
  {
    hide CompleteOutput, Synced, Compressor.Valid, Compressor.Independent, Flat, Restarts;
    var c := SendChunks(chunks, flushes, s, heads, links);
    before := c.output;
    ghost var first := c.parts;
    c.Mark();
    Send(c, later, laterFlushes);
    c.Compress([], FINISH);
    ghost var text0, text := Flat(chunks), Flat(chunks) + Flat(later);
    assert text + [] == text && text[|text0|..] == Flat(later);
    SecondHalf(before, c.output, first, c.parts, text0, text);
    rest := c.output[|before|..];
    status, restored, taken := Restore(rest, after, room, c.parts[|first|..], Flat(later));
  }
}
