/** A Deflate stream: compressed and stored blocks one after the other (section 3.2.3 of RFC 1951). */
module DeflateStream {
  import opened Words
  import opened Sums
  import opened Bits
  import opened BitReader
  import opened LzTokens
  import opened DeflateBlock

  datatype Block = Compressed(c: Coding, ts: seq<Token>) | Stored(bytes: seq<nat>)

  /** A block and whether it is the last one. */
  datatype Part = Part(final: bool, block: Block)

  /** Bits up to the next byte boundary. */
  function Pad(p: nat): (n: nat)
    ensures n < 8 && (p + n) % 8 == 0
  {
    (8 - p % 8) % 8
  }

  ghost predicate GoodBlock(b: Block) {
    match b
    case Compressed(c, ts) => Suitable(c, ts)
    case Stored(bytes) => |bytes| <= 0xFFFF && AllBytes(bytes)
  }

  /** A stored block from its type on, when its type starts at bit p. */
  ghost function StoredBits(bytes: seq<nat>, p: nat): seq<bool>
    requires |bytes| <= 0xFFFF
  {
    Bin(0, 2) + (Bin(0, Pad(p + 2)) + (Bin(|bytes|, 16) + (Bin(0xFFFF - |bytes|, 16) + ByteBits(bytes))))
  }

  lemma StoredShape(bytes: seq<nat>, p: nat)
    requires |bytes| <= 0xFFFF
    ensures StoredBits(bytes, p)
         == Bin(0, 2) + (Bin(0, Pad(p + 2)) + (Bin(|bytes|, 16) + (Bin(0xFFFF - |bytes|, 16) + ByteBits(bytes))))
  {
    hide ByteBits, Bin, Pad;
  }

  ghost function PartBits(b: Part, p: nat): seq<bool>
    requires GoodBlock(b.block)
  {
    [b.final] + match b.block
                case Compressed(c, ts) => BlockBits(c, ts)
                case Stored(bytes) => StoredBits(bytes, p + 1)
  }

  ghost predicate GoodParts(bs: seq<Part>) {
    forall i :: 0 <= i < |bs| ==> GoodBlock(bs[i].block)
  }

  /** The bits of the parts, when the first one starts at bit p. */
  ghost function Stream(bs: seq<Part>, p: nat): seq<bool>
    requires GoodParts(bs)
  {
    if bs == [] then [] else PartBits(bs[0], p) + Stream(bs[1..], p + |PartBits(bs[0], p)|)
  }

  lemma {:induction false} StreamPush(bs: seq<Part>, b: Part, p: nat)
    requires GoodParts(bs) && GoodBlock(b.block)
    ensures GoodParts(bs + [b]) && Stream(bs + [b], p) == Stream(bs, p) + PartBits(b, p + |Stream(bs, p)|)
  {
    hide PartBits, GoodBlock;
    if bs == [] {
      assert bs + [b] == [b] && [b][1..] == [];
    } else {
      assert (bs + [b])[1..] == bs[1..] + [b];
      StreamPush(bs[1..], b, p + |PartBits(bs[0], p)|);
    }
  }

  ghost function TextAfter(b: Block, before: seq<nat>): seq<nat> {
    match b
    case Compressed(c, ts) => Expand(ts, before)
    case Stored(bytes) => before + bytes
  }

  lemma {:induction false} StreamJoin(a: seq<Part>, b: seq<Part>, p: nat)
    requires GoodParts(a) && GoodParts(b)
    ensures GoodParts(a + b) && Stream(a + b, p) == Stream(a, p) + Stream(b, p + |Stream(a, p)|)
  {
    hide PartBits, GoodBlock;
    if a == [] {
      assert a + b == b;
    } else {
      assert (a + b)[1..] == a[1..] + b;
      StreamJoin(a[1..], b, p + |PartBits(a[0], p)|);
    }
  }

  /** Only the place within a byte matters to the bits of a part. */
  lemma PartAligned(b: Part, p: nat, q: nat)
    requires GoodBlock(b.block) && p % 8 == q % 8
    ensures PartBits(b, p) == PartBits(b, q)
  {
    SamePad(p + 3, q + 3);
    hide BlockBits, Suitable, ByteBits, Bin, Pad;
  }

  lemma SamePad(p: nat, q: nat)
    requires p % 8 == q % 8
    ensures Pad(p) == Pad(q)
  {
  }

  lemma {:induction false} StreamAligned(bs: seq<Part>, p: nat, q: nat)
    requires GoodParts(bs) && p % 8 == q % 8
    ensures Stream(bs, p) == Stream(bs, q)
  {
    hide PartBits, GoodBlock;
    if bs != [] {
      PartAligned(bs[0], p, q);
      StreamAligned(bs[1..], p + |PartBits(bs[0], p)|, q + |PartBits(bs[0], q)|);
    }
  }

  /** The text that the parts stand for. */
  ghost function TextOf(bs: seq<Part>, before: seq<nat>): seq<nat> {
    if bs == [] then before else TextOf(bs[1..], TextAfter(bs[0].block, before))
  }

  ghost predicate GoodText(b: Block, before: seq<nat>) {
    b.Compressed? ==> Valid(b.ts, before)
  }

  /** Every match of every block reaches back only to text that exists. */
  ghost predicate GoodTexts(bs: seq<Part>, before: seq<nat>) {
    bs != [] ==> GoodText(bs[0].block, before) && GoodTexts(bs[1..], TextAfter(bs[0].block, before))
  }

  lemma {:induction false} TextPush(bs: seq<Part>, b: Part, before: seq<nat>)
    ensures TextOf(bs + [b], before) == TextAfter(b.block, TextOf(bs, before))
    ensures GoodTexts(bs + [b], before) <==> GoodTexts(bs, before) && GoodText(b.block, TextOf(bs, before))
  {
    hide TextAfter, GoodText;
    if bs == [] {
      assert bs + [b] == [b] && [b][1..] == [];
      OneText(b, before);
    } else {
      assert (bs + [b])[1..] == bs[1..] + [b];
      TextPush(bs[1..], b, TextAfter(bs[0].block, before));
    }
  }

  lemma OneText(b: Part, before: seq<nat>)
    ensures TextOf([b], before) == TextAfter(b.block, before) && (GoodTexts([b], before) <==> GoodText(b.block, before))
  {
    hide TextAfter, GoodText;
    assert [b][1..] == [];
    assert TextOf([], TextAfter(b.block, before)) == TextAfter(b.block, before);
    assert GoodTexts([], TextAfter(b.block, before));
  }

  lemma {:induction false} TextGrows(bs: seq<Part>, before: seq<nat>)
    ensures before <= TextOf(bs, before)
  {
    if bs != [] {
      TextGrows(bs[1..], TextAfter(bs[0].block, before));
      if bs[0].block.Compressed? {
        ExpandKeeps(bs[0].block.ts, before);
      }
    }
  }

  /** Exactly the last part is marked as such. */
  ghost predicate Complete(bs: seq<Part>) {
    bs != [] && forall i :: 0 <= i < |bs| ==> (bs[i].final <==> i == |bs| - 1)
  }
}
