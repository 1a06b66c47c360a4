# Verified models of UrBackup's core algorithms

This project models, in Dafny, the self-contained algorithms inside UrBackup and proves that they do what they are
for. Six parts of the program are covered.

* **Deflate** (`common/miniz.c`). The compressor from the hash-chain parser to the output bytes, and the
  decompressor from the bits to the text: the circular mirrored dictionary and its match finder, greedy, lazy, run
  and filtered parsing, the token buffer with its flag bytes, the radix sort, the in-place Huffman lengths, the
  length limit, the canonical codes, the run-length packed code sizes, fixed, dynamic and stored blocks, the
  lookup-plus-tree decoding tables and the symbol decoder with its careful treatment of the end of the input.
  On every input whatsoever the decompressor does what a short definition over the bits says (`InflateSpec`), and
  streams written out bit by bit, one of each type of block, stand for known texts (`KnownStreams`, `KnownDynamic`).
  `RoundTrip` puts both halves together: for every input, cut into any chunks with any flushes between them, under
  every setting and whatever the hash tables contain beforehand, decompressing the output, whatever follows it, gives
  back the input and takes exactly the output. No block ever fails to fit the output buffer. After a sync flush the
  bytes put out so far decompress to everything passed in so far, and what is put out after a full flush decompresses
  on its own.
* **The ZIP name index** (`common/miniz.c`). Heap sort of the central directory by lower-cased name, and binary
  search against the linear scan it replaces.
* **Multi-exponentiation** (`cryptoplugin/algebra.cpp`). Signed sliding windows with buckets, the cascade table for
  two bases, and the heap-driven product, each equal to the plain sum of multiples in every commutative group; also
  the Euclidean algorithm and the modular inverse.
* **The worker pool** (`ThreadPool.cpp`). A monitor as a state machine over its atomic steps, with invariants over
  every run, a class whose methods are those steps, and a second protocol for `waitFor`.
* **Serialisation** (`common/data.cpp`). SQLite's unrolled variable-length integers, and typed messages.
* **The LRU cache** (`common/lrucache.h`) and **Adler-32** (`common/adler32.cpp`, `common/miniz.c`,
  `cryptoplugin/adler32.cpp`).

Code that works by changing things step by step is modelled by classes, arrays and loops and is proved against
specification functions; what the program promises is then proved about those functions. Integer widths are written
out wherever they matter: 16-bit keys and hash links, 32-bit positions, tickets, bit buffers and sums, 64-bit
variable-length numbers. Bits are sequences of booleans in the order in which they are sent.

## How the files build on each other

| part | files |
|---|---|
| Huffman lengths | `Sums`, `MergeTree`, `HuffmanTree`, `HuffmanHeight`, `HuffmanOptimal`, `MinimumRedundancy`, `RadixSort` |
| Limited lengths | `LengthLimit`, `LimitCost`, `SymbolCosts`, `OptimizeTable`, `LimitExample` |
| Codes and tables | `Bits`, `CanonicalCode`, `FixedCodes`, `HuffmanCodes`, `InflateTable`, `InflateBuild`, `BitReader`, `InflateDecode`, `CompleteCode`, `BitWriter` |
| Blocks written | `CodeLengthPacking`, `LzTokens`, `LzBuffer`, `BlockWriter`, `TokenCosts`, `DynamicBlock`, `DeflateBlock`, `BlockSize`, `DeflateStream` |
| Blocks read | `InflateSpec`, `InflateBlock`, `DynamicHeader`, `InflateStream`, `BodyText`, `StreamText`, `OverrunExample`, `KnownStreams`, `KnownDynamic` |
| Compressor | `LzParse`, `MatchFinder`, `LongestMatch`, `LzParser`, `Compressor`, `RoundTrip` |
| ZIP index | `Permutations`, `NameOrder`, `NameIndex`, `NameSearch` |
| Groups | `AbelianGroup`, `SlidingWindow`, `Cascade`, `HeapMultiply`, `Euclid` |
| Thread pool | `PoolProtocol`, `WaitProtocol`, `ThreadPool` |
| Serialisation | `Varint`, `LittleEndian`, `Messages`, `MessageExample` |
| Cache, checksum | `LruOrder`, `LruCache`, `AdlerSums`, `AdlerModulus`, `Adler32` |
| Everywhere | `Words`, `Collections` |

## What turned out to need a condition, and what did not

* The binary search over file names keeps the length of the name in 32 bits, the scan does not. The two agree on
  every directory exactly for names that are shorter than 2^32 bytes or whose length modulo 2^32 is above 65535
  (`NameSearch.AgreeExactlyWhen`); `NameSearch.LongNameDisagrees` gives a name of 2^32 + 1 bytes for which they
  differ.
* `common/miniz.c:799` provides for 32 bits in a code from the in-place pass; with the 16-bit totals the compressor
  has, 22 bits are enough (`HuffmanTree.LengthBound`).
* The length limit makes the sizes fit but not always cheapest. They are optimal among all prefix codes exactly if
  some optimal code respects the limit m; that is so whenever the counts add up to less than the Fibonacci number
  F(m + 3), and it is decided by the in-place pass, because its preference for leaves on a tie makes the longest of
  its optimal lengths as short as possible (`OptimizeTable.OptimizeHuffmanTable`, `SymbolCosts.LimitableLengths`,
  `HuffmanOptimal.Optimal`). With the counts 1, 1, 2, 3, 5, 8, 13, 21, 34 and a limit of 7 bits the text gets longer
  (`LimitExample.SevenBitsCostMore`). With the limit of 15 bits of a block's codes it never gets longer by more than
  n / 270 bits for each symbol, with n symbols in the alphabet (`LimitCost.LimitedCost`).
* `common/miniz.c:1262` provides for a dynamic block that does not fit the output buffer, with the remark that this may
  be impossible. It is: any block for a full token buffer leaves more than 1800 of the 681440 bits, enough for the
  empty block of a sync or full flush as well (`BlockSize.BlockFits`), so the assertion at `common/miniz.c:1302` always
  holds.
* The match finder returns the best of the links it follows, and the chains hold every position of the dictionary. So
  nothing longer is left in the dictionary as far as the probes suffice, with one exception: zero stands for no link, so
  that a position whose low 16 bits are zero is never found and hides the ones behind it on its chain
  (`LongestMatch.ChainFindsLongest`, `LzParser.ChainsAreWhole`).
* Decompression stays inside the output buffer on every input except in one case. The length symbols 286 and 287, which
  never occur in valid data (section 3.2.5 of RFC 1951), stand for no length in the decoder's tables, and its copying
  loop copies three bytes before it looks at the length. The call leaves the buffer exactly if the first step that
  cannot be carried out inside it is one of these symbols with a distance inside the text while fewer than three bytes
  of room are left (`InflateSpec.BodyOverrun`, `InflateSpec.StreamOverrun`). Codes without these two symbols rule it out
  (`InflateSpec.NoOverrun`), and so does a stream that stands for a text (`StreamText.StreamInflates`). The bytes 4B 1C
  03 do it with room for one to three bytes, and decode on with more room (`OverrunExample.RunsOut`).
* Bits that start with no symbol are taken for symbol 0. That needs a code of at most one symbol: a complete code finds
  a symbol in any 15 bits and never makes one up (`CompleteCode.FullFinds`).
* `getStr2` reads a signed length and does not refuse a negative one. The field is accepted, and the position goes back
  behind the length field, exactly if the length reads as -k with k no larger than that position; it then ends k bytes
  back (`MessageExample.WhenStr2GoesBack`). At the nine bytes FF FF FF FF FF FF FF FF F7, a length of -9, the position
  stands still and the same field is read for ever (`MessageExample.StandsStill`). It cannot happen in messages that the
  writer produced.
* `waitFor` stores its condition with the tickets only once. Its wake-up cannot be lost as long as each ticket has one
  waiter at most and is not given out again while it is waited for (`WaitProtocol.NoLostWakeUp`); both conditions are
  needed (`WaitProtocol.SecondWaiterLosesWakeUp`, `WaitProtocol.ReusedTicketLosesWakeUp`; the second case takes a
  wrap-around of the 32-bit tickets). Without either condition a stored condition still belongs to a call that has not
  returned and waits for that ticket, so that the end of a task never notifies one that has been destroyed
  (`WaitProtocol.RunBelongs`).

## Model

| member | source | states |
|---|---|---|
| RoundTrip.RoundTrip | common/miniz.c:1939-1957 | For every input, every probe count and flag combination, any previous contents of the hash tables and any data after the compressed output: inflating ends with done if the buffer is large enough, and then the buffer holds the input and exactly the output has been taken; a smaller buffer holds the beginning of the input. |
| RoundTrip.RoundTripChunks | common/miniz.c:1822-1888 | The same for input passed in several calls, each with no, sync or full flush, followed by the finishing call. |
| RoundTrip.RoundTripSoFar | common/miniz.c:1287-1299 | After a sync or full flush the bytes put out so far decompress to everything passed in so far, and the decompressor then asks for more input. |
| RoundTrip.RoundTripFromFlush | common/miniz.c:1879-1884 | The bytes put out after a full flush decompress on their own, without those before it, to everything passed in after it, however compression goes on. |
| RoundTrip.DeflateChunks | common/miniz.c:1822-1888 | Whatever the chunks and the flush modes, the output is a complete Deflate stream for the concatenated chunks. |
| RoundTrip.Deflate | common/miniz.c:1939-1957 | One call with the whole input puts out bytes whose bits are a sequence of blocks ending in a final one, which stand for the input, padded with zero bits to a whole byte. |
| Compressor.Compressor.Compress | common/miniz.c:1822-1888 | For every flush mode: appends the input to the text and only adds to the output; after a sync or full flush the whole bytes put out are blocks that stand for everything passed in, the last one empty and stored; after a full flush hash chains and dictionary are empty and no later block needs the text before it; after the finishing call the output is a complete stream for all of it. |
| Compressor.Compressor.CompressNormal | common/miniz.c:1656-1799 | Takes in all input, terminates, keeps the token buffer within bounds and, when flushing, leaves nothing in the lookahead. |
| Compressor.Compressor.FlushBlock | common/miniz.c:1207-1339 | Every block fits, also the empty one of a sync or full flush; what has been put out stands for the text up to the flush position, and a finished output is padded with zero bits to a whole byte. |
| Compressor.Compressor.PutEmptyBlock | common/miniz.c:1286-1302 | The empty stored block is written whole and ends on a byte boundary, the text stands unchanged, and the output buffer is still not full. |
| Compressor.EmitBlock | common/miniz.c:1226-1276 | The bits added are one block that stands for the flushed part of the text and leave room for an empty block; it is stored exactly if the dictionary still holds its text and either that is asked for or the compressed form is not shorter, by whole bytes, and it uses the fixed codes exactly if that is asked for or the text is shorter than 48 bytes; the fall-back to a static block is never reached. |
| Compressor.BlockBounded | common/miniz.c:1240-1257 | So no block whose text is in the dictionary is longer than its text by more than 42 bits. |
| Compressor.EmittedPush | common/miniz.c:1226-1276 | Adding a block for the next part of the text to an output that stands for the text before it keeps that correspondence. |
| LzParser.Parser.Step | common/miniz.c:1656-1799 | One step of the parser, for every flag combination: what is recorded and held back is the choice between the best match found and the one held back; recorded tokens and the pending literal or match still expand to exactly the text up to the current position; the lookahead shrinks and at most six bytes are added to the token buffer. |
| LzParser.Parser.Decide | common/miniz.c:1741-1778 | Records and holds back exactly what the lazy or greedy choice says, and keeps the correspondence between tokens, saved match and text. |
| LzParser.ChoiceKeepsMatches | common/miniz.c:1741-1778 | What that choice says: a match held back is given up only for a longer one at the next position, a match found is recorded or held back unless the one before is as long, greedy parsing records it at once, and a literal goes out only where there is no match or in front of a longer one. |
| LzParser.NearStep | common/miniz.c:1741-1778 | Whatever the choice, no token and no match held back looks back further than the dictionary, and so not beyond the last full flush. |
| LzParser.Parser.Search | common/miniz.c:1710-1740 | The match found is a run of the last byte as long as it goes, or else the best of the chain beyond the match held back, and it is dropped exactly by the rules for short, distant and filtered matches; one that survives repeats earlier text inside the window. |
| LzParser.Parser.Fill | common/miniz.c:1665-1706 | Taking in input extends the text by exactly the bytes consumed and keeps dictionary, mirror, hash chains and the window limits in agreement with it, until the lookahead is full or the input used up; every position has been put on its chain. |
| LzParser.ChainsAreWhole | common/miniz.c:1735-1735 | So the best of the chain is the longest repetition that can be found in the dictionary, whatever the hash tables contained at the start. |
| MatchFinder.FindMatch | common/miniz.c:1397-1439 | Whatever the hash chain contains, the search ends, and its result is the match passed in or a longer one, found on the chain inside the window with equal bytes; none of the links the probe count covers leads to more equal bytes, up to the maximal length. |
| LongestMatch.ChainFindsLongest | common/miniz.c:1397-1439 | The search is exhaustive: over chains that hold the whole dictionary no repetition is longer, as far as the probes suffice and no position with this hash and low bits zero is in between. |
| LongestMatch.ChainIsBack | common/miniz.c:1681-1682 | Link k leads to the k-th position before this one with the same hash. |
| MatchFinder.CandidateMatches | common/miniz.c:1415-1437 | Bytes that agree in the circular dictionary and its mirror are equal bytes of the text. |
| LzParse.Dictionary.Put | common/miniz.c:1668-1705 | Storing a byte in its slot, and in the mirror for the first 257 slots, keeps the last 32768 bytes of the text readable without wrapping. |
| LzParse.Dictionary.Link | common/miniz.c:1681-1682 | The new position goes to the front of the chain of its hash, and no other link changes. |
| LzParse.HashRolls | common/miniz.c:1669-1680 | The hash rolled on byte by byte is the hash of the last three bytes. |
| LzBuffer.TokenBuffer.RecordLiteral | common/miniz.c:1613-1624 | Appends a literal to the recorded tokens and counts its symbol. |
| LzBuffer.TokenBuffer.RecordMatch | common/miniz.c:1626-1654 | Appends a match to the recorded tokens, counts its length and distance symbols and adds its length to the total. |
| LzBuffer.TokenBuffer.Seal | common/miniz.c:1222-1223 | After the shift and pop of the last flag byte the buffer is exactly the grouped encoding of the recorded tokens, for partial, full and empty last groups. |
| LzBuffer.BufferedPush | common/miniz.c:1613-1654 | A token in an open group keeps buffer, flag byte and token list in agreement. |
| LzBuffer.BufferedFull | common/miniz.c:1613-1654 | So does the eighth token, which closes the group and opens the next flag byte. |
| LzBuffer.CountedPush | common/miniz.c:1613-1654 | The symbol counts are the numbers of uses in the recorded tokens. |
| BlockWriter.ReadToken | common/miniz.c:1159-1189 | The reader of the token buffer meets exactly the recorded tokens, in order, with the flag bit that tells literals from matches. |
| BlockWriter.CompressLzCodes | common/miniz.c:1150-1195 | The bits written are the codes and extra bits of all recorded tokens and the end-of-block code, unless the output is full. |
| LzTokens.LengthRoundTrip | common/miniz.c:640-658 | For every match length the encoder's symbol and extra bits, put into the decoder's base and extra tables, give the length back. |
| LzTokens.DistanceRoundTrip | common/miniz.c:660-700 | The same for all 32768 distances. |
| LzTokens.LengthTable | common/miniz.c:2327-2328 | The length codes of section 3.2.5 of RFC 1951: eight for one length each, then four for every number of extra bits, without gaps, from 3 on; and one for 258. |
| LzTokens.DistanceTable | common/miniz.c:2329-2330 | The distance codes of that section: four for one distance each, then two for every number of extra bits, without gaps, from 1 to the size of the dictionary. |
| LzTokens.CopyUnique | common/miniz.c:2651-2708 | A text that repeats itself at a distance is the overlapping copy of section 3.2.3 of RFC 1951. |
| LzTokens.Split | common/miniz.c:2546-2709 | Expanding a token list is expanding its beginning and then the rest. |
| LzTokens.ExpandBehind | common/miniz.c:2651-2708 | Tokens that do not look back further than a text stand for the same whatever is before that text. |
| MinimumRedundancy.CalculateMinimumRedundancy | common/miniz.c:741-794 | In place, on sorted positive frequencies with a total of at most 65535: lengths between 1 and 22, non-increasing, with Kraft sum exactly one, of least total cost among all lengths that satisfy Kraft's inequality, and with the shortest longest length among those of that cost. |
| MinimumRedundancy.BuildTree | common/miniz.c:751-771 | The first pass leaves the parent of every node; no 16-bit store wraps. |
| MinimumRedundancy.ComputeDepths | common/miniz.c:771-773 | The second pass turns parents into depths. |
| MinimumRedundancy.AssignLengths | common/miniz.c:774-793 | The third pass replaces node depths by the leaves' lengths, level by level, and terminates. |
| MergeTree.QueuedTotal | common/miniz.c:751-770 | The weights waiting in the two queues always add up to the total frequency. |
| MergeTree.MergeStep | common/miniz.c:754-770 | One merge keeps everything that is known of the two queues: both sorted, each node made of the two smallest items, and leaves preferred on a tie. |
| MergeTree.NextLevel | common/miniz.c:778-793 | The nodes of one depth are consecutive and their children are the next level. |
| HuffmanTree.KraftEquality | common/miniz.c:741-794 | The lengths of a merge history use up the whole code space. |
| HuffmanTree.CostIsTotalWeight | common/miniz.c:741-794 | The length of the coded text is the total weight of the internal nodes. |
| HuffmanTree.LengthBound | common/miniz.c:797-800 | By a Fibonacci bound no length exceeds 22 when the total is at most 65535. |
| HuffmanTree.LengthsNeedText | common/miniz.c:741-794 | A code of length l needs a text of at least F(l + 2) symbols, and of F(l + 1) times the count of its own symbol. |
| HuffmanTree.ShortTextLimit | common/miniz.c:741-794 | A text of fewer than F(m + 3) symbols has no code longer than m. |
| HuffmanHeight.NodesRanked | common/miniz.c:754-770 | Nodes of equal weight are formed in order of height, because leaves are preferred on a tie. |
| HuffmanHeight.LengthsBelowRoot | common/miniz.c:771-793 | No code is longer than the root is high. |
| HuffmanOptimal.Optimal | common/miniz.c:741-794 | No lengths that fit the code space cost less than those of the merge history, and none that cost the same have a shorter longest one. |
| HuffmanOptimal.EqualizeLongest | common/miniz.c:741-794 | The exchange step: the two smallest items can be given equal, longest codes at no extra cost, and reaching no deeper if the cost is the same. |
| HuffmanOptimal.MergeRaisesBound | common/miniz.c:754-770 | Merging the two smallest items raises the lower bound on the cost by their weights and keeps the bound on the depth. |
| LengthLimit.EnforceMaxCodeSize | common/miniz.c:801-823 | From a full code of at most 2^m codes: as many codes as before, none longer than m, Kraft sum exactly one again; nothing changes if no code was too long, and what changes is confined as the rounds confine it. |
| LengthLimit.Rebalance | common/miniz.c:811-822 | Every round finds a shorter code to split, frees one unit of the overfull space and keeps the number of codes; the loop terminates; no length up to the shortest one split gains codes, and the codes between it and m could free no more units than there are codes. |
| LengthLimit.SplitCounts | common/miniz.c:813-821 | Dropping a longest code and splitting a shorter one conserves the number of codes and lowers the space used by one unit. |
| LengthLimit.NextRound | common/miniz.c:813-821 | A round keeps these limits on what the rounds change. |
| LengthLimit.ManyLongest | common/miniz.c:813-821 | A code of length i is split only while more than 2^(m - i) codes have the longest length. |
| LengthLimit.LongShare | common/miniz.c:807-810 | Folding the too-long codes into the longest allowed length overfills the space by at most their number. |
| LimitCost.SizePays | common/miniz.c:801-823 | A symbol whose code gets longer costs at most 1/540 of the text for every unit of code space it frees. |
| LimitCost.LimitedCost | common/miniz.c:801-823 | Limiting n codes to 15 bits makes the text longer by at most n / 270 bits for each of its symbols. |
| RadixSort.RadixSortSyms | common/miniz.c:707-738 | The result is a permutation of the records in the order of their 16-bit counts, in whichever buffer the last pass wrote; skipping the pass over zero high bytes is sound. |
| RadixSort.BucketsOrdered | common/miniz.c:721-736 | A stable pass refines the order it finds. |
| RadixSort.PassPermutes | common/miniz.c:721-736 | A pass permutes the records. |
| OptimizeTable.OptimizeHuffmanTable | common/miniz.c:825-876 | Used symbols get sizes between 1 and the limit, unused ones none, the codes are the reversed canonical ones, two or more symbols use up the code space; the sizes are optimal exactly if some optimal code respects the limit, always if the counts add up to less than F(m + 3), and within n / 270 bits a symbol of any code if the limit is 15. |
| OptimizeTable.OptimalExactly | common/miniz.c:825-876 | Optimal after limiting, some optimal code within the limit, and computed lengths within the limit are the same thing. |
| SymbolCosts.LimitableLengths | common/miniz.c:741-794 | Some optimal sizes respect a limit exactly if the computed lengths do. |
| LimitExample.SevenBitsCostMore | common/miniz.c:801-823 | A text that eight bits code in 220 bits cannot be coded in 220 with seven. |
| LimitExample.NotLimitable | common/miniz.c:801-823 | For these counts no optimal code respects the limit of seven bits. |
| SymbolCosts.OptimalBySymbol | common/miniz.c:847-859 | Optimal lengths by rank are optimal sizes by symbol. |
| HuffmanCodes.AssignCodes | common/miniz.c:862-875 | Each symbol gets the bit-reversed canonical code of section 3.2.2 of RFC 1951. |
| HuffmanCodes.FitsSpace | common/miniz.c:801-864 | A histogram within the code space describes usable sizes; one that fills it, a complete code. |
| CanonicalCode.PrefixFree | common/miniz.c:862-875 | No canonical code is a prefix of another. |
| CanonicalCode.LongerAbove | common/miniz.c:862-864 | Every longer code lies, cut to a shorter length, above all codes of that length. |
| BitWriter.BitWriter.PutBits | common/miniz.c:878-894 | Appends exactly the given bits, least significant first, as long as the output has room. |
| InflateBuild.BuildTable | common/miniz.c:2455-2516 | Accepts exactly the size vectors that fill the code space or use at most one symbol, and then the tables decode every symbol; all indices stay inside the arrays. |
| InflateBuild.AcceptTest | common/miniz.c:2466-2476 | The decoder's test on its counts is that condition. |
| InflateTable.InsertSymbol | common/miniz.c:2477-2516 | Entering one symbol keeps the table a partial map from code prefixes to symbols and nodes. |
| InflateTable.Room | common/miniz.c:2495-2513 | The tree array of 576 entries never overflows. |
| InflateTable.NodeSpaceSize | common/miniz.c:2495-2513 | The bound behind it: how many proper prefixes of ten or more bits a code can have. |
| InflateDecode.HuffDecode | common/miniz.c:2260-2323 | On any input, what lookup table, tree and the careful refill near the end of the input decode is what the remaining bits say: the symbol whose code they start with, with exactly its bits consumed; symbol 0 if at least 15 bits, or bits that leave the path of a long code, start with none; otherwise failure, which consumes nothing. |
| InflateDecode.StartsFound | common/miniz.c:2260-2323 | With any code the decoder accepts, bits that start with the code of a symbol are decoded as that symbol. |
| InflateDecode.Settles | common/miniz.c:2260-2283 | An answer of the tables within the valid bits is what the whole input says. |
| InflateDecode.Exhausted | common/miniz.c:2260-2283 | No answer with all input in the buffer means that the input starts with no symbol. |
| CompleteCode.FullFinds | common/miniz.c:2473-2476 | With a code that uses up the code space any 15 bits start with a symbol, and none is ever made up. |
| InflateDecode.HitIsSymbol | common/miniz.c:2260-2283 | A lookup hit on too few valid bits is never taken for a symbol. |
| BitReader.BitReader.GetBits | common/miniz.c:2224-2253 | Reads the next n bits as a number exactly if there are that many, and otherwise leaves all of them. |
| BitReader.BitReader.PutBack | common/miniz.c:2715-2722 | At a byte boundary, with all look-ahead bytes put back, exactly the bytes that hold the consumed bits have been taken and the bit buffer is empty. |
| CodeLengthPacking.PackCodeSizes | common/miniz.c:896-1004 | The packed sizes unpack to exactly the original ones, are no longer than them, leave no run unpacked, and the counts are the uses of every symbol. |
| CodeLengthPacking.TightRuns | common/miniz.c:896-941 | Never three plain zeros in a row, and never four equal plain sizes. |
| CodeLengthPacking.SwizzleOrder | common/miniz.c:942-942 | The order in which the sizes of the code-length codes are sent, as section 3.2.7 of RFC 1951 gives it. |
| CodeLengthPacking.ExtraFits | common/miniz.c:896-941 | The extras fit 2, 3 and 7 bits. |
| CodeLengthPacking.FlatNoLonger | common/miniz.c:896-941 | The packed form has at most as many entries as there are sizes. |
| CodeLengthPacking.StartsWithSize | common/miniz.c:896-941 | It never starts with the repeat symbol 16. |
| DynamicHeader.InflateDynamic | common/miniz.c:2439-2545 | On any bits: the two size vectors, the bits left and the reason of a failure (input at an end, sizes that do not come out even, codes that are not acceptable) are those of the definition over the bits, and after success both tables are ready for these sizes. |
| StreamText.HeaderInflates | common/miniz.c:2439-2545 | The bits of every valid header give back the sizes it describes and exactly what follows it. |
| DynamicHeader.ReadOp | common/miniz.c:2518-2536 | On any bits, one code-length symbol appends what the definition says, or fails for the same reason; the size list never overflows. |
| DynamicBlock.ChooseCodes | common/miniz.c:944-953 | The chosen codes can express every recorded token and the end of the block, and are nearly optimal for them. |
| DynamicBlock.DescribeCodes | common/miniz.c:955-1006 | The header describes exactly the chosen codes, with the unused tails left out. |
| DynamicBlock.WriteHeader | common/miniz.c:1008-1029 | The bits written are those of the header. |
| DynamicBlock.TrimBody | common/miniz.c:955-961 | Leaving out unused tails does not change the bits of the tokens. |
| DeflateBlock.CompressBlock | common/miniz.c:1198-1205 | The bits added are a block type, its header and the tokens, under the fixed or the chosen codes. |
| DeflateBlock.FixedExpresses | common/miniz.c:1031-1052 | The fixed codes are complete and can express every token. |
| FixedCodes.FixedLitWord | common/miniz.c:1036-1043 | The code of every literal and length, as the table of section 3.2.6 of RFC 1951 gives it: 48 + i in eight bits, 400 + (i - 144) in nine, i - 256 in seven, 192 + (i - 280) in eight. |
| FixedCodes.FixedDistWord | common/miniz.c:1045-1045 | The code of every distance is its number in five bits. |
| BlockSize.StaticFits | common/miniz.h:699-706 | A static block for a full token buffer always fits the output buffer. |
| BlockSize.DynamicFits | common/miniz.c:1262-1267 | So does a dynamic block, with its header. |
| BlockSize.AgainstStatic | common/miniz.c:944-953 | Its body is longer than that of the static block by at most 640/540 bits a token and a little more. |
| BlockSize.BlockFits | common/miniz.c:1302-1302 | Any block leaves room for the bits before it and an empty block after it. |
| TokenCosts.TokensBitsSize | common/miniz.c:1150-1195 | The size of the coded tokens is the cost of their symbol counts and the extra bits. |
| InflateBlock.InflateBody | common/miniz.c:2546-2709 | On any bits the loops end, and status, contents of the output buffer, position and bits left are those of the definition over the bits. |
| BodyText.BodyInflates | common/miniz.c:2546-2709 | On the bits of a block body that definition gives the expansion of its tokens, overlapping copies included, and exactly what follows the body; a full output buffer holds the beginning. |
| InflateSpec.BodyOverrun | common/miniz.c:2651-2708 | The output buffer is left exactly if the first step that cannot be carried out is length symbol 286 or 287 with a distance inside the text and fewer than three bytes of room. |
| InflateSpec.NoOverrun | common/miniz.c:2651-2708 | Never if the code leaves out both symbols, and only when fewer than three bytes of room are left. |
| InflateSpec.StepLength | common/miniz.c:2327-2328 | A decoded length is at least 3, except that symbols 286 and 287 give 0. |
| InflateSpec.StreamOverrun | common/miniz.c:2361-2709 | A whole stream leaves the output buffer exactly if the body of the last block looked at does. |
| OverrunExample.RunsOut | common/miniz.c:2651-2708 | Three bytes that leave a buffer of one to three bytes, and decode on in a larger one. |
| InflateBlock.CopyMatch | common/miniz.c:2651-2708 | For any length: byte by byte until the output is full if it does not fit, else three at a time and at least once; the buffer holds the copy, as much of it as fits, and Overrun is reported exactly if the next write is outside. |
| InflateStream.Inflate | common/miniz.c:2361-2709 | On any bits the loop over the blocks ends, and status, contents of the output buffer, position and bits left are those of the definition over the bits. |
| InflateStream.Decompress | common/miniz.c:2325-2722 | The whole call on any input: the result is that of the definition over the bits, which stays inside the buffer unless it is Overrun; when done the bit buffer is empty and exactly the bytes that hold the consumed bits have been taken. |
| KnownStreams.StaticStands | common/miniz.c:2430-2437 | The bytes FB 0F 00 inflate to the byte 255, in any buffer large enough. |
| KnownStreams.StoredStands | common/miniz.c:2376-2416 | The bytes 01 01 00 FE FF 61 inflate to the byte 97. |
| KnownDynamic.DynamicStands | common/miniz.c:2440-2709 | A dynamic block written out bit by bit, with every kind of run in its header, literals and an overlapping match, inflates to "abbbbcd". |
| KnownStreams.ReservedTypeFails | common/miniz.c:2417-2420 | A block of type 3 is refused, whatever follows. |
| KnownStreams.WrongLengthFails | common/miniz.c:2385-2388 | So is a stored block whose length is not the complement of the second one. |
| StreamText.StreamInflates | common/miniz.c:2361-2709 | On a complete sequence of stored, fixed and dynamic blocks, followed by anything, that definition gives their text, or as much of it as fits, and exactly what follows. |
| StreamText.PrefixInflates | common/miniz.c:2361-2709 | On blocks of which none is the last it gives their text and asks for more input. |
| StreamText.BlockInflates | common/miniz.c:2361-2709 | One block of any type appends its text. |
| DeflateStream.StreamPush | common/miniz.c:1207-1339 | A stream followed by one more block, at the bit position where it starts, is a stream. |
| DeflateStream.StreamAligned | common/miniz.c:1207-1339 | The bits of a stream depend on where it starts only by the place within a byte. |
| NameIndex.SortByFilename | common/miniz.c:3372-3422 | Heap sort leaves a permutation of the record numbers in the order of the lower-cased names. |
| NameIndex.RootIsLargest | common/miniz.c:3405-3421 | The root of a heap comes after no other entry. |
| NameIndex.SiftDown | common/miniz.c:3387-3400 | Sinking restores the heap and permutes only its entries. |
| NameOrder.FilenameLess | common/miniz.c:3343-3360 | The byte loop decides the dictionary order of the lower-cased names. |
| NameOrder.FilenameCompare | common/miniz.c:4145-4160 | Zero exactly if the names have equal length and at every place the same byte or the two cases of one letter, for every length; for names a directory can hold the sign is the dictionary order. |
| NameOrder.LowerSame | common/miniz.c:3037-3037 | Names are equal after lower-casing exactly in that sense. |
| NameOrder.LetterCase | common/miniz.c:3037-3037 | In the order, the letters A to Z stand for a to z and every other byte for itself. |
| NameSearch.BinarySearch | common/miniz.c:4162-4200 | Finds a record exactly if one has the name, cut to its 32-bit length, up to case. |
| NameSearch.Scan | common/miniz.c:4231-4273 | Finds the first record with the name up to case, exactly if the name is at most 65535 bytes long and some record has it. |
| NameSearch.LocateFile | common/miniz.c:4211-4274 | For all names below 2^32 bytes, with or without the index, a record whose name has the same length and the same bytes or letters is returned exactly if the scan finds one; without the index it is the first one. |
| NameSearch.FoundInAnyCase | common/miniz.c:4231-4273 | A directory with "README" has "readme". |
| NameSearch.AgreeExactlyWhen | common/miniz.c:4169-4169 | Exactly which names index and scan agree on for every directory. |
| NameSearch.LongNameDisagrees | common/miniz.c:4169-4169 | A concrete name and directory on which they differ. |
| SlidingWindow.SimultaneousMultiply | cryptoplugin/algebra.cpp:255-313 | In every commutative group, for every list of non-negative exponents and with or without fast inversion, each result is its exponent times the base; the loop terminates. |
| SlidingWindow.WindowSlider.FindNextWindow | cryptoplugin/algebra.cpp:220-247 | The digits delivered plus the part ahead, at its position, always equal the exponent, also after rounding up for a negative digit. |
| SlidingWindow.Collapse | cryptoplugin/algebra.cpp:299-313 | The suffix sums weigh bucket k with 2k + 1. |
| SlidingWindow.SuffixesAddUp | cryptoplugin/algebra.cpp:299-313 | Twice the suffix sums from 1 on plus the whole sum is that weighted sum. |
| SlidingWindow.ScalarMultiply | cryptoplugin/algebra.cpp:90-95 | The single multiple. |
| Cascade.CascadeScalarMultiply | cryptoplugin/algebra.cpp:97-170 | The result is e1 x + e2 y in every commutative group, for all exponents and all three window sizes. |
| Cascade.FillTable | cryptoplugin/algebra.cpp:113-129 | Every table entry that is not even in both indices holds its combination. |
| Cascade.Flush | cryptoplugin/algebra.cpp:142-166 | Only filled entries are read, the number of doublings before the entry never goes below zero, and the collected bits of both exponents are worked in. |
| HeapMultiply.GeneralCascadeMultiplication | cryptoplugin/algebra.cpp:172-204 | For any non-empty list the result is the sum of exponent times base; the total of the exponents falls in every round. |
| HeapMultiply.DivisionKeepsTotal | cryptoplugin/algebra.cpp:187-197 | Dividing the largest exponent by the next one and adding to its base conserves the sum. |
| Euclid.Gcd | cryptoplugin/algebra.cpp:56-68 | The rotating remainders end in a common divisor that every common divisor divides. |
| Euclid.MultiplicativeInverse | cryptoplugin/algebra.cpp:70-88 | An inverse modulo m if there is one, otherwise zero. |
| PoolProtocol.RunInv | ThreadPool.cpp:54-350 | In every run: thread count within the limit and at least the smaller of limit and running tasks, idle threads within their limit, no wake-up lost, tickets exactly those of queued and executing tasks, tasks started in order. |
| PoolProtocol.StepInv | ThreadPool.cpp:115-350 | Every atomic step keeps the invariant. |
| PoolProtocol.StepStarts | ThreadPool.cpp:133-154 | A step starts no task, or exactly the oldest one not yet started, and forgets no submission or completion. |
| PoolProtocol.WaitForIsSound | ThreadPool.cpp:235-307 | Once none of the tickets is live, every task submitted before under one of them has finished. |
| PoolProtocol.LiveTaskIsUnique | ThreadPool.cpp:338-347 | No two unfinished tasks have the same ticket. |
| PoolProtocol.QueueIsServed | ThreadPool.cpp:309-349 | While a task is queued some thread is executing, starting or awake. |
| PoolProtocol.StepIdle | ThreadPool.cpp:131-148 | A thread leaves only if nothing is queued and as many idle threads remain as may wait, and falls asleep only if nothing is queued and no more are idle than that; the number of threads grows exactly with a submission that finds as many tasks as threads below the limit, and falls exactly when one leaves. |
| ThreadPool.Pool.Execute | ThreadPool.cpp:309-350 | Is the submitting step of both protocols; the ticket is the next 32-bit number that is neither zero nor live, also around the wrap. |
| ThreadPool.Pool.NextTicket | ThreadPool.cpp:338-343 | The search for a ticket ends, passes over unusable numbers only, and counts modulo 2^32. |
| ThreadPool.PassedBound | ThreadPool.cpp:338-343 | At most one more number is passed over than tickets are live. |
| ThreadPool.Pool.GetRunnable | ThreadPool.cpp:115-156 | Is a step of the protocol: ends a task, gives up its ticket, notifies the waiter stored with it (the ending step of the waiting protocol), and takes the oldest task; or, with none queued, leaves if as many idle threads remain as may wait, and otherwise sleeps. |
| ThreadPool.Pool.Resume | ThreadPool.cpp:131-156 | Is a step of the protocol: a thread that wakes up takes the oldest task, leaves or sleeps again, under the same conditions. |
| ThreadPool.Pool.Remove | ThreadPool.cpp:158-175 | Is a step of the protocol: a leaving thread is always on the list and is taken off once. |
| ThreadPool.Pool.Register | ThreadPool.cpp:246-253 | The waiter is stored with every live ticket it waits for. |
| ThreadPool.Pool.AnyRunning | ThreadPool.cpp:259-267 | The wait goes on exactly while a ticket in the list is live. |
| ThreadPool.Pool.Unregister | ThreadPool.cpp:292-302 | Only the caller's own entries are taken back. |
| ThreadPool.Pool.WaitFor | ThreadPool.cpp:235-307 | Up to its return or its first wait it is the entering step of the waiting protocol; it returns true exactly if no ticket of the list is live, and then every task submitted under one of them has finished, and false only after a time-out. |
| ThreadPool.Pool.WaitAgain | ThreadPool.cpp:257-307 | So is a waiter that has been woken, up to its return or its next wait, with the same meaning of the result. |
| ThreadPool.Pool.WakeUp | ThreadPool.cpp:289-289 | A sleeping caller that wakes up without a notification takes a step of the waiting protocol. |
| WaitProtocol.RunBelongs | ThreadPool.cpp:115-307 | In every run a stored condition belongs to a call that has not returned and waits for that ticket, and everyone asleep is waiting. |
| WaitProtocol.StepBelongs | ThreadPool.cpp:115-307 | Every step keeps that, also when tickets are given out again or shared. |
| WaitProtocol.NoLostWakeUp | ThreadPool.cpp:115-307 | In every run in which each ticket has one waiter at most and is not given out again while waited for, a waiter whose tickets have all ended is awake. |
| WaitProtocol.FairStepInv | ThreadPool.cpp:115-307 | Every such step keeps: live tickets have their waiter stored with them, and who sleeps waits for a live ticket. |
| WaitProtocol.SecondWaiterLosesWakeUp | ThreadPool.cpp:246-253 | A run in which a second waiter on the same ticket leaves the first one asleep. |
| WaitProtocol.ReusedTicketLosesWakeUp | ThreadPool.cpp:255-290 | A run in which a ticket given out again between two looks leaves its waiter asleep. |
| Varint.GetVarint | common/data.cpp:69-273 | The unrolled decoder returns 0 exactly if the number is not all there, and otherwise its length and the plain base-128 value, with eight bits from a ninth byte. |
| Varint.RoundTrip | common/data.cpp:69-321 | For every 64-bit value the encoding is read back, and exactly its bytes. |
| Varint.TruncatedFails | common/data.cpp:69-273 | On any shorter prefix of an encoding nothing is read. |
| Varint.VarintLen | common/data.cpp:37-50 | The length of the encoding, between 1 and 9; the assertion in the loop holds. |
| Varint.PutVarint | common/data.cpp:285-321 | Writes exactly the encoding, by all three branches, and nothing after it. |
| Varint.KnownNumber | common/data.cpp:69-100 | The bytes 82 2C are 300. |
| Messages.MessageRoundTrip | common/data.cpp:338-656 | Any sequence of integer, character, variable-length and string fields (strings up to 10 MiB, 100 MiB in all) is read back by the matching gets, which end at the end of the data. |
| Messages.MessageTruncated | common/data.cpp:338-656 | Of a message cut short anywhere, exactly the fields wholly present are read and the next get fails. |
| Messages.FieldRoundTrip | common/data.cpp:475-656 | A field is read back wherever its bytes stand. |
| Messages.Writer.AddVarInt | common/data.cpp:423-430 | Appends the field's bytes; the number written is the number reserved. |
| Messages.Writer.AddString2 | common/data.cpp:389-396 | Appends length and bytes. |
| Messages.Reader.GetVarInt | common/data.cpp:651-656 | Result and position are those of the specification. |
| Messages.Reader.GetString | common/data.cpp:553-581 | The same, also when it fails after the length. |
| Messages.Reader.GetString2 | common/data.cpp:583-611 | The same, including lengths that read as negative. |
| MessageExample.WhenStr2GoesBack | common/data.cpp:583-611 | Exactly when a string in the newer format is accepted with a position before the end of its length field, where that position is, and exactly when it lies before the field itself. |
| MessageExample.StandsStill | common/data.cpp:583-611 | Nine bytes at which the reader succeeds without moving, however often it is asked. |
| MessageExample.KnownImages | common/data.cpp:338-396 | Fields of known values and the bytes written for them. |
| LittleEndian.NumberRoundTrip | common/data.cpp:338-380 | A number in range is what its little-endian bytes stand for. |
| LittleEndian.BytesAt | common/data.cpp:338-380 | Byte i written of a number is its digit of weight 256 to the power i. |
| LittleEndian.NumberAt | common/data.cpp:475-530 | The number read has the bytes as these digits. |
| LruOrder.RunRanked | common/lrucache.h:34-178 | After every run of operations the entries are those of a reference that stamps each with its last use, most recent first. |
| LruOrder.EvictRanked | common/lrucache.h:103-120 | Eviction takes the entry used least recently. |
| LruOrder.CandidateIsEvicted | common/lrucache.h:103-146 | The candidate k places from the back is what one more eviction after k of them returns. |
| LruCache.Cache.Put | common/lrucache.h:34-49 | The entry is in front, other entries keep their order; map and list agree. |
| LruCache.Cache.PutAtBack | common/lrucache.h:51-66 | A new entry is last; a known one changes its value in place. |
| LruCache.Cache.Get | common/lrucache.h:78-94 | The key's own node or null; moved to the front if asked. |
| LruCache.Cache.EvictOne | common/lrucache.h:103-120 | Removes and returns the last entry, from list and map. |
| LruCache.Cache.EvictionCandidate | common/lrucache.h:122-146 | Is what the next evictions would return, or nothing. |
| LruCache.Cache.Del | common/lrucache.h:148-157 | Removes the entry with the key and no other. |
| LruCache.AgreeSize | common/lrucache.h:68-76 | The map is as large as the list. |
| AdlerSums.CombineIsAppend | common/adler32.cpp:118-137 | Combining the checksums of two byte strings and the length of the second gives the checksum of both together. |
| AdlerSums.NmaxIsLargest | common/adler32.cpp:34-36 | 5552 is the largest number of bytes for which 32-bit sums cannot overflow. |
| AdlerModulus.BaseIsLargestPrime | common/adler32.cpp:34-34 | The modulus is prime and the largest prime below 65536, as the comment says. |
| AdlerModulus.KnownSums | common/adler32.cpp:50-116 | 257 bytes of 255, which exceed the modulus, have the checksum 080F000F. |
| AdlerSums.FoldTotals | common/adler32.cpp:50-116 | The definition byte by byte is the unreduced sums modulo 65521. |
| Adler32.UrbAdler32 | common/adler32.cpp:50-116 | Equals the definition by every branch, for any length and reduced start, without 32-bit overflow. |
| Adler32.UrbAdler32Combine | common/adler32.cpp:118-137 | The subtractions stand for the remainders and no 32-bit sum overflows. |
| Adler32.ChecksumOfParts | common/adler32.cpp:50-137 | Two parts checked apart and combined. |
| Adler32.MzAdler32 | common/miniz.c:39-65 | Equals the definition for any length. |
| Adler32.Adler32Hash.Update | cryptoplugin/adler32.cpp:8-54 | Equals the definition, with the second sum reduced only every 32768 bytes, without 32-bit overflow. |

## Left out

- The zlib header and trailer, the Adler-32 of the compressor's input, PNG output, caller-provided output buffers and
  output callbacks that fail: the compressor here has a callback that accepts everything.
- The coroutine of the decompressor: it is modelled on input that is all there. Its output buffer is not a wrapping
  window.
- InflateBlock.InflateBody: does not say what the call does after its first write outside the output buffer. The copying
  loop is modelled up to that write.
- Compressor.Compressor.ParseOne: does not state at which point of a long text a block is ended, because any point keeps
  what is promised; only that the token buffer never runs over.
- The unaligned-load variants (`tdefl_compress_fast`, the word-wise match finder, the 64-bit code writer): the portable
  branches are modelled.
- Arrays of structures (the symbol and count pairs of the radix sort and of the in-place length computation) are
  parallel arrays, and the encoder's length and distance symbol tables are functions by ranges.
- Compression failing on memory, and `MZ_ASSERT`, which is proved where the model reaches it.
- ZIP: reading and checking the directory, comments, the flags for case and path, writing, ZIP64.
- HeapMultiply.GeneralCascadeMultiplication: `make_heap`, `push_heap` and `pop_heap` are taken as what their library
  promises, a permutation that leaves the two largest entries at the ends.
- Groups are values with an addition that satisfies the laws; aliasing of a group's internal result object is not
  modelled. The window size is the automatic choice; none can be passed in. Euclid works on the integers.
- The pool after `Shutdown`, thread creation that fails (it only repeats the test), and when a time-out of `waitFor`
  happens: that it has is a parameter.
- ThreadPool.Pool.Execute: requires that not all 2^32 - 1 tickets are live, since the search would not end otherwise.
- Floating point and address fields (`addVoidPtr`), raw buffers and `addUInt64` of the messages, which have no matching
  reader or depend on the machine; a reader that shares the caller's buffer and one that copies it are the same here.
- LruCache.Cache.Get: what it returns is the node itself, so that a value written through it is seen by the cache, but
  no lemma follows such writes. `get_list` is left out.
- Null buffers of the checksum functions, and the byte order of the digest in `Adler32::TruncatedFinal`.
- Everything around these algorithms: sockets, files, plugins, databases, logging and the applications.
