# bzip2w encoding stages in Dafny

This project models the deterministic core of fwip/bzip2w, a bzip2 compressor written in Go, and proves properties of the model. The core covers five parts.

- **Canonical Huffman book** (`huffman/huffman.go`):
  - `buildTree` keeps a node slice sorted by frequency and repeatedly merges its two lightest nodes, placing the merged node with the hand-written `search`.
  - `buildTreeSlowly` re-sorts on every round.
  - `genBookFromTree` walks the tree level by level and hands out canonical codes.
  - `NewBook` chains them.
- **Block encoder** (`encoder.go`):
  - the capped `blockEncoder.Write` and `newBlockEncoder`;
  - the Burrows–Wheeler transform `bwt`;
  - the move-to-front transform `mtf`;
  - the zero-run coder `rleMTF` with its RUNA/RUNB digits;
  - `writeTo`, which sends the fixed 81-bit block-header prefix to the bit writer.
- **Stream writer pieces** (`writer.go`):
  - the pre-BWT run-length pass `rle`;
  - the `runA`/`runB` constants;
  - the guarded `SetBlockSize`.
- **Bit writer** (`bit/bitwriter.go`): packs bits most-significant-first into a 1024-byte cache, flushes it to a sink and refuses writes after `Close`.

## Modules

- One module per concern:
  - `Bytes` holds byte and power helpers.
  - `Huffman` holds the tree, sorting, `search` and `buildTree`.
  - `Canonical` holds `genBookFromTree` and `NewBook`.
  - `Bits` holds the bit writer.
  - `Encoder` holds the block encoder and `writeTo`.
  - `Bwt`, `Mtf`, `ZeroRuns` and `Bzip2` hold `bwt`, `mtf`, `rleMTF`, and `rle` with `SetBlockSize`.
- Code that changes state is imperative Dafny, each method proved against a specification function:
  - `buildTree` works in place on an `array<Node>`.
  - `search` and the level walk of `genBookFromTree` are loops.
  - `mtf` keeps `frontlist` as a 256-byte array.
  - `blockEncoder` and the bit writer are classes whose fields the methods update.
- Specification functions:
  - `Build` is the list-level meaning of `buildTree`.
  - `Walk`, `Run` and `BookOf` are that of `genBookFromTree`.
  - `RleSpec`, `BwtOf` and `MtfFrom` specify `rle`, `bwt` and `mtf`.
  - `Encode` specifies `rleMTF`.
  - `Stream` is the bit sequence written so far.
- The properties of the Huffman book are proved in `BookProofs`, `BookCodes`, `WalkOrder` and `BookSpec`. The test vectors of `huffman_test.go` are worked out in full in `BookExamples`.
- Go's `sort.Sort` is not stable. Each sort is therefore modelled as "some permutation sorted by the key": `BuildTree` returns that order as a ghost value, and `genBookFromTree` sorts each level with `SortLevel`. The canonical-code theorems hold whichever order the sort picks.
- Fixed widths are written out:
  - `rle`'s `byte` counter appears as the cut at 255.
  - `rleMTF`'s `uint16` `count` and `place` appear as arithmetic modulo 2^16.
  - `genBookFromTree`'s `int32` `count` and `uint32` code value appear as 32-bit patterns (`Shifted`).
- In the bit writer, and in `writeTo` through it, a Go runtime panic from an out-of-range index is modelled as the status `Panic`, together with the state at the point of the panic. In the Huffman code, the panics are excluded by preconditions that `NewBook`, their only caller, always meets (see Left out).

## Model

| member | source | states |
|---|---|---|
| Huffman.Combine | huffman/huffman.go:162-164 | the merged node has the two nodes as its children, the sum of their frequencies and value 0 |
| Huffman.SortFrom | huffman/huffman.go:146-152 | the in-place sort leaves the slice before `lo` alone and makes the rest a permutation of itself that is ordered by frequency (or by value) |
| Huffman.SortByPerm | huffman/huffman.go:146-152 | the reference sort returns a permutation of its input |
| Huffman.SortBySorted | huffman/huffman.go:146-152 | the reference sort returns a list ordered by the key |
| Huffman.LastAtMostSpec | huffman/huffman.go:32-43 | scanning down from `i`, every node passed has a frequency above the target; the scan stops at a node of frequency at most the target or at index 1 |
| Huffman.SearchIndex | huffman/huffman.go:28-45 | the reference result of `search`: 0 on one node or none, otherwise an index in `[1, len)` |
| Huffman.SearchIndexSpec | huffman/huffman.go:28-45 | the index `search` reaches has only heavier nodes after it, and is itself no heavier than the target unless it is 1 |
| Huffman.SearchIndexUnique | huffman/huffman.go:28-45 | that description fixes the index: any index with those two properties is the one `search` returns |
| Huffman.Search | huffman/huffman.go:28-45 | the loop with `test = max + min/2` terminates; on one node or none it returns 0; otherwise it returns an index in `[1, len)` past which all nodes are heavier than the target, and that index's node is no heavier unless the index is 1 |
| Huffman.SearchInsideSlice | huffman/huffman.go:67-70 | in the default case of the `switch` the insertion index lies in `[2, len-2]`, and the merged frequency falls between its node and the next one |
| Huffman.Step | huffman/huffman.go:58-73 | one round of `buildTree` on a list of at least two nodes leaves one node fewer |
| Huffman.StepSorted | huffman/huffman.go:57-73 | one round of `buildTree` leaves the list sorted by frequency |
| Huffman.StepPerm | huffman/huffman.go:58-73 | one round's list is the merged node plus `nodes[2:]`, reordered |
| Huffman.StepKeeps | huffman/huffman.go:58-73 | one round keeps the total frequency and the multiset of leaves, and keeps every tree well formed |
| Huffman.BuildKeeps | huffman/huffman.go:55-77 | the root's frequency is the sum of the input frequencies, its leaves are exactly the input leaves, and the tree is well formed (every internal node's frequency the sum of its children's) when the inputs are |
| Huffman.Pass | huffman/huffman.go:58-73 | one in-place round (the four `switch` cases, then `nodes = nodes[1:]`) leaves the slice's tail equal to `Step` of the slice |
| Huffman.ShiftBack | huffman/huffman.go:64-66 | the `copy` and store of the third case move the tail back one place and put the merged node last |
| Huffman.ShiftIn | huffman/huffman.go:67-70 | the `copy` and store of the default case put the merged node at `idx` and keep both neighbouring runs |
| Huffman.BuildTree | huffman/huffman.go:55-77 | after an unstable sort into some permutation sorted by frequency, the returned root is `Build` of that order |
| Huffman.SlowPass | huffman/huffman.go:81-86 | one re-sorting round keeps the total frequency, the leaves and well-formedness |
| Huffman.BuildTreeSlowly | huffman/huffman.go:80-89 | the root's frequency is the total of the inputs, its leaves are the inputs, and the tree is well formed |
| Canonical.LevelBeyond | huffman/huffman.go:101-110 | no level lies below the deepest leaf, so the level list stops growing |
| Canonical.LevelNonEmpty | huffman/huffman.go:101-110 | every level down to the deepest leaf has nodes |
| Canonical.LeafValsAscending | huffman/huffman.go:102-115 | a level sorted by value lists its leaves in ascending value |
| Canonical.SortedLeafVals | huffman/huffman.go:102 | any two value-sorted orders of a level list the same leaves in the same order, so the unstable sort cannot change the book |
| Canonical.BookOf | huffman/huffman.go:93-120 | the book has exactly `length` codes |
| Canonical.SortLevel | huffman/huffman.go:102 | `sort.Sort(byVal(...))` returns a permutation of the level sorted by value |
| Canonical.GenBookFromTree | huffman/huffman.go:93-120 | the nested loops over the growing `levels` with running `count` and `bitLength` produce `BookOf(t, length)` |
| Canonical.WalkLevels | huffman/huffman.go:101-117 | the outer loop ends at the first empty level, and the state it reaches is the walk's state up to there |
| Canonical.WalkLevel | huffman/huffman.go:102-116 | one level: children are appended as the next level, and leaves are visited in value order |
| Canonical.VisitLeaf | huffman/huffman.go:111-115 | one leaf: `count = (count+1) << (i-bitLength)` in 32-bit arithmetic, `bitLength = i`, and that code stored at the leaf's value |
| Canonical.NextLevel | huffman/huffman.go:102-110 | after a level is sorted, the walk grows by its leaves at that depth, and its children are the next level |
| Canonical.WalkEnds | huffman/huffman.go:101 | the loop ends exactly after the deepest level, and the codes it reaches are `BookOf` |
| Canonical.BuildSymbols | huffman/huffman.go:124-130 | building from any sorted order of the symbol leaves gives a well-formed tree with root frequency `sum(freq)`, the symbol leaves, and values below `len(freq)` |
| Canonical.HuffmanKeeps | huffman/huffman.go:124-130 | the tree `NewBook` builds has root frequency `sum(freq)`, has the leaves `{val: v, freq: freq[v]}` for every index `v`, each once, and is well formed |
| Canonical.NewBook | huffman/huffman.go:122-138 | for a non-empty `freq`, the book has `len(freq)` codes, the tree is one that `buildTree` can return for `freq` (for some order the unstable sort picks), and the book is that tree's canonical book |
| BookProofs.WalkEntries | huffman/huffman.go:101-117 | the complete walk visits every leaf of the tree once, at its depth |
| BookProofs.KraftTree | huffman/huffman.go:162-164 | because every internal node has two children, the leaves of a tree fill its code space exactly: the sum of 2^(D-depth) is 2^(D-d) |
| BookProofs.KraftLeaves | huffman/huffman.go:93-120 | any reordering of a tree's leaves, with their depths, meets Kraft's equality |
| BookProofs.KraftWalk | huffman/huffman.go:101-117 | the lengths the walk hands out meet Kraft's equality |
| BookCodes.KraftScale | huffman/huffman.go:112 | counting code space in words `e` bits longer multiplies it by 2^e, which is the `<< (i-bitLength)` step |
| BookCodes.CanonFits | huffman/huffman.go:112-114 | when the lengths fit the code space, each canonical value is below 2^length |
| BookCodes.FirstCount | huffman/huffman.go:99-112 | starting from `count = -1`, the first leaf gets code value 0 whatever its depth |
| BookCodes.NextCount | huffman/huffman.go:112 | for leaves in depth order, no deeper than 32 and fitting the code space (Kraft sum at most 1), `(count + 1) << (i - bitLength)` on the previous leaf's value is the next leaf's canonical value, and it fits 32 bits |
| BookCodes.RunState | huffman/huffman.go:99-116 | for leaves in depth order, no deeper than 32, fitting the code space and with distinct values below the book's length: after `k` leaves in walk order, `count` is the last leaf's canonical value, `bitLength` is its depth, and each leaf visited has its canonical value and its depth in the book |
| BookCodes.LaterAbove | huffman/huffman.go:112 | a later code, cut to an earlier code's length, is beyond the earlier code |
| BookCodes.PrefixFree | huffman/huffman.go:112-114 | in a list ordered by length, no code is a prefix of another |
| WalkOrder.SymbolVals | huffman/huffman.go:124-127 | the leaves `NewBook` starts from carry the values `0 .. len(freq)-1` in order |
| WalkOrder.WalkVals | huffman/huffman.go:124-127 | the complete walk names every symbol `0 .. len(freq)-1` exactly once |
| WalkOrder.Ordered | huffman/huffman.go:101-115 | the walk meets leaves by depth, and by value within a depth |
| BookSpec.CodeLengthIsDepth | huffman/huffman.go:112-114 | every leaf's code in the book is as long as the leaf is deep |
| BookSpec.BookPrefixFree | huffman/huffman.go:93-120 | no code of the book is a prefix of another symbol's code, comparing the top bits of the longer value with the shorter one; with `BookFits` this is prefix-freeness of the bit strings |
| BookSpec.BookFits | huffman/huffman.go:112-114 | every code value is below 2^length, so as a bit string of its length the code loses no bits, and the numeric prefix relation of `BookPrefixFree` is the prefix relation of the written codes |
| BookSpec.BookKraft | huffman/huffman.go:93-120 | the book's code lengths satisfy Kraft's equality: they fill the code space exactly |
| BookSpec.BookCanonical | huffman/huffman.go:93-120 | each code value is the canonical one of section 3.2.2 of RFC 1951: the code words of its length used up by the symbols that come before it (shorter, or as long with a smaller symbol) |
| BookSpec.BookAscending | huffman/huffman.go:102-116 | codes of equal length are in ascending symbol order |
| BookSpec.WalkCodes | huffman/huffman.go:93-120 | the book holds, for each leaf of the walk, its canonical value and its depth |
| BookExamples.OnlyOrder | huffman/huffman.go:56 | when all frequencies differ, the unstable sort has one outcome, and the tree is `Build` of it |
| BookExamples.FirstBook | huffman/huffman_test.go:12 | `{10, 5, 2, 1}` gives the book `{0,1} {2,2} {6,3} {7,3}` |
| BookExamples.SecondBook | huffman/huffman_test.go:13 | `{1000, 6, 5, 10, 1}` gives the book `{0,1} {6,3} {14,4} {2,2} {15,4}` |
| BookExamples.SingleBook | huffman/huffman.go:97-114 | a single symbol is a leaf at the root and gets code value 0 of length 0 |
| Encoder.BlockEncoder.constructor | encoder.go:38-43 | a new block encoder has empty input and the given capacity |
| Encoder.BlockEncoder.Write | encoder.go:25-36 | it takes the `min(len(in), capacity - len(input))` leading bytes of `in`, returns that count, never grows the input past capacity, and fills the block when bytes are left over |
| Encoder.MagicParts | encoder.go:64-65 | `bzip2BlockMagic >> 16` is `0x31415926` and `bzip2BlockMagic & (1<<17 - 1)` is `0x5359`; the 17-bit mask does no harm |
| Encoder.MagicBits | encoder.go:64-65 | the 32 high bits and then the 16 low bits of `0x314159265359` are its 48 bits, most significant first |
| Encoder.CrcBits | encoder.go:67-67 | the CRC placeholder `1<<32 - 1` is 32 one-bits |
| Encoder.HeaderLayout | encoder.go:63-69 | the header prefix is 81 bits: the 48-bit magic, 32 one-bits and a 0 bit |
| Encoder.WriteMagic | encoder.go:64-65 | with room in the cache, the bit stream grows by the 48 magic bits; with too little room the writer panics, and a closed writer takes nothing |
| Encoder.BlockEncoder.WriteTo | encoder.go:61-81 | with room for 81 bits, the bit stream grows by the magic, the CRC placeholder and the randomised bit; with less room it panics; on a closed writer nothing changes |
| Bwt.LexLeTotal | encoder.go:123 | Go's bytewise string order compares any two rows |
| Bwt.LexLeTrans | encoder.go:123 | the string order is transitive |
| Bwt.LexLeAntisym | encoder.go:123 | rows that compare both ways are equal |
| Bwt.SortStringsSpec | encoder.go:123 | the reference `sort.Strings` returns a sorted permutation of the rows |
| Bwt.SortedUnique | encoder.go:123 | any two sorted permutations of the same rows are equal, so an unstable sort is harmless |
| Bwt.FillRotations | encoder.go:119-122 | row `i` of the matrix is the input rotated right by `i` |
| Bwt.SortRows | encoder.go:123 | the rows end up sorted and are a permutation of the rows before |
| Bwt.LastColumn | encoder.go:124-126 | the output is the last byte of every row, in order |
| Bwt.Bwt | encoder.go:118-128 | the output is `BwtOf(in)`: the last column of the sorted rotations |
| Bwt.BwtPermutation | encoder.go:118-127 | the output is as long as the input and a permutation of its bytes (empty gives empty) |
| Bwt.BwtLastColumn | encoder.go:119-126 | output byte `k` is the last byte of the `k`-th rotation in sorted order, for any sorted order of the rotations |
| Bwt.AdjacentSorted | encoder.go:123 | rows sorted pair by pair are sorted |
| Bwt.BwtExample | writer_test.go:19-26 | `^BANANA|` gives `BNN^AA|A` |
| Mtf.UsedListSpec | encoder.go:134-145 | the front list starts as exactly the bytes that occur, in strictly ascending order, at most 256 of them |
| Mtf.IndexOf | encoder.go:150-151 | the search finds the first position holding the byte |
| Mtf.MoveToFrontAt | encoder.go:153-154 | after the move the byte is in front; the ones before it shift back one place; the rest stay |
| Mtf.MoveToFrontPerm | encoder.go:153-154 | the move keeps the list a permutation of itself, with the byte in front |
| Mtf.UnMtfMtf | encoder.go:148-159 | decoding the indices against the same start list gives back the input |
| Mtf.MtfBounds | encoder.go:148-159 | there is one output per input byte, each below the size of the list |
| Mtf.MtfRepeat | encoder.go:148-159 | a byte that repeats its predecessor is coded 0 |
| Mtf.MarkUsed | encoder.go:134-136 | `used[c]` is true exactly for the bytes that occur |
| Mtf.LayOut | encoder.go:138-145 | the first `count` entries of `frontlist` are the used bytes in ascending order |
| Mtf.Find | encoder.go:150-151 | the inner loop stops at the byte's first position in the list |
| Mtf.MoveFront | encoder.go:153-154 | the `copy` and store move entry `i` to the front of the array's list |
| Mtf.Mtf | encoder.go:132-162 | `used` marks exactly the bytes that occur, and the output is the move-to-front coding of the input against the ascending used list |
| Mtf.MtfSpec | encoder.go:132-162 | `len(out) == len(in)`; every output is below the number of distinct bytes; a repeat is coded 0; the coding can be undone |
| Mtf.MtfExample | writer_test.go:28-36 | `bananaaa` gives `[1, 1, 2, 1, 1, 1, 0, 0]` |
| ZeroRuns.Digits | encoder.go:174-182 | a run has digits exactly when it is not empty |
| ZeroRuns.DigitsAreRuns | encoder.go:174-182 | a run is written with RUNA and RUNB symbols only |
| ZeroRuns.ValueOfDigits | encoder.go:174-182 | the digits' weights (`place` for RUNA, `2·place` for RUNB, with `place = 1, 2, 4, …`) add up to the run length |
| ZeroRuns.DigitsOfValue | encoder.go:174-182 | a run's digits are the only RUNA/RUNB numeral of its length, so the numeral is bijective |
| ZeroRuns.EmitRun | encoder.go:174-185 | the digit loop on a 16-bit `count` emits the run's digits and leaves `count` at 0, so the panic cannot happen |
| ZeroRuns.DecodeEncodeWide | encoder.go:167-199 | with an unbounded counter, decoding the symbols after a pending run of `count` zeros gives that run and then the input |
| ZeroRuns.EncodeWideRoundTrip | encoder.go:167-199 | with an unbounded counter, decoding the output gives back the input, zero runs at the end included |
| ZeroRuns.EncodeAgrees | encoder.go:167-199 | while no run reaches 65536 zeros, the 16-bit coder matches the unbounded one |
| ZeroRuns.ShortRunsFit | encoder.go:168-172 | inputs shorter than 65536 bytes never overflow the counter |
| ZeroRuns.EncodeRoundTrip | encoder.go:167-199 | while runs are shorter than 65536, decoding `rleMTF`'s output gives back the input |
| ZeroRuns.EncodeZeros | encoder.go:170-172 | a run of `n` zeros adds `n` to the 16-bit counter, modulo 65536 |
| ZeroRuns.LongRunVanishes | encoder.go:168-172 | a run of a multiple of 65536 zeros before the byte 1 is coded as the single symbol 2, so the zeros are lost |
| ZeroRuns.RleMtf | encoder.go:167-200 | the loop's output is `Encode(0, in)`, the model of `rleMTF` with its 16-bit counter |
| ZeroRuns.RleMtfExample | writer_test.go:38-51 | `[0, 0, 0, 0, 0, 1, 0]` gives `[runA, runB, 2, runA]` |
| Bzip2.RunEnd | writer.go:192-194 | a run is cut at the first byte change, or once it is 255 bytes long, or at the end of the input |
| Bzip2.RleFromCut | writer.go:194-205 | a run closed by a byte change or by the 255 limit contributes its encoding, and the pass goes on from there |
| Bzip2.EncodeRunConstant | writer.go:198-203 | a closed run shorter than 4 is copied as it is; a run of length `L` in 4..255 becomes four copies of its byte and the byte `L-4` (at most 251) |
| Bzip2.RleStateSound | writer.go:192-206 | after each step of the loop, `out` and `count` are those of the runs closed so far and of the run still open |
| Bzip2.Rle | writer.go:189-211 | the loop returns `RleSpec(in)`, which is `([], [])` on empty input |
| Bzip2.RleFromDecodes | writer.go:192-206 | decoding `out` gives the input up to the start of the trailing run |
| Bzip2.RleDropsOneByte | writer.go:192-208 | for non-empty input, decoding `out` and then the first byte of the trailing run, followed by `leftovers`, gives the input: that byte is in neither result |
| Bzip2.RleLeftoversBound | writer.go:194-208 | `leftovers` is at most 254 bytes long |
| Bzip2.RleKeepingRun | writer.go:208 | the corrected pass: decoding `out` followed by the whole trailing run gives the input, and the carried-over run is at most 255 bytes |
| Bzip2.RleExample | writer_test.go:5-17 | `AAAAAAABBBBCCCDEE` gives `out = AAAA 3 BBBB 0 CCCD` and `leftovers = E` |
| Bzip2.Writer.constructor | writer.go:35-39 | a new stream writer has block size 9 and has not written its header |
| Bzip2.Writer.SetBlockSize | writer.go:162-171 | after writing has begun it refuses and changes nothing; for `n` outside 1..9 it refuses and changes nothing; otherwise it sets `blockSize = n` and returns no error |
| Bits.CacheBitAt | bit/bitwriter.go:42-44 | bit `k` of the cache is bit `7 - k mod 8` of byte `k / 8` (most significant first) |
| Bits.OrBit | bit/bitwriter.go:44 | OR-ing a 0/1 bit into a position sets that position at most, and leaves every other bit of the byte alone |
| Bits.StoreStep | bit/bitwriter.go:42-45 | one store keeps the cache clear past the written bits and appends the bit to the stream |
| Bits.HandOn | bit/bitwriter.go:76 | handing on `m` cache bytes hands on the bits written so far, padded with zero bits |
| Bits.Writer.constructor | bit/bitwriter.go:26-29 | a new bit writer has a zeroed 1024-byte cache, no bits, an empty sink, and is open |
| Bits.Writer.Store | bit/bitwriter.go:42-45 | with `k < 1024` bits cached, the bit is OR-ed into byte `k/8` at position `7 - k mod 8`, no other byte changes, and the stream grows by that bit |
| Bits.Writer.WriteBit | bit/bitwriter.go:32-48 | a closed writer refuses and nothing changes; below 1024 cached bits it stores the bit and the stream grows by it; at 1024 it flushes all 1024 cache bytes and then panics on the empty cache |
| Bits.Writer.WriteBits32 | bit/bitwriter.go:51-61 | more than 32 bits is an error and nothing changes; otherwise it writes bits `count-1` down to 0 of `b`, ignores `WriteBit`'s errors and returns `n = 0`; running past 1024 bits panics |
| Bits.Writer.Flush | bit/bitwriter.go:64-88 | with no bits it does nothing; otherwise it hands on the cache (all but the last byte when the bit count is not a multiple of 8, which then panics) and leaves an empty cache |
| Bits.Writer.Close | bit/bitwriter.go:91-96 | it hands on the whole cache slice (the written bits and zeros up to 8192 bits) and marks the writer closed, whether or not it was closed already |
| Bits.Writer.FlushFixed | bit/bitwriter.go:64-88 | the corrected flush: it hands on only the whole bytes written, keeps the partial byte, and leaves the stream unchanged |
| Bits.Writer.WriteBitFixed | bit/bitwriter.go:32-48 | the corrected write: every bit written to an open writer is appended to the stream, a full cache included |
| Bits.Writer.CloseFixed | bit/bitwriter.go:91-96 | the corrected close: it hands on the written bits padded to a whole byte, and nothing more |

## Left out

- The goroutine and channel pipeline of `writer.go` is not modelled, because its point is concurrency and hand-off:
  - `Writer.Write`, whose code after the `return` at line 50 is dead;
  - `setUp`, `rlePipeline`, `chunker`, `encodeAsync` and `writePipeline`;
  - `Writer.Close`;
  - everything of `NewWriter` except the two fields `SetBlockSize` reads.
- `chunker`'s `copy` into a zero-length slice (writer.go:109) is not modelled.
- `blockEncoder.encode` only chains the stages and prints. It is not modelled, and neither is any `fmt.Println` tracing or `String()` formatter.
- `rle_tmp` is an unused near-duplicate of `rle` and is not modelled.
- The underlying `io.Writer` is a sequence `sink` that bytes are appended to. Short writes and write errors (bit/bitwriter.go:83-85) are not modelled: every write succeeds.
- What the source does not implement is not invented:
  - no cap on code lengths (the TODO at huffman.go:132);
  - no BWT origin pointer;
  - no CRC;
  - none of the header fields that are only comments at encoder.go:70-78.
- The algorithm inside `sort.Sort` and `sort.Strings` is not modelled. Each sort is specified by its outcome only: some sorted permutation.
- Huffman frequencies and their sums are unbounded integers. Go's `int` would wrap past 2^63.
- Canonical.NewBook: requires a non-empty `freq`, because on an empty slice `buildTree` indexes `nodes[0]` and panics.
- BookSpec.CodeLengthIsDepth: proved only for trees of height at most 32. Deeper trees make the 32-bit `count` wrap; the source has no length cap to prevent that. The limit is easy to exceed: zero frequencies are kept, and `buildTree` chains them (a merged zero node stays at index 1 and meets the next zero), so 33 zero entries and one nonzero entry already give a tree of height 33. The book of such a tree is not covered by these lemmas, and for deeper codes the high bits of the code value are lost.
- BookSpec.BookPrefixFree: same limit, trees of height at most 32.
- BookSpec.BookKraft: same limit, trees of height at most 32.
- BookSpec.BookCanonical: same limit, trees of height at most 32.
- BookSpec.BookAscending: same limit, trees of height at most 32.
- BookSpec.WalkCodes: same limit, trees of height at most 32.
- BookSpec.BookFits: same limit, trees of height at most 32.
- ZeroRuns.EncodeRoundTrip: proved only while every zero run is shorter than 65536, because the 16-bit counter wraps beyond that (see Findings).
- Huffman.BuildTree: requires at least one node, because on an empty slice `return nodes[0]` (huffman.go:76) panics; the model has no panic outcome there. It also returns the order the unstable sort picked as a ghost value, not the sorting steps.
- Huffman.BuildTreeSlowly: requires at least one node, because on an empty slice `return nodes[0]` (huffman.go:88) panics.
- Canonical.GenBookFromTree: requires every leaf value of the tree to be below `length`, because otherwise the store `book.Codes[n.val]` (huffman.go:114) panics. The specification function `Visit` makes such a store a no-op instead; only trees that break this requirement reach that case, and `NewBook` never builds one.

## Findings

| source | as written | input that shows it | evidently intended | confidence | as-written member | corrected member |
|---|---|---|---|---|---|---|
| writer.go:208 | `leftovers` is `in[len(in)-count:]`, but `count` is the trailing run's length minus one, so that run's first byte is in neither `out` nor `leftovers` | `AAAAAAABBBBCCCDEE`: leftovers `E`, while the test names `EE` | carry the whole trailing run over | high, not executed | Bzip2.RleDropsOneByte | Bzip2.RleKeepingRun |
| bit/bitwriter.go:36-45 | at 1024 cached bits `flush` leaves a zero-length cache, and the store that follows indexes it out of range | 1025 `WriteBit` calls on a new writer | flush, then store the bit at the front of a cleared cache | high, not executed | Bits.Writer.WriteBit | Bits.Writer.WriteBitFixed |
| bit/bitwriter.go:76 | `flush` hands on all 1024 cache bytes, though 1024 bits fill only 128 of them | 1024 `WriteBit` calls, then one more: 8192 bits reach the sink, 7168 of them zero padding | hand on only the bytes written | high, not executed | Bits.Writer.Flush | Bits.Writer.FlushFixed |
| bit/bitwriter.go:92 | `Close` hands on the whole 1024-byte cache | one `WriteBit` and `Close` on a new writer: 8192 bits reach the sink | hand on the written bits padded to a whole byte | high, not executed | Bits.Writer.Close | Bits.Writer.CloseFixed |
| encoder.go:168 | the zero-run counter is a `uint16` and wraps at 65536 | 65536 zeros and then a 1 give `[2]` alone | encode runs of any length (a block can hold 900 000 zeros) | medium, not executed | ZeroRuns.LongRunVanishes | ZeroRuns.EncodeWideRoundTrip |
