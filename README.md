# stream-lib.net core, modelled in Dafny

This project models the data structures and codecs underneath the cardinality estimators
of stream-lib.net, a C# library of probabilistic stream algorithms:

- **`RegisterSet`** — HyperLogLog registers, six 5-bit registers packed into each 32-bit
  word: get, set, raise-if-greater and register-wise maximum merge.
- **`LinearCounter`** — the linear-time probabilistic counter of Whang et al. Hashes set
  bits of a byte bitmap. Covers the count of unset bits, merging by bytewise OR, and the
  factory sizing rules.
- **`TempSet`** — a jagged `uint` array with rows of 8000. Covers its row bookkeeping,
  row-wise copy, the k-way merge sort `SortTempSet` and `SequenceEqual`.
- **`ChunkedArray<T>`** — a jagged array with rows of 8192. Covers its layout arithmetic,
  growth by `AddChunk`, enumeration, reset, copy and comparison, and its introspective sort
  (insertion sort, median-of-three quicksort, heapsort).
- **`Varint`** — the 7-bit-group variable-length encoding of a `uint`.
- **`ReadOnlyMemoryStream` and `WriteOnlyMemoryStream`** — the byte streams the codecs
  read from and write to.
- **Bit utilities** — `Bits.GetBits`, `HashCode.ForArray`, and the leading-zero counts of
  `UInt32` and `UInt64`.

How the C# is modelled:

- Classes whose fields the C# updates in place are Dafny classes. Their arrays are Dafny
  arrays.
- A jagged array is a sequence of row arrays plus a ghost `contents` sequence. An
  invariant ties the two together.
- Each loop is a method with invariants, proved against a specification function. The
  algebraic properties (round trips, commutativity, permutation) are lemmas about those
  functions.
- C# integer widths are explicit: `bv32` and `uint32` words, `% 2^32` wrap-around, and the
  `int` reading of a word.

## Model

| member | source | states |
|---|---|---|
| FixedWidth.AsInt32Wraps | src/StreamLib/Utils/HashCode.cs:13 | `(int)` of a word is its two's-complement reading: congruent to the word modulo 2^32 and within the `int` range |
| FixedWidth.LittleEndianBytesInverse | src/StreamLib/Utils/Streams/ReadOnlyMemoryStream.cs:56 | splitting a word into four little-endian bytes and reassembling them gives the word back |
| ArrayCopy.Copy | src/StreamLib/Utils/Streams/ReadOnlyMemoryStream.cs:40 | `Array.Copy` of `n` elements: the destination becomes the old destination with the source range spliced in at the index |
| ArrayCopy.CopyBackward | src/StreamLib/Utils/Streams/ReadOnlyMemoryStream.cs:33-38 | the byte-by-byte copy loop, last byte first, leaves the same destination as `Array.Copy` |
| Varint.WriteUInt32 | src/StreamLib/Utils/Varint.cs:35-43 | the stream receives exactly `Encode(value)` at its position: low 7-bit groups first, the high bit set on all but the last byte |
| Varint.ReadUInt32 | src/StreamLib/Utils/Varint.cs:11-33 | the outcome is `Decode` of the unread bytes: the value and the bytes consumed, Truncated when the input ends, Malformed after ten continuation bytes; the stream position advances accordingly |
| Varint.SkipHighGroups | src/StreamLib/Utils/Varint.cs:24-32 | the second loop consumes up to five more bytes, ignores their bits and stops at the first byte without the continuation flag |
| Varint.EncodeSize | src/StreamLib/Utils/Varint.cs:37-42 | the encoding has 1 to 5 bytes, by thresholds 2^7, 2^14, 2^21, 2^28; a value below 128 is the single byte itself |
| Varint.EncodeSizeIsGroupCount | src/StreamLib/Utils/Varint.cs:37-42 | the encoded length is the number of 7-bit groups of the value's bit length (at least one) |
| Varint.EncodeFlags | src/StreamLib/Utils/Varint.cs:37-42 | the last byte of an encoding has the continuation bit clear and every earlier byte has it set |
| Varint.DecodeEncode | src/StreamLib/Utils/Varint.cs:11-43 | decoding an encoding, followed by anything, gives the value back and consumes exactly the encoding |
| Varint.DecodeShape | src/StreamLib/Utils/Varint.cs:11-33 | decoding stops at the first byte without the continuation flag: Value when it is within the first ten bytes, Truncated when the input ends first, Malformed otherwise |
| Varint.DecodeKeptBits | src/StreamLib/Utils/Varint.cs:15-31 | the decoded outcome depends only on the flag bits and the payload bits that fit in 32 bits |
| Varint.WriteThenRead | src/StreamLib.Tests/Utils/VarintTests.cs:13-29 | writing any `uint` to a fresh write stream, copying it out with `ToArray` and reading it back with a read stream gives the same number |
| HashCode.ForArray | src/StreamLib/Utils/HashCode.cs:6-15 | the result is the `int` reading of the fold `h := h * 31 ^ v` over the words in `uint` arithmetic, starting from 0 |
| HashCode.HashOfEmpty | src/StreamLib/Utils/HashCode.cs:10-13 | the empty array hashes to 0 |
| HashCode.HashOfSingle | src/StreamLib/Utils/HashCode.cs:10-13 | a one-word array hashes to the word itself |
| HashCode.FoldAppend | src/StreamLib/Utils/HashCode.cs:11-12 | folding a concatenation folds the second part from the hash of the first |
| HashCode.HashSnoc | src/StreamLib/Utils/HashCode.cs:11-12 | appending one word applies one step `h * 31 ^ v` to the hash |
| UInt32.CascadeStage | src/StreamLib/Utils/UInt32.cs:30-33 | one test-and-shift stage adds `k` to the count exactly when the top `k` bits of the word are clear, and keeps count plus bit length constant |
| UInt32.NumberOfLeadingZeros | src/StreamLib/Utils/UInt32.cs:26-36 | the result is the number of zero digits before the first one in the 32-digit binary numeral, and 32 minus the bit length (32 for zero) |
| UInt32.LeadingZerosIsWidthMinusBitLength | src/StreamLib/Utils/UInt32.cs:26-36 | counting the leading '0' digits of a `width`-digit numeral gives `width` minus the bit length |
| UInt32.LeadingZerosOfZero | src/StreamLib/Utils/UInt32.cs:27 | zero has 32 leading zeros |
| UInt32.LeadingZerosBracket | src/StreamLib/Utils/UInt32.cs:26-36 | for non-zero `x` with `n` leading zeros, 2^(31-n) <= x < 2^(32-n), so floor(log2 x) = 31 - n |
| UInt32.CeilLog2ViaLeadingZeros | src/StreamLib/Utils/UInt32.cs:26-36 | for `x >= 1`, `32 - NumberOfLeadingZeros(x - 1)` is the least `k` with x <= 2^k |
| UInt64.NumberOfLeadingZeros | src/StreamLib/Utils/UInt64.cs:12-23 | the result is the leading-zero count of the 64-digit numeral, 64 minus the bit length (64 for zero) |
| UInt64.LeadingZerosSplit | src/StreamLib/Utils/UInt64.cs:15-16 | a value whose high word is zero has 32 more leading zeros than its low word as a 32-bit word; otherwise it has as many as its high word |
| UInt64.LeadingZerosOfZero | src/StreamLib/Utils/UInt64.cs:13 | zero has 64 leading zeros |
| UInt64.LeadingZerosBracket | src/StreamLib/Utils/UInt64.cs:12-23 | for non-zero `x` with `n` leading zeros, 2^(63-n) <= x < 2^(64-n) |
| Bits.GetBits | src/StreamLib/Utils/Bits.cs:5-25 | a fresh array of `Length / 4` words, word `k` being bytes `4k..4k+3` read little-endian; trailing bytes are ignored |
| Bits.WordsAt | src/StreamLib/Utils/Bits.cs:16-21 | word `k` of the result is the little-endian word at byte `4k` |
| Bits.WordsOfBytes | src/StreamLib/Utils/Bits.cs:5-25 | reading back the little-endian bytes of any words, with any tail, gives the words |
| Bits.WordsIgnoreTail | src/StreamLib/Utils/Bits.cs:7 | appending bytes after a multiple of four does not change the words read |
| Registers.SetThenGet | src/StreamLib/Cardinality/RegisterSet.cs:34-46 | after writing a 5-bit value into slot `j` of a word, reading slot `j` gives the value |
| Registers.SetKeepsOthers | src/StreamLib/Cardinality/RegisterSet.cs:34-46 | writing slot `j` leaves every other slot of the word unchanged |
| Registers.UpdateTest | src/StreamLib/Cardinality/RegisterSet.cs:52-57 | comparing the masked word with the shifted value is comparing the register with the value |
| Registers.MergeWordField | src/StreamLib/Cardinality/RegisterSet.cs:69-76 | every register of a merged word is the maximum of the two registers |
| Registers.MergeWordCommutes | src/StreamLib/Cardinality/RegisterSet.cs:65-79 | merging words is commutative |
| Registers.MergeWordAssociates | src/StreamLib/Cardinality/RegisterSet.cs:65-79 | merging words is associative |
| Registers.MergeWordIdempotent | src/StreamLib/Cardinality/RegisterSet.cs:65-79 | merging the same word in again changes nothing |
| Registers.GetSizeForCount | src/StreamLib/Cardinality/RegisterSet.cs:26-32 | the word count as written: at least one word |
| Registers.GetSizeForCountTooSmall | src/StreamLib/Cardinality/RegisterSet.cs:26-32 | as written, 194 registers get 32 words, which hold only 192 registers |
| Registers.SizeForCount | src/StreamLib/Cardinality/RegisterSet.cs:26-32 | the corrected word count: the fewest words whose six slots each hold `count` registers |
| Registers.GetSizeForCountAgrees | src/StreamLib/Cardinality/RegisterSet.cs:26-32 | the as-written count is short of the corrected one exactly when `count / 6` is a non-zero multiple of 32 and `count` is not a multiple of 6, and then by one word |
| Registers.SetRegisterGet | src/StreamLib/Cardinality/RegisterSet.cs:34-46 | after `Set(position, v)` with a 5-bit `v`, `Get(position)` is `v` |
| Registers.SetRegisterKeeps | src/StreamLib/Cardinality/RegisterSet.cs:34-46 | `Set` changes no other register |
| Registers.RaisesIffBelow | src/StreamLib/Cardinality/RegisterSet.cs:55-57 | `UpdateIfGreater` writes exactly when the register is below the value |
| Registers.UpdateRegisterGet | src/StreamLib/Cardinality/RegisterSet.cs:48-63 | after `UpdateIfGreater` the register is the maximum of its old value and the new one |
| Registers.UpdateRegisterKeeps | src/StreamLib/Cardinality/RegisterSet.cs:48-63 | `UpdateIfGreater` changes no other register |
| Registers.RegisterSet.constructor | src/StreamLib/Cardinality/RegisterSet.cs:15-19 | a fresh array of zero words, of the corrected `SizeForCount(count)` length |
| Registers.RegisterSet.WithValues | src/StreamLib/Cardinality/RegisterSet.cs:15-19 | given initial values, the set shares that array |
| Registers.RegisterSet.Get | src/StreamLib/Cardinality/RegisterSet.cs:41-46 | the 5-bit register `position % 6` of word `position / 6` |
| Registers.RegisterSet.Set | src/StreamLib/Cardinality/RegisterSet.cs:34-39 | the words become `SetRegister` of the old words; a 5-bit value reads back and every other register is unchanged |
| Registers.RegisterSet.UpdateIfGreater | src/StreamLib/Cardinality/RegisterSet.cs:48-63 | returns whether the register was below the value; the register becomes their maximum and every other register is unchanged |
| Registers.RegisterSet.Merge | src/StreamLib/Cardinality/RegisterSet.cs:65-79 | every word becomes the register-wise maximum of the two words; every register becomes the maximum of the two registers |
| Registers.MergeBucket | src/StreamLib/Cardinality/RegisterSet.cs:69-76 | the inner loop over the six slots computes `MergeWord` |
| LinearCounting.BitCount | src/StreamLib/Cardinality/LinearCounter.cs:60 | the number of set bits of a byte, at most 8 |
| LinearCounting.BitCountSetBit | src/StreamLib/Cardinality/LinearCounter.cs:126-129 | setting a clear bit adds one to the byte's bit count |
| LinearCounting.OnesUpdate | src/StreamLib/Cardinality/LinearCounter.cs:128 | replacing one byte changes the bitmap's set-bit count by the difference of the two bytes' counts |
| LinearCounting.OnesFull | src/StreamLib/Cardinality/LinearCounter.cs:136-143 | a bitmap has no clear bit exactly when every byte is 0xFF |
| LinearCounting.SetBitBits | src/StreamLib/Cardinality/LinearCounter.cs:122-128 | after setting bit `k`, bit `k` is set and every other bit is as before |
| LinearCounting.ZerosSetBit | src/StreamLib/Cardinality/LinearCounter.cs:126-132 | setting a clear bit removes exactly one clear bit; setting a set bit changes nothing |
| LinearCounting.OrAllBit | src/StreamLib/Cardinality/LinearCounter.cs:148-168 | a bit of the merged bitmap is set exactly when it is set in some input |
| LinearCounting.OrAllSameElements | src/StreamLib/Cardinality/LinearCounter.cs:148-168 | merging depends only on which bitmaps take part, not on their order or repetition |
| LinearCounting.OrAllIdempotent | src/StreamLib/Cardinality/LinearCounter.cs:148-168 | merging the bitmaps with themselves again changes nothing |
| LinearCounting.OrAllSetBit | src/StreamLib/Cardinality/LinearCounter.cs:120-168 | offering a hash to one input and then merging equals merging and then offering it to the result |
| LinearCounting.BytesForBits | src/StreamLib/Cardinality/LinearCounter.cs:113 | `Math.Ceiling(bits / 8D)`: the fewest bytes holding `bits` bits |
| LinearCounting.CreateWithError | src/StreamLib/Cardinality/LinearCounter.cs:72-81 | refuses `eps` outside (0, 1) and a zero cardinality; otherwise the bitmap holds the required bits |
| LinearCounting.CreateWithOnePercentError | src/StreamLib/Cardinality/LinearCounter.cs:87-115 | refuses zero; 630 bytes below 100; above 120 000 000 the bytes holding a twelfth of the cardinality in bits |
| LinearCounting.OrInto | src/StreamLib/Cardinality/LinearCounter.cs:163-164 | the byte loop ORs the bitmap into the merged bytes |
| LinearCounting.OfferStep | src/StreamLib/Cardinality/LinearCounter.cs:122-128 | the byte and mask test is the bit test, and writing `b | mask` back is setting the bit |
| LinearCounting.AllBitsSet | src/StreamLib/Cardinality/LinearCounter.cs:136-143 | every bit of a bitmap is set exactly when every byte is 0xFF |
| LinearCounting.CountStep | src/StreamLib/Cardinality/LinearCounter.cs:59-60 | one round of the wrapped bit-count sum adds the next byte's count |
| LinearCounting.CountDone | src/StreamLib/Cardinality/LinearCounter.cs:61 | subtracting the wrapped count gives the wrapped difference, which is the number of clear bits when the bit count did not wrap |
| LinearCounting.BlankHasNoOnes | src/StreamLib/Cardinality/LinearCounter.cs:38-43 | a fresh bitmap has no set bit |
| LinearCounting.LinearCounter.constructor | src/StreamLib/Cardinality/LinearCounter.cs:38-43 | a blank bitmap of `size` bytes; the bit count is `8 * size` in `uint` arithmetic and every bit is unset |
| LinearCounting.LinearCounter.FromBitmap | src/StreamLib/Cardinality/LinearCounter.cs:49-54 | shares the bitmap; the unset count is the bit count minus the set bits, both wrapped |
| LinearCounting.LinearCounter.CalcUnsetBits | src/StreamLib/Cardinality/LinearCounter.cs:56-62 | the bit count minus the set bits in `uint` arithmetic, which is the number of clear bits when the bit count did not wrap |
| LinearCounting.LinearCounter.OfferHashed | src/StreamLib/Cardinality/LinearCounter.cs:120-133 | sets bit `hash % bits`; returns whether it was clear and counts it off `UnsetBits` if so; the counter stays valid |
| LinearCounting.LinearCounter.SaturatedCardinality | src/StreamLib/Cardinality/LinearCounter.cs:136-142 | a non-empty counter with no clear bit reports `ulong.MaxValue` |
| LinearCounting.LinearCounter.SaturatedIffFull | src/StreamLib/Cardinality/LinearCounter.cs:136-142 | a valid counter is saturated exactly when its bitmap is non-empty and every bit is set |
| LinearCounting.LinearCounter.MergeAll | src/StreamLib/Cardinality/LinearCounter.cs:148-168 | refuses an empty list and bitmaps of differing lengths (both directions); otherwise a fresh counter over the bytewise OR of all bitmaps |
| LinearCounting.LinearCounter.MergeWith | src/StreamLib/Cardinality/LinearCounter.cs:171-180 | `MergeAll` of the others followed by this counter: never the empty-list error; refuses exactly a length mismatch; otherwise a fresh counter over the OR of all the bitmaps, valid below 2^29 bytes |
| Chunked.LayoutFor | src/StreamLib/Utils/ChunkedArray.cs:38-57 | the constructor's layout: `(0, 0)` for the empty array, otherwise the row count and a last row of 1 to 8192 elements |
| Chunked.LayoutForExtent | src/StreamLib/Utils/ChunkedArray.cs:38-57 | a layout covers exactly the elements it was made for |
| Chunked.SetSizeLayoutAgrees | src/StreamLib/Utils/ChunkedArray.cs:189-195 | for a positive size, `SetSize` computes the constructor's layout |
| Chunked.SetSizeZeroAsWritten | src/StreamLib/Utils/ChunkedArray.cs:189-195 | as written, `SetSize(0)` leaves the layout `(0, 8192)`, which covers 8192 elements |
| Chunked.ChunkedArray.constructor | src/StreamLib/Utils/ChunkedArray.cs:31-89 | `size` elements of `default(T)` in rows of 8192, the last row holding the rest; only an empty array may grow |
| Chunked.ChunkedArray.Get | src/StreamLib/Utils/ChunkedArray.cs:278-283 | element `i`, from row `i >> 13`, column `i & 0x1FFF` |
| Chunked.ChunkedArray.Set | src/StreamLib/Utils/ChunkedArray.cs:284-287 | element `i` becomes `v` and every other element stays |
| Chunked.ChunkedArray.SetSize | src/StreamLib/Utils/ChunkedArray.cs:183-196 | refuses a size above the capacity; otherwise the length becomes `size`, with the layout of `size` elements; no element changes |
| Chunked.ChunkedArray.ResetToSize | src/StreamLib/Utils/ChunkedArray.cs:198-216 | refuses a size above the capacity; otherwise the first `size` elements become the initial value and the rest stay |
| Chunked.ChunkedArray.AddChunk | src/StreamLib/Utils/ChunkedArray.cs:128-154 | refuses an array not created empty; otherwise capacity and length grow by 8192 and the rows are resized to the row count with a fresh last row: an append while the layout covers every row, after which the layout covers the whole capacity; a loss of rows after a shrinking `SetSize` |
| Chunked.AddChunkAfterShrink | src/StreamLib/Utils/ChunkedArray.cs:128-154 | grow twice, `SetSize(100)`, grow again: three rows of capacity but only two rows held |
| Chunked.AddChunkAfterPartialRow | src/StreamLib/Utils/ChunkedArray.cs:128-154 | grow twice, `SetSize(8193)`, grow again: all three rows held, but the length 16385 falls short of the 24576 places the layout covers, so the array invariant fails |
| Chunked.ChunkedArray.GetEnumerator | src/StreamLib/Utils/ChunkedArray.cs:156-170 | yields exactly the first `length` elements, in order |
| Chunked.ChunkedArray.Enumerate | src/StreamLib/Utils/ChunkedArray.cs:161-169 | walking a layout yields the elements it covers, in order |
| Chunked.EnumerateAfterSetSizeZero | src/StreamLib/Utils/ChunkedArray.cs:161-169 | after `SetSize(0)` as written, an 8192-element array still yields 8192 stale elements |
| Chunked.ChunkedArray.CopyFrom | src/StreamLib/Utils/ChunkedArray.cs:232-244 | refuses an index above the capacity; otherwise the length becomes `validIndex`, the first `validIndex` elements are the source's, and the rest stay |
| Chunked.ChunkedArray.SequenceEqual | src/StreamLib/Utils/ChunkedArray.cs:246-270 | true exactly when the lengths are equal and so are the first `length` elements |
| Chunked.ChunkedArray.GetPart | src/StreamLib/Utils/ChunkedArray.cs:116-126 | a fresh array holding the `length` elements from `from` |
| Chunked.ChunkedArray.CreateFromArray | src/StreamLib/Utils/ChunkedArray.cs:219-230 | a fresh chunked array with exactly the source's elements, length and capacity |
| ChunkedSort.FloorLog2 | src/StreamLib/Utils/ChunkedArray.cs:314-323 | the number of halvings to reach 0, which is the bit length: 2^(r-1) <= n < 2^r (0 for n <= 0) |
| ChunkedSort.Swap | src/StreamLib/Utils/ChunkedArray.cs:345-353 | the two elements are exchanged and nothing else changes |
| ChunkedSort.SwapIfGreater | src/StreamLib/Utils/ChunkedArray.cs:332-343 | the elements become `SwappedIfGreater` of the old ones |
| ChunkedSort.SwapIfGreaterOrders | src/StreamLib/Utils/ChunkedArray.cs:332-343 | afterwards the two are in order, as a permutation of the range between them |
| ChunkedSort.ThreeSwappedOrders | src/StreamLib/Utils/ChunkedArray.cs:380-386 | the three `SwapIfGreater` calls sort three elements |
| ChunkedSort.Sort | src/StreamLib/Utils/ChunkedArray.cs:327-330 | `[index, index + length)` ends ascending and a permutation of what it held; nothing outside changes |
| ChunkedSort.IntrospectiveSort | src/StreamLib/Utils/ChunkedArray.cs:355-362 | fewer than two elements: no change; otherwise the range ends ascending and a permutation |
| ChunkedSort.IntroSort | src/StreamLib/Utils/ChunkedArray.cs:364-404 | `[lo, hi]` ends ascending and a permutation, for any depth limit |
| ChunkedSort.SortSmall | src/StreamLib/Utils/ChunkedArray.cs:369-390 | ranges of 2 to 16 elements end ascending and a permutation |
| ChunkedSort.PickPivotAndPartition | src/StreamLib/Utils/ChunkedArray.cs:406-434 | returns `p` strictly inside the range; nothing before `p` exceeds the pivot, nothing after is below it, and the range is a permutation |
| ChunkedSort.Heapsort | src/StreamLib/Utils/ChunkedArray.cs:436-448 | `[lo, hi]` ends ascending and a permutation |
| ChunkedSort.DownHeap | src/StreamLib/Utils/ChunkedArray.cs:450-467 | sifting node `i` down makes its subtree a heap, as a permutation |
| ChunkedSort.HeapRootMax | src/StreamLib/Utils/ChunkedArray.cs:443-447 | the root of a heap is at least every element of it |
| ChunkedSort.InsertionSort | src/StreamLib/Utils/ChunkedArray.cs:469-484 | `[lo, hi]` ends ascending and a permutation |
| TempSetMerge.LastLength | src/StreamLib/Cardinality/TempSet.cs:22-23 | the last row holds what remains after the full rows: fewer than 8000 elements |
| TempSetMerge.ExhaustedSum | src/StreamLib/Cardinality/TempSet.cs:71-101 | when every row is used up, the positions add up to the length |
| TempSetMerge.CountBelowIsMultiset | src/StreamLib/Cardinality/TempSet.cs:71-101 | the per-value count of a prefix is its multiset multiplicity |
| TempSetMerge.TakenExhausted | src/StreamLib/Cardinality/TempSet.cs:71-101 | once every row is used up, the values taken are those of the first `Length` elements |
| TempSetMerge.MergeStart | src/StreamLib/Cardinality/TempSet.cs:66-69 | all positions at 0 with nothing written is a merge state |
| TempSetMerge.SkipLands | src/StreamLib/Cardinality/TempSet.cs:73-78 | while elements remain, skipping used-up rows stops at a row with elements left |
| TempSetMerge.MergeAdvance | src/StreamLib/Cardinality/TempSet.cs:80-100 | writing the smallest head and advancing its row keeps the output sorted and equal to the values taken |
| TempSetMerge.MergeDone | src/StreamLib/Cardinality/TempSet.cs:71-103 | after `Length` rounds the output is a rearrangement of the first `Length` elements |
| TempSetMerge.AsWrittenAgreesFromRowZero | src/StreamLib/Cardinality/TempSet.cs:80-97 | the as-written pick is right while the scan starts at row 0 |
| TempSetMerge.SortTempSetAsWrittenRepeats | src/StreamLib/Cardinality/TempSet.cs:81-99 | as written, 8000 zeros followed by 1, 2 sort to 8000 zeros then 1, 1: not a rearrangement |
| TempSets.TempSet.constructor | src/StreamLib/Cardinality/TempSet.cs:19-32 | `size / 8000` full rows and a last row of the rest, every element 0 |
| TempSets.TempSet.Get | src/StreamLib/Cardinality/TempSet.cs:151-156 | element `i`, from row `i / 8000`, column `i - row * 8000` |
| TempSets.TempSet.Set | src/StreamLib/Cardinality/TempSet.cs:157-162 | element `i` becomes `v` and every other element stays |
| TempSets.TempSet.SetSize | src/StreamLib/Cardinality/TempSet.cs:34-39 | the length becomes `size`, with the row count and last-row length of `size` elements |
| TempSets.TempSet.CopyFrom | src/StreamLib/Cardinality/TempSet.cs:41-53 | the length becomes `validIndex`, the first `validIndex` elements are the source's, and the rest stay |
| TempSets.TempSet.SequenceEqual | src/StreamLib/Cardinality/TempSet.cs:106-131 | corrected: true exactly when the lengths are equal and so are the first `Length` elements |
| TempSets.TempSet.SequenceEqualAsWritten | src/StreamLib/Cardinality/TempSet.cs:106-131 | as written: true exactly when the lengths are equal and so are the full rows; the last row is never compared |
| TempSets.SequenceEqualAsWrittenMissesLastRow | src/StreamLib/Cardinality/TempSet.cs:126 | `[1]` and `[2]` agree on their full rows, yet differ; every set shorter than a row agrees on its full rows with any other |
| TempSets.TempSet.LastRowEqual | src/StreamLib/Cardinality/TempSet.cs:123-128 | corrected: true exactly when the two sets agree on the last row's elements |
| TempSets.RowsEqual | src/StreamLib/Cardinality/TempSet.cs:117 | `SequenceEqual` of two rows: true exactly when their contents are equal |
| TempSets.TempSet.SortTempSet | src/StreamLib/Cardinality/TempSet.cs:55-104 | returns a fresh set of `Length` elements, ascending, holding exactly the first `Length` elements; leaves this set's rows each sorted and a rearrangement |
| TempSets.TempSet.SortRows | src/StreamLib/Cardinality/TempSet.cs:57-64 | every row ends sorted, and the first `Length` elements are a rearrangement |
| TempSets.TempSet.Merge | src/StreamLib/Cardinality/TempSet.cs:66-101 | with sorted rows, the k-way merge fills the new set ascending with exactly the first `Length` elements |
| TempSets.TempSet.SkipExhausted | src/StreamLib/Cardinality/TempSet.cs:73-78 | `start_t` advances to the first row with elements left; every row before it is used up |
| TempSets.TempSet.SmallestHead | src/StreamLib/Cardinality/TempSet.cs:80-97 | corrected: the smallest remaining head and a row that holds it |
| TempSets.TempSet.SmallestHeadAsWritten | src/StreamLib/Cardinality/TempSet.cs:80-97 | as written: the smallest head, but row 0 reported unless a later row's head is strictly smaller |
| TempSets.InsertionSort | src/StreamLib/Cardinality/TempSet.cs:59-64 | the rows' sort: `[lo, hi]` ends ascending and a permutation |
| ReadOnlyStream.ReadOnlyMemoryStream.constructor | src/StreamLib/Utils/Streams/ReadOnlyMemoryStream.cs:15-19 | reads the given bytes from the start |
| ReadOnlyStream.ReadOnlyMemoryStream.Available | src/StreamLib/Utils/Streams/ReadOnlyMemoryStream.cs:28-31 | the bytes `Read` delivers: what is left, at most `count`; zero exactly when nothing is left or `count <= 0` |
| ReadOnlyStream.ReadOnlyMemoryStream.Read | src/StreamLib/Utils/Streams/ReadOnlyMemoryStream.cs:26-44 | copies the next `Available(count)` bytes into the destination at `offset`, leaves the rest untouched, and advances past them |
| ReadOnlyStream.ReadOnlyMemoryStream.ReadByte | src/StreamLib/Utils/Streams/ReadOnlyMemoryStream.cs:47-51 | the next byte, advancing past it; -1 exactly at the end, without moving |
| ReadOnlyStream.ReadOnlyMemoryStream.ReadInt32 | src/StreamLib/Utils/Streams/ReadOnlyMemoryStream.cs:53-57 | the little-endian `int` of the next four bytes, advancing past them |
| ReadOnlyStream.ReadInt32RoundTrip | src/StreamLib/Utils/Streams/ReadOnlyMemoryStream.cs:53-57 | reading four little-endian bytes of a word gives the word as an `int` |
| WriteOnlyStream.Wrap32 | src/StreamLib/Utils/Streams/WriteOnlyMemoryStream.cs:157 | `unchecked` `int` arithmetic: the result is congruent to the exact value modulo 2^32 |
| WriteOnlyStream.AsUInt32 | src/StreamLib/Utils/Streams/WriteOnlyMemoryStream.cs:161 | `(uint)` of an `int` is the value or the value plus 2^32 |
| WriteOnlyStream.GrowthPolicy | src/StreamLib/Utils/Streams/WriteOnlyMemoryStream.cs:148-168 | the new capacity is at least the request and at least 256; it is at least double the old while that fits; otherwise it is the array maximum or the request |
| WriteOnlyStream.OverwriteTwice | src/StreamLib/Utils/Streams/WriteOnlyMemoryStream.cs:89-114 | two writes, the second where the first ended, are one write of both |
| WriteOnlyStream.OverwriteAtEnd | src/StreamLib/Utils/Streams/WriteOnlyMemoryStream.cs:89-114 | writing at the end of the contents appends |
| WriteOnlyStream.WriteOnlyMemoryStream.constructor | src/StreamLib/Utils/Streams/WriteOnlyMemoryStream.cs:22-25 | empty, with no capacity |
| WriteOnlyStream.WriteOnlyMemoryStream.WithCapacity | src/StreamLib/Utils/Streams/WriteOnlyMemoryStream.cs:27-31 | empty, with the given capacity |
| WriteOnlyStream.WriteOnlyMemoryStream.FromBuffer | src/StreamLib/Utils/Streams/WriteOnlyMemoryStream.cs:33-38 | the caller's array is the storage and its bytes the contents |
| WriteOnlyStream.WriteOnlyMemoryStream.ToArray | src/StreamLib/Utils/Streams/WriteOnlyMemoryStream.cs:50-55 | a fresh copy of exactly the bytes written |
| WriteOnlyStream.WriteOnlyMemoryStream.SetCapacity | src/StreamLib/Utils/Streams/WriteOnlyMemoryStream.cs:68-85 | the capacity becomes `value` and the contents are kept; a new array only when the value differs |
| WriteOnlyStream.WriteOnlyMemoryStream.EnsureCapacity | src/StreamLib/Utils/Streams/WriteOnlyMemoryStream.cs:148-168 | grows, to the growth-policy capacity, exactly when the request exceeds the capacity; contents kept; capacity at least the request |
| WriteOnlyStream.WriteOnlyMemoryStream.Write | src/StreamLib/Utils/Streams/WriteOnlyMemoryStream.cs:89-114 | the contents become the old contents overwritten at the position by the source bytes, extended when the write runs past the end; the position advances by `count` |
| WriteOnlyStream.WriteOnlyMemoryStream.WriteByte | src/StreamLib/Utils/Streams/WriteOnlyMemoryStream.cs:117-134 | the byte overwrites or extends the contents at the position, and the position advances by one |
| WriteOnlyStream.WriteOnlyMemoryStream.WriteUInt | src/StreamLib/Utils/Streams/WriteOnlyMemoryStream.cs:137-144 | writes the four little-endian bytes of the value |

## Left out

### Operations

- **Pools.** `ChunkPool`, the pool argument of the `ChunkedArray` constructor, `Dispose`,
  `FastArrayClear` and `isCleanupRented` are not modelled. They decide where row memory
  comes from and goes back to, not which elements the array holds. Every row is a fresh
  `default(T)` array.
- **`Dispose` of the streams.** Dropping the buffer is not modelled.
- **Trivial accessors.** `ChunkedArray.GetChunk`, the `Length` and `Capacity` getters and
  `WriteOnlyMemoryStream.GetBuffer` only return a field.
- **`uint` indexers.** The `this[uint]` indexers of `TempSet` and `ChunkedArray` cast to
  `int` and call the `int` indexer, which is what `Get` and `Set` model.
- **Floating point in `LinearCounter`.**
  - The estimate `Cardinality()` (logarithm and rounding) is left out; only its saturated
    case is modelled.
  - `ComputeRequiredBitMaskLength`, `LinearInterpolation` and the logarithmic table lookup
    are left out. They enter `CreateWithError` and `CreateWithOnePercentError` as
    parameters.
  - `CreateWithError` takes `eps` as a real. A NaN `eps` passes the C# range test
    (`eps >= 1 || eps <= 0` is false for NaN), so the C# does not refuse it. The model
    has no NaN.
- **Outside this model.** The HyperLogLog estimator, `HllStream` and
  `ReadOnlyChunkedArrayStream` are not part of it.
- **Streams passed to the codecs.** `Varint` takes the library's `ReadOnlyMemoryStream`
  and `WriteOnlyMemoryStream`, not an arbitrary `System.IO.Stream`.
- **Lazy enumeration.** `GetEnumerator` is modelled as the sequence it yields; how the
  iterator interleaves with the caller is left out.
- **Null arguments and their exceptions** are not modelled: Dafny references are non-null.

### Contracts stated weaker than the source, or with a narrower domain

- Registers.RegisterSet.Get: requires the word `position / 6` to exist. The C# throws
  `IndexOutOfRangeException` otherwise, and that path is not modelled.
- Registers.RegisterSet.Set: the same range requirement as `Get`. A value of more than
  5 bits spills into the neighbouring registers exactly as in C#, but only 5-bit values
  get the read-back guarantee.
- Registers.RegisterSet.UpdateIfGreater: the same range requirement as `Get`.
- Registers.RegisterSet.Merge: requires the other set to have at least as many words. The
  C# throws `IndexOutOfRangeException` otherwise.
- LinearCounting.LinearCounter.OfferHashed:
  - requires a valid counter of fewer than 2^28 bytes. For larger bitmaps `hash %
    _bitmapBits` can exceed `int.MaxValue`, the `(int)` cast turns negative and the C#
    throws. At 2^29 bytes the bit count itself wraps.
  - requires a non-empty bitmap. For a zero-length bitmap `_bitmapBits` is 0 and
    `hash % _bitmapBits` throws `DivideByZeroException`.
  - None of these paths is modelled.
- LinearCounting.LinearCounter.constructor: validity is promised only below 2^29 bytes,
  where `8 * size` does not wrap. The wrapped bit count itself is stated for every size.
- LinearCounting.LinearCounter.MergeAll: the differing-size exception is a `SizeMismatch`
  result. The C# builds the message text, which is not modelled.
- ReadOnlyStream.ReadOnlyMemoryStream.Read:
  - requires the destination to be a different array from the stream's buffer. The C#
    copies correctly onto its own buffer too; the model does not cover that aliasing.
  - requires the destination range to fit. The C# throws otherwise.
- ReadOnlyStream.ReadOnlyMemoryStream.ReadInt32: requires four bytes to remain. The C# does
  no check, advances the position and throws on the array access.
- WriteOnlyStream.WriteOnlyMemoryStream.Write:
  - requires a non-negative `count`. For a negative `count` the C# does not throw unless
    the source is the stream's own buffer: `_position + count` is below `_length`, so
    nothing grows, the byte loop runs zero times, and the head moves back by `|count|`,
    possibly below zero. With the stream's own buffer as the source, `Array.Copy` throws.
    Neither path is modelled.
  - requires a non-negative `offset` and a source range that fits. Otherwise the C# first
    extends `_length` (and grows the capacity if needed) and then throws on the copy,
    leaving the length extended; that partial update is not modelled.
  - requires `position + count` to stay within `int`; the C# would wrap, which is not
    modelled.
- WriteOnlyStream.WriteOnlyMemoryStream.WriteByte: requires `position + 1` to stay within
  `int`.
- WriteOnlyStream.WriteOnlyMemoryStream.WriteUInt: requires `position + 4` to stay within
  `int`, the same bound as `Write`, which it calls with four bytes; the wrap is not
  modelled.
- WriteOnlyStream.WriteOnlyMemoryStream.SetCapacity: requires `length <= value`.
  - For `value <= 0` the C# setter stores a null buffer and does not throw, even when
    bytes were written. They are lost, and a later `ToArray` throws. The model gives an
    empty array for 0 and excludes negative values.
  - For `0 < value < length` the C# `Array.Copy` throws. The model excludes that.
- WriteOnlyStream.WriteOnlyMemoryStream.WithCapacity: requires a non-negative capacity;
  `new byte[-1]` throws.
- Chunked.ChunkedArray.Get: requires `0 <= i < capacity`. The C# throws on other indices.
- Chunked.ChunkedArray.Set: the same index requirement as `Get`.
- Chunked.ChunkedArray.SequenceEqual: full rows are compared with `Equals` and the last row
  with `CompareTo(...) != 0`. The model compares both with `==`, which assumes the type's
  `Equals` and `CompareTo` agree with equality.
- Chunked.ChunkedArray.AddChunk: after a shrinking `SetSize`, `Valid()` is not promised.
  The C# resizes the rows to `_rows`, adds 8192 to `_length` and takes the last row as
  full. Two cases follow:
  - Every row kept (`rows == |buffer|`, a partial last row): a row is appended and no
    element is lost, but `length` falls short of the places the layout covers (the whole
    capacity), so the enumeration and `SequenceEqual` walk past `length`. The model
    states `Represents()`, the appended contents, and that the layout covers the
    capacity.
  - Rows dropped (`rows < |buffer|`): the resize drops rows and overwrites the last one,
    leaving places below the capacity that no row holds. The model states exactly that
    (`|buffer| * 8192 < capacity`).
- Chunked.ChunkedArray.CopyFrom:
  - requires the source to hold `validIndex` places. The C# throws in `Array.Copy`
    otherwise, after `SetSize` has already run.
  - at `validIndex` 0 it follows the corrected layout `(0, 0)` and copies nothing. As
    written, `SetSize(0)` leaves `_lastArraySize = 8192`, so the C# copies 8192 elements
    of the source's row 0 over this array's row 0. It throws if either row is shorter.
    That path is not modelled.
- Chunked.ChunkedArray.SetSize: takes the corrected layout, which keeps `(0, 0)` for size 0.
  The as-written layout is stated and carried through to enumeration under "Findings".
- Chunked.ChunkedArray.ResetToSize: at size 0 it follows the corrected layout and leaves
  the contents unchanged. As written, `SetSize(0)` leaves `_lastArraySize = 8192`, so the
  C# writes `initialValue` into the first 8192 places of row 0. It throws if row 0 is
  shorter or missing. That path is not modelled.
- Chunked.ChunkedArray.GetPart: requires `0 <= from` and `from + len <= capacity` when
  `len > 0`. The C# indexer throws `IndexOutOfRangeException` on the first place outside
  the rows; that path is not modelled.
- ChunkedSort.PickPivotAndPartition: requires at least three elements. `IntroSort` calls it
  only on ranges of more than 16.
- ChunkedSort.IntroSort: the recursion-depth limit only chooses between quicksort and
  heapsort. The sort's result does not depend on it, so `QuickSortDepthThreshold` (unused
  in C#) is not modelled. The branch for a one-element range cannot be reached inside the
  loop.
- ChunkedSort.Sort:
  - the comparer must be consistent (antisymmetric in sign and transitive), as
    `IComparer` demands. An inconsistent comparer can make the C# partition loop run out
    of bounds, which is not modelled.
  - requires `0 <= index` and `index + length <= capacity` when `length >= 2`. Otherwise
    the C# indexer throws, possibly after some elements were already swapped; that path
    is not modelled.
- ChunkedSort.IntrospectiveSort: the same range requirement as `Sort`, for `left` and
  `length`, and the same consistent comparer.
- Bits.GetBits: requires a non-empty byte array. The C# pins `&bytes[0]`, which throws on an empty array. Reading words through a `uint*` is modelled as little-endian, the byte order of the platforms .NET runs on.
- Negative sizes: the `ChunkedArray` and `TempSet` sizes are `nat`. `new T[-n]` throws in C#.
- TempSets.TempSet.Get: requires `0 <= i < capacity`. The C# throws on other indices.
- TempSets.TempSet.Set: the same index requirement as `Get`.
- TempSets.TempSet.CopyFrom:
  - requires both sets to hold `validIndex` places. The C# throws in `Array.Copy`
    otherwise, after `SetSize` has already run.
  - requires the two sets to share no row unless they are the same set.
- TempSets.TempSet.SortTempSet: requires `Length` within the capacity. After `SetSize`
  beyond it, the C# row sort throws.
- TempSets.TempSet.SequenceEqual: requires equal lengths to lie within both capacities.
  The C# would throw reading a missing row.
- TempSets.TempSet.SequenceEqualAsWritten: the same length requirement as `SequenceEqual`.
- TempSets.TempSet.SortRows: each row is sorted by an insertion sort standing in for
  `Array.Sort` (an introsort in .NET). Only the result, sorted and a permutation, is
  modelled.
- TempSets.TempSet.SkipExhausted: the `break` when `start_t` reaches `_rows` is not
  modelled. While elements remain, a row with elements left always exists before it
  (`SkipLands`).

## Findings

| source | as written | input that shows it | evidently intended | confidence | as-written member | corrected member |
|---|---|---|---|---|---|---|
| src/StreamLib/Cardinality/RegisterSet.cs:26-32 | `GetSizeForCount` allocates `count / 6` words, plus one unless that is a multiple of 32 | count 194: 32 words, holding only 192 registers, so `Set(193, v)` indexes word 32 and throws | `ceil(count / 6)` words, enough for every register | not executed | Registers.GetSizeForCount, Registers.GetSizeForCountTooSmall | Registers.SizeForCount, Registers.RegisterSet.constructor |
| src/StreamLib/Utils/ChunkedArray.cs:189-195 | `SetSize(0)` sets `_rows = 0`, `_lastArraySize = 8192` | an 8192-element array with element 5 set to 7, then `SetSize(0)`: enumeration still yields 8192 elements including the 7 (with fewer places it throws); `ResetToSize(0, v)` and `CopyFrom(source, 0)` go through the same layout and write 8192 places of row 0; `SequenceEqual` of two arrays after `SetSize(0)` compares 8192 elements of row 0, returning false when they differ (throwing when there is no row 0), where the corrected layout gives true | the empty layout `(0, 0)`, as the constructor uses for size 0 | not executed | Chunked.SetSizeZeroAsWritten, Chunked.EnumerateAfterSetSizeZero | Chunked.LayoutFor, Chunked.ChunkedArray.SetSize, Chunked.ChunkedArray.ResetToSize, Chunked.ChunkedArray.CopyFrom |
| src/StreamLib/Cardinality/TempSet.cs:81 | `minPosition = 0` before scanning from `start_t` | 8002 elements, 8000 zeros then 1, 2: once row 0 is used up, row 0 is credited with each pick and the result is 8000 zeros, 1, 1 | `minPosition = start_t`, the row whose head seeds `minValue` | not executed | TempSets.TempSet.SmallestHeadAsWritten, TempSetMerge.SortTempSetAsWrittenRepeats | TempSets.TempSet.SmallestHead, TempSets.TempSet.SortTempSet |
| src/StreamLib/Cardinality/TempSet.cs:126 | `_M[i][t] != _M[i][t]` compares each element with itself | two sets of length 1 holding `[1]` and `[2]` compare equal | `_M[i][t] != other._M[i][t]` | not executed | TempSets.TempSet.SequenceEqualAsWritten, TempSets.SequenceEqualAsWrittenMissesLastRow | TempSets.TempSet.SequenceEqual |
