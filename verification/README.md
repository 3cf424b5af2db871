# Verified models of the document codecs and structures

This project models, in Dafny, the parts of the repository that compress,
decode and edit documents, and proves what they are for. It stands beside the
C++ and Rust sources and follows them branch by branch; `dafny verify
dfyconfig.toml` checks all of it, with the options the configuration names.

Seven groups of modules, each with its main results:

**The block-sorting codec.** `BlockSort` holds the suffix sorter as a class
over its three arrays: radix sort, presort by data, rank doubling, and skip
lengths in the high byte of `posn`. `SuffixOrder`, `Buckets`, `RankState`,
`SortSteps`, `PresortSteps`, `StableSort` and `RadixSteps` say what its arrays
mean between steps. Whenever the sort returns, the positions list the suffixes
in strict order (`BSort.Run`), and it always returns for blocks of up to 1024
symbols, whose segments cannot fill the stack. `Transform` adds that a block has
one suffix array and one transform. `Inverse` proves that the
decoder's counting pass and walk undo the sort, `Unsort` that the code is that
walk. `SymbolCode`, `MoveToFront`, `ListState` and `ColumnCode` keep encoder and
decoder in step, with every counter in 32 bits. `StreamRoundTrip` joins all of
it: any writes, flushes and reads give back the bytes written.

**The HUFF decoder.** `HuffMeaning` defines what a dictionary means without any
cache; `HuffDecoder` proves that the memoising expander returns that meaning
after any history of successes and failures, with exact accounts, and when it
must succeed. `HuffLoad`, `PalmDoc`, `MobiRecords` and `MobiText` add loading, the
other compression and the text records; a batch is the concatenation of its
records.

**The data pool.** `RunLengths` and `Blocks` prove that the signed list of blocks
is a set of known bytes in a unique form. `DataPool` adds the buffer and the
triggers: each fires exactly once, when its range is there.

**Annotations.** `Annotations` specifies printer and parser, `AnnoPrinter` and
`AnnoParser` are the two programs, and `AnnoRoundTrip` and `AnnoReprint` prove that
they undo each other and that printed text is never taken for that of an old
program.

**The document structure.** `Directory` keeps the list of files, the pages and two
indexes consistent through every edit, `PageEditor` moves files and pages on top
of it (`FileMoves`, `PageMoves` and `PageShifts` say where they land, and which included
files come along), `Bundle`, `BundleDirectory` and `BundleFormat` write a document with
the offsets predicted beforehand and read it back.

**Containers.** `ArraySort` is the range sort of the array class, `MemoryStream`
the byte stream kept in blocks.

**Markup.** `MarkupTree`, `Markup`, `MarkupColumns` and `MarkupHtml` are the arena
of a markup document: one linked preorder tree, whose columns are a function of
the tree that was parsed and from which that tree can be read back.

The remaining modules (`Words`, `Powers`, `Permutation`, `Partition`,
`Channel`, `BlockCode`, `BlockStream`, `HuffCodes`, `Sequences`) are what
these are built from.

Conventions. An object that the source updates in place is a class, a loop a
loop, and each method is proved against a function of the old state; what the
source promises is then proved of that function. An exception is a returned
`false`, `null`, `None` or error value. A long function of the source may be several
methods here; the rows below name the lines of each. Code that the source
repeats appears once: the two partitions and the two pivot functions of the
sorter, the seven levels written out in the symbol coder, and the unrolled
comparison by ranks, whose turns are those of one loop. Parameters and results
marked `ghost` carry what is known, and are not part of the program.

## Model

| member | source | states |
|---|---|---|
| SuffixOrder.LessTotal | packages/pagecraft/native/djvu/upstream/libdjvu/BSEncodeByteStream.cpp:174-213 | the order the sorter establishes is total on the suffixes of a block: two different suffixes are always comparable, because the end marker is below every byte, a data byte 0 included, and occurs once |
| SuffixOrder.LessTransitive | packages/pagecraft/native/djvu/upstream/libdjvu/BSEncodeByteStream.cpp:174-213 | the suffix order is transitive |
| SuffixOrder.LessAsymmetric | packages/pagecraft/native/djvu/upstream/libdjvu/BSEncodeByteStream.cpp:174-213 | the suffix order is strict: no two suffixes precede each other |
| SuffixOrder.BytesDecide | packages/pagecraft/native/djvu/upstream/libdjvu/BSEncodeByteStream.cpp:379-398 | comparing bytes decides the suffix order although the marker reads as a byte 0: the first different byte within reach is decisive |
| SuffixOrder.MarkerDecides | packages/pagecraft/native/djvu/upstream/libdjvu/BSEncodeByteStream.cpp:379-398 | when the bytes agree until the later suffix runs into the marker, the later suffix comes first |
| RankState.RankedOrder | packages/pagecraft/native/djvu/upstream/libdjvu/BSEncodeByteStream.cpp:177-182 | ranks that are bucket ends refine the suffix order, and equal ranks mean agreement to the present depth |
| RankState.RankStep | packages/pagecraft/native/djvu/upstream/libdjvu/BSEncodeByteStream.cpp:184-190 | one comparison of ranks a distance on either decides the order or lengthens the known agreement by the depth |
| RankState.RefinedTransitive | packages/pagecraft/native/djvu/upstream/libdjvu/BSEncodeByteStream.cpp:282-369 | refining a bucket and then a part of it refines the bucket: steps of the sort compose |
| RankState.RoundSorted | packages/pagecraft/native/djvu/upstream/libdjvu/BSEncodeByteStream.cpp:676-719 | sorting one bucket advances the round past it: its entries agree to twice the depth, and a finished run goes on only if all its entries are single |
| RankState.DeepIsSingle | packages/pagecraft/native/djvu/upstream/libdjvu/BSEncodeByteStream.cpp:676-719 | a bucket of two or more suffixes agrees on fewer symbols than the block has, so rank doubling ends |
| RankState.AllSingleSorted | packages/pagecraft/native/djvu/upstream/libdjvu/BSEncodeByteStream.cpp:676-719 | when every bucket has one entry the positions list all suffixes in strict order |
| RankState.ThreadOne | packages/pagecraft/native/djvu/upstream/libdjvu/BSEncodeByteStream.cpp:698-703 | writing a skip length into the high byte of an entry of a finished run keeps the positions and keeps every skip inside finished entries |
| Buckets.RefineBucket | packages/pagecraft/native/djvu/upstream/libdjvu/BSEncodeByteStream.cpp:282-369 | sorting inside one bucket keeps all suffixes sorted by buckets |
| BlockSort.BSort.GT | packages/pagecraft/native/djvu/upstream/libdjvu/BSEncodeByteStream.cpp:177-213 | the comparison by ranks answers true exactly when the first suffix comes after the second |
| BlockSort.BSort.GTD | packages/pagecraft/native/djvu/upstream/libdjvu/BSEncodeByteStream.cpp:379-398 | the comparison by data answers exactly whether the first suffix comes after the second, as far as the depth looked at tells |
| BlockSort.BSort.Ranksort | packages/pagecraft/native/djvu/upstream/libdjvu/BSEncodeByteStream.cpp:219-232 | the insertion sort refines the bucket into entries of their own, in suffix order |
| Partition.Pivot | packages/pagecraft/native/djvu/upstream/libdjvu/BSEncodeByteStream.cpp:236-261 | the pivot is the key of some entry of the range, for any length of range |
| Partition.VSwap | packages/pagecraft/native/djvu/upstream/libdjvu/BSEncodeByteStream.cpp:275-280 | the block exchange moves each of the n entries to the other side and is a rearrangement |
| Partition.Partition | packages/pagecraft/native/djvu/upstream/libdjvu/BSEncodeByteStream.cpp:306-343 | the three-way partition rearranges the range into smaller, equal and larger keys |
| BlockSort.BSort.Quicksort3r | packages/pagecraft/native/djvu/upstream/libdjvu/BSEncodeByteStream.cpp:282-369 | when it returns, the quicksort by ranks has refined the bucket, and what is left tied agrees to twice the depth; it gives up exactly with a stack that is too full for the parts of its top segment, which has more than ten entries |
| BlockSort.BSort.Quicksort3d | packages/pagecraft/native/djvu/upstream/libdjvu/BSEncodeByteStream.cpp:436-551 | when it returns, the quicksort by data has refined the bucket and what is left tied agrees to depth 8, the marker set apart from equal zero bytes; it gives up exactly with a stack that is too full for the parts of its top segment, which has more than ten entries and is not yet at depth 8 |
| BlockSort.BSort.SortTop | packages/pagecraft/native/djvu/upstream/libdjvu/BSEncodeByteStream.cpp:288-367 | one round replaces the top segment by its parts and lowers the work left; it fails exactly when they may not fit the stack and the segment is too large to be sorted at once, and then the buckets are as they were |
| SortSteps.StuckLarge | packages/pagecraft/native/djvu/upstream/libdjvu/BSEncodeByteStream.cpp:344-352 | a stack too full for the next parts takes a block of more than 1024 symbols |
| SortSteps.NarrowCount | packages/pagecraft/native/djvu/upstream/libdjvu/BSEncodeByteStream.cpp:344-367 | stacked segments have two entries or more each, so there are at most half as many of them as entries |
| SortSteps.Advance | packages/pagecraft/native/djvu/upstream/libdjvu/BSEncodeByteStream.cpp:288-367 | replacing the top segment by its parts keeps the invariant of the stack and lowers the work left |
| StableSort.SlotsPerm | packages/pagecraft/native/djvu/upstream/libdjvu/BSEncodeByteStream.cpp:577-581 | the slots of a stable counting sort are a permutation |
| StableSort.SlotOrder | packages/pagecraft/native/djvu/upstream/libdjvu/BSEncodeByteStream.cpp:577-581 | slots are ordered by key and then by index |
| BlockSort.BSort.Radixsort8 | packages/pagecraft/native/djvu/upstream/libdjvu/BSEncodeByteStream.cpp:558-587 | positions and ranks are those of a stable sort by the first symbol, with the marker first |
| BlockSort.BSort.Radixsort16 | packages/pagecraft/native/djvu/upstream/libdjvu/BSEncodeByteStream.cpp:592-637 | positions and ranks are those of a stable sort by the first two symbols, with the last two suffixes in their places |
| BlockSort.BSort.Presort | packages/pagecraft/native/djvu/upstream/libdjvu/BSEncodeByteStream.cpp:664-671 | after the presort ranks refine the suffix order and equal ranks mean agreement to depth 8 |
| BlockSort.BSort.Thread | packages/pagecraft/native/djvu/upstream/libdjvu/BSEncodeByteStream.cpp:697-703 | threading a finished run changes no position and keeps every skip within finished entries |
| BlockSort.BSort.DoublingRound | packages/pagecraft/native/djvu/upstream/libdjvu/BSEncodeByteStream.cpp:680-718 | one round doubles the depth; if no bucket needed the quicksort, every bucket has one entry |
| BlockSort.BSort.Doubling | packages/pagecraft/native/djvu/upstream/libdjvu/BSEncodeByteStream.cpp:676-719 | rank doubling ends with the low 24 bits listing all suffixes in strict order |
| BlockSort.BSort.Permute | packages/pagecraft/native/djvu/upstream/libdjvu/BSEncodeByteStream.cpp:720-738 | the data become the bytes before the sorted suffixes, a zero and the marker position for the whole block |
| BlockSort.BSort.Run | packages/pagecraft/native/djvu/upstream/libdjvu/BSEncodeByteStream.cpp:643-744 | whenever the sort returns, the positions are the suffix array, the data its column and the marker is in its place; it fails exactly when a quicksort meets a stack too full for the parts of its top segment, which no block of up to 1024 symbols brings about |
| Transform.NeighboursSuffice | packages/pagecraft/native/djvu/upstream/libdjvu/BSEncodeByteStream.cpp:643-744 | a list of all suffixes in which none comes after its neighbour is in strict order throughout |
| Transform.SuffixArrayUnique | packages/pagecraft/native/djvu/upstream/libdjvu/BSEncodeByteStream.cpp:643-744 | a block has one suffix array, whatever way the sort takes |
| Transform.TransformUnique | packages/pagecraft/native/djvu/upstream/libdjvu/BSEncodeByteStream.cpp:643-744 | a block has one transform: its column and the place of the marker are functions of the block |
| Inverse.SlotsAreRows | packages/pagecraft/native/djvu/upstream/libdjvu/BSByteStream.cpp:319-349 | the slots of a stable count of the column are the rows of the suffixes one byte longer |
| Inverse.WalkRows | packages/pagecraft/native/djvu/upstream/libdjvu/BSByteStream.cpp:350-362 | the walk from the first row meets the suffixes from the shortest to the longest |
| Inverse.MarkerNotFirst | packages/pagecraft/native/djvu/upstream/libdjvu/BSByteStream.cpp:319-320 | the column of a block with at least one byte never has its marker in the first row, so the first corruption check does not fire |
| Inverse.TransformInverse | packages/pagecraft/native/djvu/upstream/libdjvu/BSByteStream.cpp:319-362 | on the column of a block the walk ends at the marker and what it writes is the block and nothing else |
| Unsort.CountRows | packages/pagecraft/native/djvu/upstream/libdjvu/BSByteStream.cpp:321-341 | the counting pass records in every row its byte and the number of equal bytes before it |
| Unsort.SumRows | packages/pagecraft/native/djvu/upstream/libdjvu/BSByteStream.cpp:342-349 | the counts become the first row of each byte, row 0 belonging to the marker |
| Unsort.UnsortBlock | packages/pagecraft/native/djvu/upstream/libdjvu/BSByteStream.cpp:319-362 | for any column the walk stays in bounds and overwrites the block with the bytes of its rows; the result is accepted exactly when it ends at the marker |
| Channel.Receiver.Get | packages/pagecraft/native/djvu/upstream/libdjvu/BSByteStream.cpp:148-173 | a bit comes back as sent when it is asked for in the context it was sent in |
| SymbolCode.EncodeBits | packages/pagecraft/native/djvu/upstream/libdjvu/BSEncodeByteStream.cpp:750-778 | the bits sent are those of the number, highest first, each in the context of its tree node |
| SymbolCode.DecodeBits | packages/pagecraft/native/djvu/upstream/libdjvu/BSByteStream.cpp:148-173 | the number received is the number sent, and the same contexts are asked for |
| SymbolCode.BitsAreBinary | packages/pagecraft/native/djvu/upstream/libdjvu/BSEncodeByteStream.cpp:750-762 | the shifting register of the loop sends exactly the binary digits of the number |
| SymbolCode.EncodeSymbol | packages/pagecraft/native/djvu/upstream/libdjvu/BSEncodeByteStream.cpp:843-880 | a list position is sent as its two questions, its level and its bits, all in contexts below 300 |
| SymbolCode.DecodeSymbol | packages/pagecraft/native/djvu/upstream/libdjvu/BSByteStream.cpp:252-284 | the list position received is the one sent, when it was sent with the same context |
| MoveToFront.RotatedGood | packages/pagecraft/native/djvu/upstream/libdjvu/BSEncodeByteStream.cpp:882-913 | every step keeps the list a permutation, the frequencies non-increasing and bounded, the increment a signed 32-bit number and the new frequency below 2^32 |
| MoveToFront.AdjustedBound | packages/pagecraft/native/djvu/upstream/libdjvu/BSEncodeByteStream.cpp:883-898 | the bound freq <= 8*fadd + 64 survives the growth of the increment and the 24-bit rescale, at all three speeds |
| MoveToFront.MovedPerm | packages/pagecraft/native/djvu/upstream/libdjvu/BSEncodeByteStream.cpp:899-912 | moving one entry down the list keeps the list a permutation |
| MoveToFront.MovedSorted | packages/pagecraft/native/djvu/upstream/libdjvu/BSEncodeByteStream.cpp:905-912 | putting a new frequency where the loop stops keeps the frequencies non-increasing |
| ListState.Frequencies.Adjust | packages/pagecraft/native/djvu/upstream/libdjvu/BSEncodeByteStream.cpp:883-894 | the arrays after the adjustment are those of the specification |
| ListState.EncoderList.Rotate | packages/pagecraft/native/djvu/upstream/libdjvu/BSEncodeByteStream.cpp:881-913 | the encoder's arrays after a step are the specified list, and rmtf is still the inverse of mtf |
| ListState.DecoderList.Rotate | packages/pagecraft/native/djvu/upstream/libdjvu/BSByteStream.cpp:286-312 | the decoder's arrays after a step are the same specified list |
| ColumnCode.EncodeRow | packages/pagecraft/native/djvu/upstream/libdjvu/BSEncodeByteStream.cpp:833-914 | coding a row sends the position of its byte, or the marker, in the context chosen by the position before |
| ColumnCode.EncodeColumn | packages/pagecraft/native/djvu/upstream/libdjvu/BSEncodeByteStream.cpp:818-914 | the bits sent for a column are those the specification lists |
| ColumnCode.DecodeRow | packages/pagecraft/native/djvu/upstream/libdjvu/BSByteStream.cpp:247-312 | a row is decoded to the position sent, the byte is the one at it, and the list moves as the encoder's did |
| ColumnCode.DecodeColumn | packages/pagecraft/native/djvu/upstream/libdjvu/BSByteStream.cpp:208-313 | in step with the encoder, the whole column and the marker come back, and nothing more is taken from the channel; for any other input the result is a column of bytes |
| BlockCode.EncodeSpeed | packages/pagecraft/native/djvu/upstream/libdjvu/BSEncodeByteStream.cpp:810-817 | the speed depends on the size alone and is sent as one or two bits |
| BlockCode.DecodeSpeed | packages/pagecraft/native/djvu/upstream/libdjvu/BSByteStream.cpp:200-207 | the speed received is the speed sent |
| BlockCode.EncodeSize | packages/pagecraft/native/djvu/upstream/libdjvu/BSEncodeByteStream.cpp:807-809 | the size is sent as 24 binary digits |
| BlockCode.DecodeSize | packages/pagecraft/native/djvu/upstream/libdjvu/BSByteStream.cpp:183-188 | the size received is the size sent |
| BlockCode.EncodeBlock | packages/pagecraft/native/djvu/upstream/libdjvu/BSEncodeByteStream.cpp:795-917 | when the sort returns, what is sent is the code of a right transform of the block; it returns for up to 1024 symbols |
| BlockCode.DecodeBody | packages/pagecraft/native/djvu/upstream/libdjvu/BSByteStream.cpp:189-364 | a block that was coded is accepted, its bytes come back and the channel stands behind it; a block of one symbol is refused |
| BlockStream.Open | packages/pagecraft/native/djvu/upstream/libdjvu/BSEncodeByteStream.cpp:925-935 | block sizes below the minimum are raised to it, and those above the maximum refused |
| BlockStream.Encoder.Write | packages/pagecraft/native/djvu/upstream/libdjvu/BSEncodeByteStream.cpp:971-1004 | the bytes are appended to what has been written, over any number of blocks |
| BlockStream.Encoder.Flush | packages/pagecraft/native/djvu/upstream/libdjvu/BSEncodeByteStream.cpp:958-969 | a flush codes the bytes collected and changes nothing in what has been written |
| BlockStream.Encoder.Close | packages/pagecraft/native/djvu/upstream/libdjvu/BSEncodeByteStream.cpp:937-944 | closing codes what is left and a size of zero; the coded blocks hold exactly the bytes written |
| BlockStream.AppendBlock | packages/pagecraft/native/djvu/upstream/libdjvu/BSEncodeByteStream.cpp:958-969 | coding one more block adds its bits and its bytes at the end |
| BlockStream.NextBlock | packages/pagecraft/native/djvu/upstream/libdjvu/BSByteStream.cpp:175-188 | what the channel holds is the bits of the next block and then those of the later ones, or a zero size |
| BlockStream.OneCoded | packages/pagecraft/native/djvu/upstream/libdjvu/BSByteStream.cpp:183-189 | the bits of a block are its size and its body |
| BlockStream.Decoder.Decode | packages/pagecraft/native/djvu/upstream/libdjvu/BSByteStream.cpp:175-188 | on a written stream the next block is decoded, or the end of the stream met, never corruption |
| BlockStream.Decoder.ReadPart | packages/pagecraft/native/djvu/upstream/libdjvu/BSByteStream.cpp:386-412 | one turn of a read hands out the next bytes, of a new block when the buffer is empty |
| BlockStream.Decoder.Read | packages/pagecraft/native/djvu/upstream/libdjvu/BSByteStream.cpp:379-417 | a read gives the next bytes, and fewer than asked for only at the end of the stream |
| StreamRoundTrip.WriteAll | packages/pagecraft/native/djvu/upstream/libdjvu/BSEncodeByteStream.cpp:937-1004 | any interleaving of writes and flushes and a close codes exactly the bytes written, in order |
| StreamRoundTrip.ReadAll | packages/pagecraft/native/djvu/upstream/libdjvu/BSByteStream.cpp:379-417 | reads of any sizes cut the stream into consecutive pieces |
| StreamRoundTrip.RoundTrip | packages/pagecraft/native/djvu/upstream/libdjvu/BSEncodeByteStream.cpp:937-1004 | any writes and flushes, a close and reads of any sizes give back the bytes written and then the end of the file, for every block size allowed |
| HuffCodes.ReadBitsWindow | packages/pagecraft/rust/src/decoder.rs:311-317 | the word read at any bit is the next 32 bits of the stream, zero past its end |
| HuffCodes.ReadCode | packages/pagecraft/rust/src/decoder.rs:215-240 | reading a code agrees with the specification of the next code: prefix, search for a length, code number, bounds |
| HuffMeaning.OneMeaning | packages/pagecraft/rust/src/decoder.rs:211-291 | a stream has at most one cache-free expansion, at whatever depth it is found |
| HuffMeaning.EntryStable | packages/pagecraft/rust/src/decoder.rs:264-291 | a meaning found at some depth is found at every larger one |
| HuffMeaning.CyclicNothing | packages/pagecraft/rust/src/decoder.rs:264-272 | an entry that needs itself, directly or through others, has no meaning at any depth |
| HuffMeaning.UsesCyclicNothing | packages/pagecraft/rust/src/decoder.rs:264-272 | nor has a stream that needs such an entry |
| HuffMeaning.AwaitedNothing | packages/pagecraft/rust/src/decoder.rs:264-272 | an entry that is being expanded when it is needed has no meaning: the cyclic error is never raised for an entry that has one |
| HuffMeaning.NeedsCode | packages/pagecraft/rust/src/decoder.rs:214-260 | a stream that means something needs the meaning of each of its codes |
| HuffDecoder.WarmEvolves | packages/pagecraft/rust/src/decoder.rs:197-291 | a record all of whose entries are expanded stays so whatever is decoded later |
| HuffDecoder.WithinFullSize | packages/pagecraft/rust/src/decoder.rs:106-110 | what the cache holds and what is expected of the entries being expanded stays within the dictionary with every entry both packed and expanded |
| HuffDecoder.CacheEnough | packages/pagecraft/rust/src/decoder.rs:247-252 | in a dictionary that is affordable in full the cache limit is never hit |
| HuffDecoder.Decoder.Decode | packages/pagecraft/rust/src/decoder.rs:197-209 | decoded bytes are the cache-free meaning whatever was decoded before; expanding_bytes is the sum of the lengths of the pending outputs through recursion and failure, entries being expanded are as before, failed entries have their packed bytes back; a stream with a meaning within depth and length fails at most for the cache limit, and not where that is affordable; a record decoded once decodes again |
| HuffDecoder.Decoder.DecodeInto | packages/pagecraft/rust/src/decoder.rs:211-262 | the same for the loop over the codes, with the pending output counted as it grows |
| HuffDecoder.Decoder.AppendEntry | packages/pagecraft/rust/src/decoder.rs:241-260 | an entry is appended within the output and cache limits, or the output is as it was |
| HuffDecoder.Decoder.Grow | packages/pagecraft/rust/src/decoder.rs:256-258 | the innermost pending output grows, and the pending bytes are still the sum of all of them |
| HuffDecoder.Decoder.Expand | packages/pagecraft/rust/src/decoder.rs:264-291 | afterwards the entry is decoded, or an error is returned and it has its packed bytes back |
| HuffDecoder.Decoder.Begin | packages/pagecraft/rust/src/decoder.rs:270-271 | the entry is marked and its bytes moved out; they stay charged |
| HuffDecoder.Decoder.Finish | packages/pagecraft/rust/src/decoder.rs:274-282 | the pending output of an entry becomes its payload, and the budget is the same |
| HuffDecoder.Decoder.Restore | packages/pagecraft/rust/src/decoder.rs:283-289 | a failed entry has its packed bytes again |
| HuffDecoder.DecodingEnd | packages/pagecraft/rust/src/decoder.rs:214-262 | what the loop has put together at the end of the stream is its meaning, and every entry it needed is expanded |
| HuffLoad.LoadCount | packages/pagecraft/rust/src/decoder.rs:141-154 | a record gives the most entries that codes of its length tell apart and that do not outgrow the total it names; there is no such number exactly when it is an error |
| HuffLoad.LoadEntries | packages/pagecraft/rust/src/decoder.rs:154-187 | loading entries fails exactly when one is cut off or the budget is too small, which the count is checked for beforehand |
| HuffLoad.Load | packages/pagecraft/rust/src/decoder.rs:113-195 | loading succeeds exactly when the tables are there, every record gives its entries and they fit the budget; the decoder starts idle with exact accounts |
| HuffLoad.FootprintIsCharged | packages/pagecraft/rust/src/decoder.rs:102-110 | what loading has added up is what the entries are charged for |
| PalmDoc.Decode | packages/pagecraft/rust/src/decoder.rs:36-70 | a PalmDOC record decodes to the meaning of its tokens, never more than five times its length |
| PalmDoc.GrownRepeats | packages/pagecraft/rust/src/decoder.rs:48-65 | every byte of a back reference repeats the one a distance back, even where the copy overlaps itself, and is 0 where there is none |
| MobiRecords.StripTrailing | packages/pagecraft/rust/src/api.rs:163-180 | the record without its trailing entries, whose lengths stand in their last bytes, and without its cut multi-byte character |
| MobiRecords.SaysOne | packages/pagecraft/rust/src/api.rs:149-160 | a text record says one thing |
| MobiRecords.StaysReady | packages/pagecraft/rust/src/api.rs:149-160 | reading other records never spoils one that can be read |
| MobiRecords.GivenOne | packages/pagecraft/rust/src/api.rs:103-130 | reading the same records in different states gives the same texts |
| MobiText.Source.ReadText | packages/pagecraft/rust/src/api.rs:149-160 | what is read of a record is what it says, whatever has been read before, and it can be read again |
| MobiText.Source.ReadRaw | packages/pagecraft/rust/src/api.rs:139-147 | a record of up to 64 MiB is the slice of the file between its offsets |
| MobiText.Source.ReadRecords | packages/pagecraft/rust/src/api.rs:112-130 | a batch that is read is the concatenation of what its records say; it is read when every record can be read and they fit a batch |
| MobiText.SinglesThenBatch | packages/pagecraft/rust/src/api.rs:103-130 | records read one at a time read in a batch as their concatenation, unless that is longer than a batch |
| MobiText.Open | packages/pagecraft/rust/src/api.rs:40-100 | a file is opened exactly when its offsets cut it into records, its text records are there and its dictionary loads |
| MobiText.CyclicSaysNothing | packages/pagecraft/rust/src/api.rs:149-160 | a record that needs an entry that needs itself is never read |
| RunLengths.NormalUnique | packages/pagecraft/native/djvu/upstream/libdjvu/DataPool.cpp:578-594 | the merged list of a map is unique: lists of non-zero, alternating blocks with one map are equal |
| RunLengths.SameKnownSameList | packages/pagecraft/native/djvu/upstream/libdjvu/DataPool.cpp:516-596 | two kept lists that know the same bytes are the same list |
| RunLengths.UnionKnows | packages/pagecraft/native/djvu/upstream/libdjvu/DataPool.cpp:516-596 | the union of a map with an interval knows what the map knew and the interval |
| RunLengths.CountFull | packages/pagecraft/native/djvu/upstream/libdjvu/DataPool.cpp:598-635 | an interval counts in full exactly when each of its positions is known |
| RunLengths.CountMonotone | packages/pagecraft/native/djvu/upstream/libdjvu/DataPool.cpp:1430-1483 | knowing more never counts less |
| Blocks.SplitBlock | packages/pagecraft/native/djvu/upstream/libdjvu/DataPool.cpp:534-571 | an unknown block is cut at the ends of the interval and the part inside becomes known |
| Blocks.BlockList.Mark | packages/pagecraft/native/djvu/upstream/libdjvu/DataPool.cpp:530-576 | the first pass knows the union, and the list ends with a known block |
| Blocks.BlockList.Merge | packages/pagecraft/native/djvu/upstream/libdjvu/DataPool.cpp:578-594 | the second pass joins neighbours of one sign and changes no byte of the map |
| Blocks.BlockList.AddRange | packages/pagecraft/native/djvu/upstream/libdjvu/DataPool.cpp:516-596 | the list knows what it knew and the interval, and stays non-zero, alternating and ending positive; bad arguments change nothing |
| Blocks.BlockList.GetBytes | packages/pagecraft/native/djvu/upstream/libdjvu/DataPool.cpp:598-635 | the exact number of known positions of the interval |
| Blocks.BlockList.GetRange | packages/pagecraft/native/djvu/upstream/libdjvu/DataPool.cpp:637-668 | the maximal run of known bytes from a position up to a length; -1 in an unknown block, 0 past the end |
| Blocks.CountedIffCovered | packages/pagecraft/native/djvu/upstream/libdjvu/DataPool.cpp:1087-1096 | an interval is fully counted exactly when the range from its start covers it |
| Blocks.UnknownBeforeKnown | packages/pagecraft/native/djvu/upstream/libdjvu/DataPool.cpp:637-668 | a query at an unknown byte in front of known ones answers -1 |
| Blocks.InEitherOrder | packages/pagecraft/native/djvu/upstream/libdjvu/DataPool.cpp:516-596 | two ranges added in either order make the same list |
| DataPool.StaysSatisfied | packages/pagecraft/native/djvu/upstream/libdjvu/DataPool.cpp:1430-1483 | more bytes or the end of the file never make a satisfied trigger unsatisfied |
| DataPool.FiredIffSatisfied | packages/pagecraft/native/djvu/upstream/libdjvu/DataPool.cpp:1430-1483 | between operations a registered trigger that was not deleted has fired exactly when it is satisfied |
| DataPool.Pool.constructor | packages/pagecraft/native/djvu/upstream/libdjvu/DataPool.cpp:751-765 | a new pool has one trigger, its own, for the first 32 bytes |
| DataPool.Pool.CheckTriggers | packages/pagecraft/native/djvu/upstream/libdjvu/DataPool.cpp:1430-1483 | afterwards no listed trigger is satisfied; each that was has fired once |
| DataPool.Pool.AddedData | packages/pagecraft/native/djvu/upstream/libdjvu/DataPool.cpp:1051-1085 | the map is the union with the range, the triggers are settled, and the end is set when everything announced has come |
| DataPool.Pool.SetEof | packages/pagecraft/native/djvu/upstream/libdjvu/DataPool.cpp:1308-1329 | every listed trigger fires; at the end of the file the length is known, and a length once known never changes |
| DataPool.Pool.AddTrigger | packages/pagecraft/native/djvu/upstream/libdjvu/DataPool.cpp:1494-1534 | a satisfied callback is called at once and once, another is listed |
| DataPool.Pool.AddTriggerUpTo | packages/pagecraft/native/djvu/upstream/libdjvu/DataPool.cpp:1485-1492 | a threshold stands for the bytes up to it, a negative one for the whole file |
| DataPool.Pool.DelTrigger | packages/pagecraft/native/djvu/upstream/libdjvu/DataPool.cpp:1536-1577 | exactly the listed triggers with that callback and data are deleted, and never fire |
| DataPool.Pool.AddData | packages/pagecraft/native/djvu/upstream/libdjvu/DataPool.cpp:1019-1049 | the map is the union with the range; the bytes are stored where they were supplied if and only if the offset is not past the end of the data |
| DataPool.Pool.AddNext | packages/pagecraft/native/djvu/upstream/libdjvu/DataPool.cpp:1011-1017 | bytes added one after another are stored where they were supplied, in any pool that stores what it was supplied before |
| DataPool.Pool.HasData | packages/pagecraft/native/djvu/upstream/libdjvu/DataPool.cpp:1087-1096 | a range is there exactly when each of its bytes is known; the rest of a file of unknown length, at the end of the file only |
| DataPool.Pool.GetData | packages/pagecraft/native/djvu/upstream/libdjvu/DataPool.cpp:1192-1233 | a read gives the known bytes as they were supplied, at most up to the next unknown one, and blocks exactly when the first is unknown and more may come |
| DataPool.Pool.ReadWhatIsThere | packages/pagecraft/native/djvu/upstream/libdjvu/DataPool.cpp:1087-1233 | a range that is there is read without blocking and in one piece, as it was supplied |
| DataPool.PastTheEnd | packages/pagecraft/native/djvu/upstream/libdjvu/DataPool.cpp:1035-1045 | a byte added past the end is there for the map, and reading it gives nothing |
| AnnoPrinter.MakeCString | packages/pagecraft/native/djvu/upstream/libdjvu/DjVuAnno.cpp:212-252 | the text of a string is that of the specification, spans of plain bytes and escapes |
| AnnoPrinter.Printer.PrintObject | packages/pagecraft/native/djvu/upstream/libdjvu/DjVuAnno.cpp:255-300 | what is printed of an object and the column reached are those of the specification, in both layouts |
| AnnoPrinter.PrintAnnotations | packages/pagecraft/native/djvu/upstream/libdjvu/DjVuAnno.cpp:631-636 | a list of objects is printed one after another, each from column 0 |
| AnnoParser.Parser.GetToken | packages/pagecraft/native/djvu/upstream/libdjvu/DjVuAnno.cpp:417-514 | the cursor moves over exactly one token of the specification: parentheses, numbers, strings with their escapes, symbols, end |
| AnnoParser.Parser.ReadString | packages/pagecraft/native/djvu/upstream/libdjvu/DjVuAnno.cpp:432-495 | a string is read up to its quote with octal and letter escapes, or, in an old text, with escaped quotes only |
| AnnoParser.Parser.ParseList | packages/pagecraft/native/djvu/upstream/libdjvu/DjVuAnno.cpp:516-582 | the objects up to a closing parenthesis, the end of the text or one of the four errors, as specified |
| AnnoParser.CheckCompat | packages/pagecraft/native/djvu/upstream/libdjvu/DjVuAnno.cpp:584-612 | the check says old exactly when a string of the text holds a backslash that escapes nothing known, a control byte or 0x7f |
| AnnoParser.StaysOld | packages/pagecraft/native/djvu/upstream/libdjvu/DjVuAnno.cpp:584-612 | a text whose beginning is that of an old program is old |
| AnnoParser.ParseText | packages/pagecraft/native/djvu/upstream/libdjvu/DjVuAnno.cpp:614-629 | a whole text gives the objects read before an error or the end |
| AnnoRoundTrip.NumberReads | packages/pagecraft/native/djvu/upstream/libdjvu/DjVuAnno.cpp:496-502 | a printed 32-bit number reads as itself |
| AnnoRoundTrip.PieceReads | packages/pagecraft/native/djvu/upstream/libdjvu/DjVuAnno.cpp:217-249 | every byte but zero, printed as it is or escaped, reads as itself whatever follows |
| AnnoRoundTrip.QuotedReads | packages/pagecraft/native/djvu/upstream/libdjvu/DjVuAnno.cpp:212-252 | every string without a zero reads back as itself |
| AnnoRoundTrip.ObjectRoundTrip | packages/pagecraft/native/djvu/upstream/libdjvu/DjVuAnno.cpp:255-300 | what is printed of an object, at any nesting, indent and column, reads as the object whatever follows |
| AnnoRoundTrip.NeverOld | packages/pagecraft/native/djvu/upstream/libdjvu/DjVuAnno.cpp:584-612 | printed text never switches the parser to the old escapes |
| AnnoRoundTrip.RoundTrip | packages/pagecraft/native/djvu/upstream/libdjvu/DjVuAnno.cpp:614-636 | in both layouts the printed form of any well-formed objects parses to the same objects, to the end of the text |
| AnnoReprint.ParsedWellFormed | packages/pagecraft/native/djvu/upstream/libdjvu/DjVuAnno.cpp:516-582 | whatever the text, the objects read of it are ones that a text can hold |
| AnnoReprint.Reprint | packages/pagecraft/native/djvu/upstream/libdjvu/DjVuAnno.cpp:614-636 | reading any text, even one cut off or wrong, printing and reading again gives the same objects |
| Directory.PagesInserted | packages/pagecraft/native/djvu/upstream/libdjvu/DjVmDir.cpp:676-707 | inserting a file among the files inserts it among the pages at the number of pages before it, or leaves the pages alone |
| Directory.PagesWithout | packages/pagecraft/native/djvu/upstream/libdjvu/DjVmDir.cpp:722-743 | deleting a file deletes it among the pages, or leaves the pages alone |
| Directory.Dir.InsertFile | packages/pagecraft/native/djvu/upstream/libdjvu/DjVmDir.cpp:646-709 | the file stands where asked, the pages are the page files in order with their numbers, both indexes are exact; a duplicate id or name changes nothing; a second file of shared annotations is refused only after the indexes changed, which leaves them wrong |
| Directory.SecondShared | packages/pagecraft/native/djvu/upstream/libdjvu/DjVmDir.cpp:665-674 | a second file of shared annotations is refused, and the index by id has it all the same |
| Directory.Dir.DeleteFile | packages/pagecraft/native/djvu/upstream/libdjvu/DjVmDir.cpp:711-746 | the file is gone from the list, the pages and both indexes; an unknown id changes nothing |
| Directory.Dir.SetFileName | packages/pagecraft/native/djvu/upstream/libdjvu/DjVmDir.cpp:748-773 | the name changes unless another file has it; the index by name stays exact |
| Directory.Dir.IdToFile | packages/pagecraft/native/djvu/upstream/libdjvu/DjVmDir.cpp:535-551 | the file with the id, if there is one |
| Directory.Dir.FilePos | packages/pagecraft/native/djvu/upstream/libdjvu/DjVmDir.cpp:608-617 | the position of a file in the list, -1 when it is not there |
| Directory.Dir.PagePos | packages/pagecraft/native/djvu/upstream/libdjvu/DjVmDir.cpp:619-626 | the position of a page among the files, which has that many pages before it |
| Directory.Dir.Renumber | packages/pagecraft/native/djvu/upstream/libdjvu/DjVmDir.cpp:700-706 | the pages from one on are numbered, those before keep their numbers |
| PageMoves.EarlierStep | packages/pagecraft/native/djvu/upstream/libdjvu/DjVuDocEditor.cpp:1226-1246 | one more selected page goes to max(p + shift, i); those moved before it stay, and the others keep their order |
| PageMoves.LaterStep | packages/pagecraft/native/djvu/upstream/libdjvu/DjVuDocEditor.cpp:1247-1268 | one more selected page goes to min(p + shift, N - k + i); those moved before it stay, and the others keep their order |
| PageShifts.ShiftedPages | packages/pagecraft/native/djvu/upstream/libdjvu/DjVuDocEditor.cpp:1211-1269 | whatever pages are listed, none is lost or doubled and the others keep their order; pages listed once each keep theirs too, and go as far as asked without passing one another or the ends |
| PageShifts.EarlierRun | packages/pagecraft/native/djvu/upstream/libdjvu/DjVuDocEditor.cpp:1219-1246 | whatever pages are listed, moving them one after another towards the front loses and doubles none and keeps the order of the others; without repeats page i ends at max(p + shift, i) |
| PageShifts.LaterRun | packages/pagecraft/native/djvu/upstream/libdjvu/DjVuDocEditor.cpp:1247-1268 | the same towards the end, where page i of k ends at min(p + shift, N - k + i) |
| PageShifts.EarlierRepeats | packages/pagecraft/native/djvu/upstream/libdjvu/DjVuDocEditor.cpp:1226-1246 | a page listed m times in a row goes on as long as there is room before it, and then one page back each time |
| PageShifts.LaterRepeats | packages/pagecraft/native/djvu/upstream/libdjvu/DjVuDocEditor.cpp:1247-1268 | the same towards the end, with a target before the first page meaning the last |
| PageShifts.RepeatMovesBack | packages/pagecraft/native/djvu/upstream/libdjvu/DjVuDocEditor.cpp:1226-1246 | of two pages the first, listed twice and moved towards the front, becomes the second |
| PageMoves.RestMoved | packages/pagecraft/native/djvu/upstream/libdjvu/DjVuDocEditor.cpp:1148-1176 | moving a selected element keeps the order of the others |
| PageMoves.MultisetMoved | packages/pagecraft/native/djvu/upstream/libdjvu/DjVuDocEditor.cpp:1148-1176 | moving an element loses and doubles none |
| PageEditor.LandsBefore | packages/pagecraft/native/djvu/upstream/libdjvu/DjVuDocEditor.cpp:1161-1172 | where a page file lands among the pages when it is put just before another |
| PageEditor.Editor.MoveFile | packages/pagecraft/native/djvu/upstream/libdjvu/DjVuDocEditor.cpp:1099-1146 | the file lands where asked, right behind it those of the later files that it includes, each included by one moved before it, and all others keep their order; every file that a moved one includes has been moved, before or now, or stands before the position or right behind the block; the position behind the last of them is returned, every record is kept, and when no page is included only the file itself moves among the pages |
| FileMoves.IncludedFollows | packages/pagecraft/native/djvu/upstream/libdjvu/DjVuDocEditor.cpp:1129-1141 | of four files, of which the second includes the last, the move of the second to the front takes the last along |
| FileMoves.BroughtTwice | packages/pagecraft/native/djvu/upstream/libdjvu/DjVuDocEditor.cpp:1129-1141 | what was dealt with stays so when more is gathered behind, and what is dealt with there is dealt with |
| FileMoves.BroughtUp | packages/pagecraft/native/djvu/upstream/libdjvu/DjVuDocEditor.cpp:1135-1140 | the files that a later file includes are dealt with when it has been moved up with them |
| FileMoves.NotBehind | packages/pagecraft/native/djvu/upstream/libdjvu/DjVuDocEditor.cpp:1135-1140 | a file that does not stand behind the position stands before it or right there |
| FileMoves.PulledTwice | packages/pagecraft/native/djvu/upstream/libdjvu/DjVuDocEditor.cpp:1129-1141 | what is gathered behind what has been gathered makes one block, and the files left keep their order |
| FileMoves.LandedPulled | packages/pagecraft/native/djvu/upstream/libdjvu/DjVuDocEditor.cpp:1135-1140 | moving a later file with those it includes gathers a block at the position and leaves what is before it alone |
| FileMoves.PulledLanded | packages/pagecraft/native/djvu/upstream/libdjvu/DjVuDocEditor.cpp:1112-1142 | a file put at its place and the block gathered behind it are what the move of the file promises |
| PageEditor.Editor.MovePage | packages/pagecraft/native/djvu/upstream/libdjvu/DjVuDocEditor.cpp:1148-1176 | no file is lost; when no page is included, page p becomes page `to`, or the last one for a target outside the document; a bad page is refused |
| PageEditor.SortList | packages/pagecraft/native/djvu/upstream/libdjvu/DjVuDocEditor.cpp:1193-1209 | a sorted list of the same numbers |
| PageEditor.Editor.MovePages | packages/pagecraft/native/djvu/upstream/libdjvu/DjVuDocEditor.cpp:1211-1269 | for any list no file is lost, doubled, renamed or changed in kind; when no page is included the listed pages, sorted, each as often as it is listed, are moved one after another as PageShifts.Shifted says, the pages not listed keep their order, and without repeats page i of the k selected ends at max(p_i + shift, i) or min(p_i + shift, N - k + i) and the selected keep theirs; a negative number is an error before anything moves |
| BundleFormat.DirectoryLength | packages/pagecraft/native/djvu/upstream/libdjvu/DjVmDoc.cpp:376-391 | the length of a directory does not depend on the offsets in it |
| BundleDirectory.EncodeDirectory | packages/pagecraft/native/djvu/upstream/libdjvu/DjVmDir.cpp:389-525 | the bytes are the version, the count, the offsets and the packed sizes, flags and strings; two files of shared annotations are refused |
| BundleDirectory.DecodeDirectory | packages/pagecraft/native/djvu/upstream/libdjvu/DjVmDir.cpp:211-386 | a directory written in any of the four forms, of version 0 or 1, bundled or not, comes back, missing names and titles being the id; whatever is accepted tells its files apart |
| BundleDirectory.CheckUnique | packages/pagecraft/native/djvu/upstream/libdjvu/DjVmDir.cpp:368-384 | accepted exactly when the names and the ids are distinct |
| BundleDirectory.FlagAt | packages/pagecraft/native/djvu/upstream/libdjvu/DjVmDir.cpp:271-289 | the type and the name and title flags read back from the flag byte of either version |
| BundleDirectory.OffsetAt | packages/pagecraft/native/djvu/upstream/libdjvu/DjVmDir.cpp:240-260 | the offset, and in version 0 the size, read back where they stand |
| BundleDirectory.TextIs | packages/pagecraft/native/djvu/upstream/libdjvu/DjVmDir.cpp:306-337 | a string without a zero reads back |
| Bundle.Measure | packages/pagecraft/native/djvu/upstream/libdjvu/DjVmDoc.cpp:350-374 | every file must have data that are not empty; its size is theirs |
| Bundle.Predict | packages/pagecraft/native/djvu/upstream/libdjvu/DjVmDoc.cpp:389-399 | offsets follow one another at the next even position from the end of the front |
| Bundle.Store | packages/pagecraft/native/djvu/upstream/libdjvu/DjVmDoc.cpp:414-427 | each file is put at the next even position, which is the offset predicted for it |
| Bundle.Write | packages/pagecraft/native/djvu/upstream/libdjvu/DjVmDoc.cpp:350-433 | writing succeeds exactly when every file has data that are a chunk and at most one has shared annotations; every file then stands at the offset its directory entry names |
| Bundle.Read | packages/pagecraft/native/djvu/upstream/libdjvu/DjVmDoc.cpp:435-469 | each file read is connected to the part of the document its entry names |
| Bundle.RoundTrip | packages/pagecraft/native/djvu/upstream/libdjvu/DjVmDoc.cpp:350-469 | a document written, whose files fit their fields, reads back with the same files, order, types, ids, names, titles and data |
| ArraySort.Insert | packages/pagecraft/native/djvu/upstream/libdjvu/Arrays.h:576-583 | inserting an element among sorted ones keeps them sorted and the elements the same |
| ArraySort.Partition | packages/pagecraft/native/djvu/upstream/libdjvu/Arrays.h:586-610 | both scans stay within the range, the two ranges left cover it, are shorter, and share at most one element |
| ArraySort.LowerStays | packages/pagecraft/native/djvu/upstream/libdjvu/Arrays.h:611-613 | sorting the lower range, the shared element included, leaves what lies below the upper range at most the pivot |
| ArraySort.Together | packages/pagecraft/native/djvu/upstream/libdjvu/Arrays.h:611-613 | two sorted ranges about the pivot that meet or share an element make one |
| ArraySort.Sort | packages/pagecraft/native/djvu/upstream/libdjvu/Arrays.h:568-614 | the range is sorted under any total preorder, has the same elements, and the rest of the array is untouched |
| MemoryStream.Memory.Write | packages/pagecraft/native/djvu/upstream/libdjvu/ByteStream.cpp:884-927 | the bytes are overwritten at the cursor or extended past the end, wherever the cursor is, and no other byte changes; every block below the size stays allocated exactly when the write leaves no whole block out between the end and the cursor |
| MemoryStream.ReservedBlocks | packages/pagecraft/native/djvu/upstream/libdjvu/ByteStream.cpp:890-912 | the blocks allocated for a write are those it needs, and all there are below the size unless a whole block is skipped |
| MemoryStream.Memory.ReadAt | packages/pagecraft/native/djvu/upstream/libdjvu/ByteStream.cpp:929-948 | the bytes from a position on, as many as there are up to the number asked for |
| MemoryStream.Memory.Read | packages/pagecraft/native/djvu/upstream/libdjvu/ByteStream.cpp:950-956 | the bytes at the cursor, which moves behind them |
| MemoryStream.Memory.Seek | packages/pagecraft/native/djvu/upstream/libdjvu/ByteStream.cpp:964-980 | the cursor moves to any position from the beginning on; a negative one is refused and changes nothing |
| MemoryStream.WrittenStep | packages/pagecraft/native/djvu/upstream/libdjvu/ByteStream.cpp:913-922 | copying into one block advances the write by that much and changes no other byte |
| MemoryStream.WriteReads | packages/pagecraft/native/djvu/upstream/libdjvu/ByteStream.cpp:884-956 | a write reads back, and the bytes before and after it are as they were |
| MemoryStream.WriteAndRead | packages/pagecraft/native/djvu/upstream/libdjvu/ByteStream.cpp:884-980 | what is written at the cursor is read when the cursor goes back |
| MemoryStream.SkippedBlock | packages/pagecraft/native/djvu/upstream/libdjvu/ByteStream.cpp:890-912 | a byte written to a new stream at 0x1001 leaves block 0 without memory, although its bytes are below the size |
| MarkupTree.AppendedLinked | benchmarks/reader_native/rust/src/markup.rs:40-69 | appending a node behind the last child of its parent keeps first, last, next, previous and count those that the parents determine |
| MarkupTree.SiblingsMatch | benchmarks/reader_native/rust/src/markup.rs:58-68 | a next neighbour has the same parent and points back |
| MarkupTree.EndsMatch | benchmarks/reader_native/rust/src/markup.rs:58-68 | a node without a next neighbour is its parent's last child, one without a previous neighbour the first |
| MarkupTree.OpenPush | benchmarks/reader_native/rust/src/markup.rs:44-46 | after a node is added under the innermost open one, the open nodes and the new one are its path from the root |
| Markup.NodeAddsRow | benchmarks/reader_native/rust/src/markup.rs:40-69 | a node more adds one row and keeps the document sound: linked, in preorder, its attributes tiling the arrays, its names distinct |
| Markup.Builder.Node | benchmarks/reader_native/rust/src/markup.rs:40-69 | a node is added under the innermost open element exactly below the limit of ten million |
| Markup.Builder.Start | benchmarks/reader_native/rust/src/markup.rs:71-91 | an element opens unless it would be a second root or one node too many; its name is interned, and its attributes are those given, without declarations of namespaces when these are not kept |
| Markup.Builder.Intern | benchmarks/reader_native/rust/src/markup.rs:76-79 | a name is stored once, and its id leads to it |
| Markup.Builder.End | benchmarks/reader_native/rust/src/markup.rs:93-103 | the innermost element is closed; a wrong name is refused |
| Markup.Builder.Text | benchmarks/reader_native/rust/src/markup.rs:105-113 | a text is added under the innermost open element, or dropped outside the elements |
| Markup.Builder.Finish | benchmarks/reader_native/rust/src/markup.rs:115-119 | a document is finished exactly when it has a root and no element is open, and then it is sound |
| Markup.RowExact | benchmarks/reader_native/rust/src/markup.rs:71-113 | a row more keeps the names in the order of their first occurrence and gives every text its own place |
| MarkupColumns.RowsDetermine | benchmarks/reader_native/rust/src/markup.rs:12-28 | two documents with the same rows are the same in every column: links, names, texts and attribute ranges |
| MarkupHtml.NoReturnKept | benchmarks/reader_native/rust/src/markup.rs:130-132 | a text without a carriage return is kept as it is |
| MarkupHtml.LineKept | benchmarks/reader_native/rust/src/markup.rs:130-132 | every line is kept, and a carriage return, alone or with the line feed after it, becomes one line feed |
| MarkupHtml.EmitTop | benchmarks/reader_native/rust/src/markup.rs:222-266 | recursive preorder into the builder gives the rows of one root within the limit, and nothing otherwise |
| MarkupHtml.RemainingVisits | benchmarks/reader_native/rust/src/markup.rs:259-261 | the children pushed last first do what visiting them in order does |
| MarkupHtml.Turn | benchmarks/reader_native/rust/src/markup.rs:231-263 | a turn of the loop does not change what the work left will bring the rows to |
| MarkupHtml.ParseHtml | benchmarks/reader_native/rust/src/markup.rs:222-266 | the document has exactly the rows of recursive preorder; there is one exactly when the tree has one outermost element and is within the limit |
| MarkupHtml.OneDocument | benchmarks/reader_native/rust/src/markup.rs:222-266 | the document of a tree is one and the same in all its columns |
| MarkupHtml.ReadBack | benchmarks/reader_native/rust/src/markup.rs:222-266 | the kinds, parents, names and attributes of the rows determine the tree they were made from |
| MarkupHtml.DocumentReadsBack | benchmarks/reader_native/rust/src/markup.rs:222-266 | a finished document gives back everything that is kept of the tree |

## Left out

- BlockSort.BSort.Run: for blocks of more than 1024 symbols the quicksort stack of 512 segments may fill, on which the source fails an assertion; the model returns false there, exactly at the guard of the source, and what is proved of longer blocks is proved of runs that return. Which of them do is not said in terms of the block.
- HuffDecoder.Decoder.Decode: a stream that has a meaning within the depth and length limits is only promised to decode when the dictionary fits the cache with every entry both packed and expanded (or, more closely, when the pending output is covered); otherwise the cache limit may be hit.
- Directory.Dir.InsertFile: a second file of shared annotations is refused after the indexes by id and name have been changed; this is what the code does, and the contract says that the directory is then no longer valid.
- Blocks.BlockList.GetRange: the comment in the source promises 0 for a position whose byte is unknown; the code returns -1 inside an unknown block and 0 past the end, and the model follows the code.
- DataPool.Pool.AddData: an offset past the end of the data pads the buffer with zeros and does not write the bytes, while the map counts them as known; the contract says exactly when what was supplied is stored.
- PageEditor.Editor.MovePages: a file that includes a page takes that page along when it moves (FileMoves.IncludedFollows), and then the pages need not stand where they were asked to; what the contract says of their places is for files that include no page. The names of the files a file includes are a map from its id.
- PageEditor.SortList: the library sort the source calls with a comparison function is an insertion sort here.
- MemoryStream.Memory.Write: the bytes between the end and a cursor past it are arbitrary, as in memory just allocated; after a write that skips a whole block the stream is not used further.
- Bundle.Write: for documents without renaming, in which names are loaded as they are saved; the outline chunk is bytes given from outside, and whether the data of a file begin as a chunk is a parameter.
- BundleDirectory.DecodeDirectory: of input that is in none of the four forms, but is accepted all the same, only that ids and names are distinct; only bundled directories of version 1 are written.
- DataPool.Pool.OwnCallback: what the header of the data says about their length is a parameter.
- MobiText.Source.ReadRaw: the file is its bytes; reading from it never fails.
- The arithmetic coder is not part of this model: it is a channel that returns each bit as sent when the same context is asked for, and anything otherwise.
- The compressor inside the directory chunk is a pair of functions of which losslessness is assumed where it is needed; that the codec above is lossless is proved separately.
- The chunk reader and writer is reduced to the layout of EA IFF 85 section 3: id, length, content, and a byte of padding before the next chunk when the position is odd.
- Integer overflow of sizes, offsets and counters outside the codec, and running out of memory, are not modelled.
- Character classes of the annotation parser are those of the C locale, and its texts hold no zero byte; numbers are read as 64 bits and kept as 32.
- Locks, waiting readers, connected and file-backed pools, and callbacks that change the pool are left out: a pool is used by one thread and its callbacks do not touch it.
- Clearing the data of a pool is left out.
- The position tracking stream over a pool, whose direct reads do not keep the cursor in step, is left out.
- Finding a free id and removing a file with those that only it includes are left out of the editor.
- Renaming on save and indirect documents are left out, because the flag for a name can then be set where no name is written.
- The tokenizer loop for XML is left out; the builder it drives is modelled, and the HTML tree is given.
- Resolving duplicate names, which does not promise unique ones, outlines, thumbnails, text search, the reader's bindings and user interface are left out.
- Nothing was executed; the claims are those the verifier accepts.
