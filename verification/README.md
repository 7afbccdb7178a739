# Verified model of the RTSA reader, spectra decoder, transmit sink and link meter

This project models five parts of the `sdr-aaronia-rs` crate in Dafny and proves
properties of them.

- **Spectra decompressor** (`Bits`, `BitReader`, `Rice`, `RiceRoundTrip`, `Haar`,
  `HaarLaws`, `HaarImpulse`, `Decompressor`). A bit reader with a 64-bit reservoir feeds a tiered Rice
  decoder, which feeds an in-place two-dimensional inverse Haar transform. The reservoir
  is a number below 2^64 with its shifts and masks written out, so overflow of the left
  shift is part of the model. Samples are reals and the square root of one half is a
  parameter `c`; the laws assume `2*c*c == 1`.
- **RTSA files** (`ByteFile`, `Chunks`, `ChunkPrint`, `ChunkScan`, `ChunkChain`,
  `ChainPrint`, `Mdtt`, `PlaybackIndex`, `Playback`, `PlaybackExact`, `RecordedFile`). A file is a byte string with a cursor
  whose reads may come back short. On it run the sample-chunk scan with its block-wise
  resynchronisation, the broad signature search, the linked-list walkers, the metadata
  type-definition parser, and the sample cursor with its start table, search hint, seek
  and read. Every layout is also written down as a printer, and what is read back from
  printed chunks, lists and files is proved.
- **Transmit sink** (`BurstSchedule`, `TxSink`). A batching FIFO in front of a bounded
  channel; the sender task is a set of steps (receive, complete with success, failure or
  timeout, die) that may run any number of times between two steps of the sink. Clock
  readings are arbitrary reals.
- **Throughput meter** (`Meter`). The meter as a class, and its behaviour over whole
  runs of events.
- **Config tree** (`ConfigTree`). Discovery of the block to write a field to, and the
  read-back of that field.

Classes and methods follow the code's own state and loops; each is proved against a
specification function, and the main results are lemmas about those functions.

## Where the code differs from its comments or from a simpler picture

The model follows the code.

- Discovery returns the nearest `Block_*` ancestor of a field; the comment above it says
  the outermost one (`ConfigTree.NearestBlockWins`), which is true exactly when only one
  block is around the field (`ConfigTree.OutermostIff`).
- The read-back passes over a field without a numeric value, and a second item with the
  block's name can send it elsewhere (`ConfigTree.NonNumericFieldSkipped`,
  `ConfigTree.DuplicateBlockMisread`); `ConfigTree.WriteTargetIsReadBack` says exactly when
  neither happens.
- An uncompressed sample chunk of unknown sample type has a stride of zero and makes the
  read fail; a comment says such chunks are skipped (`PlaybackExact.UnknownTypeFails`).
  `PlaybackExact.SkippedIff` says exactly which chunks are.
- Byte positions are u64 products of untrusted fields. They wrap around in the model, as
  they do in a build without overflow checks (`PlaybackExact.SkipWraps`); in a build with
  such checks the same inputs panic. Well-formed chunks never get there
  (`PlaybackExact.OffsetsFit`).
- A chunk whose tag straddles the scan bound is taken when the scan lands on it and passed
  over when resynchronisation would have to find it. `ChunkScan.ScanIsSimpleIff` says
  exactly when this matters, `ChunkScan.StraddlerExample` gives an input on which it does.
- A horizontal pass visits only the rows, and a vertical pass only the columns, divisible by
  its step, so with unequal factors of two some rows or columns miss the coarse passes
  (`HaarImpulse.HorizontalPass`, `HaarImpulse.VerticalPass`).
- The search hint can change which chunk an unfiltered read selects.
  `PlaybackIndex.HintIrrelevantIff` says exactly when it cannot.

## Model

| member | source | states |
|---|---|---|
| BitReading.BitReader.Fill | src/decompression.rs:42-48 | Refilling never changes the bit position, keeps the reservoir's low bits equal to the unread bits loaded, and stops only with more than 56 bits held or the input exhausted |
| BitReading.BitReader.Position | src/decompression.rs:51-53 | The position is a bit count within the input |
| BitReading.BitReader.ReadBit | src/decompression.rs:56-68 | Returns the next bit and advances by one; fails exactly at the end of the input, leaving the position alone |
| BitReading.BitReader.ReadBits | src/decompression.rs:71-86 | Returns the next n bits, most significant first, across any refills; fails exactly when fewer remain, leaving the position alone |
| BitReading.ShiftInByte | src/decompression.rs:44 | The u64 left shift loses only consumed bits: the low bits become the old live bits followed by the new byte |
| BitReading.TakeBits | src/decompression.rs:84-85 | Shift and mask extract the oldest live bits and leave the others live |
| Bits.BitsMostSignificantFirst | src/decompression.rs:42-86 | Which bit of which byte is bit number 8k + j of a byte string |
| Rice.UnpackCoefficients | src/decompression.rs:105-169 | The loop over the bit reader computes the specification `Unpacked` on every byte string |
| Rice.CoefficientOf | src/decompression.rs:151-163 | Adding the sizes of the lower tiers and applying the sign gives the coefficient of a tier and residual |
| RiceRoundTrip.TiersPartition | src/decompression.rs:137-157 | Every magnitude up to 613566755 lies in exactly one tier |
| RiceRoundTrip.ResidualMeaning | src/decompression.rs:149-163 | Every residual of every tier is a coefficient of that tier within range, and only the code of -0 is not the canonical one |
| RiceRoundTrip.DocumentedTiers | src/decompression.rs:130-163 | The whole code table in numbers: the zeros, stop bit, magnitude bits and sign of every coefficient |
| RiceRoundTrip.DocumentedTier0 | src/decompression.rs:345-353 | The code table's entries for magnitudes 0 to 3 |
| RiceRoundTrip.DocumentedTier1 | src/decompression.rs:354-359 | The code table's first entries for magnitudes past 3 |
| RiceRoundTrip.UnpackedIffWritten | src/decompression.rs:105-169 | The unpacker returns a sequence if and only if the bits write it code by code up to a place where they end or where no code starts, within the output limit |
| RiceRoundTrip.TenZerosStop | src/decompression.rs:126-135 | Ten zeros in a row start no code |
| RiceRoundTrip.OnlyTheLimitFails | src/decompression.rs:110-148 | Unpacking fails if and only if 2^24 coefficients are written with bits to spare; the residual read never fails |
| RiceRoundTrip.RoundTrip | src/decompression.rs:105-169 | Coefficients written with the code table and zero-padded to a byte boundary are returned exactly; otherwise the limit is reported, and it is said when |
| Haar.CoarsestStep | src/decompression.rs:185-191 | The doubling loops end with step 2^max of the two dimensions' exponents of two, never above both dimensions |
| Haar.InverseWaveletTransform | src/decompression.rs:184-202 | The level loop runs exactly the passes of `InversePasses` in place |
| Haar.WaveTransformStep | src/decompression.rs:205-231 | The strided double loop applies the butterflies of all grid positions in increasing order |
| Haar.MaskTestsTwoPower | src/decompression.rs:186-199 | ANDing with 2^k - 1 is zero exactly when k is at most the number's exponent of two |
| HaarLaws.HorizontalPair | src/decompression.rs:195-224 | A horizontal pair lies inside the buffer, in one row, and its second position starts no pair |
| HaarLaws.VerticalPair | src/decompression.rs:198-224 | A vertical pair lies inside the buffer, in one column, and its second position starts no pair |
| HaarLaws.FittingPassIsDisjoint | src/decompression.rs:193-231 | In every pass that runs, no two pairs overlap and the bounds check never drops a pair |
| HaarLaws.SweepValue | src/decompression.rs:217-229 | What a pass leaves at each position: the scaled sum, the scaled difference, or the old value |
| HaarImpulse.HorizontalPass | src/decompression.rs:205-229 | What a horizontal pass leaves in every cell, in rows and columns: the scaled sum, the scaled difference, or the old value |
| HaarImpulse.VerticalPass | src/decompression.rs:205-229 | The same for a vertical pass |
| HaarImpulse.HorizontalPairAverages | src/decompression.rs:217-227 | The sum and the difference of a pair's image are 2c times its two values |
| HaarImpulse.VerticalPairAverages | src/decompression.rs:217-227 | The same for vertical pairs |
| HaarLaws.PassIsSelfInverse | src/decompression.rs:205-231 | Each pass is its own inverse |
| HaarLaws.TransformInvertible | src/decompression.rs:184-202 | Running the passes in reverse order undoes the transform, and the other way round |
| HaarLaws.TransformKeepsEnergy | src/decompression.rs:184-231 | The sum of squares of the buffer is unchanged |
| HaarImpulse.FirstCoefficientSpreads | src/decompression.rs:184-202 | A lone first coefficient is spread evenly over as many rows and columns as the dimensions have factors of two, scaled by c once per pass, and reaches nothing else, for any dimensions |
| HaarImpulse.FirstCoefficientFills | src/decompression.rs:184-202 | For dimensions that are powers of two it fills the whole buffer |
| HaarImpulse.RunScales | src/decompression.rs:184-231 | The passes scale with the buffer |
| HaarLaws.LevelCount | src/decompression.rs:193-201 | As many horizontal passes as the columns have factors of two, as many vertical ones as the rows have |
| HaarLaws.LevelsPresent | src/decompression.rs:193-201 | A pass at step 2^k runs exactly when k is below the dimension's exponent of two |
| Decompression.Decompress | src/decompression.rs:239-327 | Every error in the order of the checks, each with its numbers; otherwise rows*cols values, the transform of the fitted dequantised coefficients |
| Decompression.OutputRecoverable | src/decompression.rs:171-326 | For any payload, each coefficient times a tenth of 2^(factor - 1), or zero past the last, can be read back off the output, which has their energy |
| Decompression.CodecRoundTrip | src/decompression.rs:239-327 | Coefficients encoded with the code table are recovered one by one from the decompressed output, times a tenth of 2^(factor - 1) |
| Decompression.FactorDoubles | src/decompression.rs:171-181 | A compression factor one higher doubles every value of the output |
| Decompression.LoneCoefficient | src/decompression.rs:239-327 | The value every cell takes when the payload holds one coefficient |
| ByteFile.Reader.ReadUpTo | src/file_source.rs:2524-2535 | Fills the buffer or reaches the end of the file, however short the single reads are |
| ByteFile.FieldBytes | src/file_source.rs:2537-2562 | The fields are little-endian, byte by byte |
| Chunks.ReadHeader | src/file_source.rs:2537-2562 | Reads the header at the cursor, or none at the end of the file or over the size limit |
| ChunkPrinting.HeaderReadsBack | src/file_source.rs:2537-2562 | A header written field by field reads back wherever it stands |
| ChunkPrinting.HeaderRefusedIff | src/file_source.rs:2537-2553 | A header is refused exactly when the file ends inside it or its size is over 10^9 |
| ChunkPrinting.KnownTags | src/file_source.rs:1640-1655 | The known tags are eleven four-letter names |
| ChunkPrinting.SampReadsBack | src/file_source.rs:2644-2684 | A sample chunk written field by field reads back wherever it stands, for all type codes and whatever stands in the fields nothing reads |
| ChunkPrinting.ValueWidths | src/file_source.rs:2625-2642 | The stride of a sample for every type code |
| Chunks.FirstWindow | src/file_source.rs:1722-1724 | Finds the first four bytes of a block that satisfy a test, or none if there are none |
| ChunkScan.ResyncToChunkId | src/file_source.rs:1710-1740 | Stops at the least offset whose known tag lies wholly before the end, else at the end, under arbitrary short reads |
| ChunkScan.ScanForSampChunks | src/file_source.rs:1658-1699 | The block-wise scan returns exactly what the byte-at-a-time walk returns, and terminates on every file |
| ChunkPrinting.ScanOfPrinted | src/file_source.rs:1658-1699 | A scan over written chunks laid end to end returns exactly the sample chunks among them, with their fields and places, in order |
| ChunkScan.ResyncRefinesWalk | src/file_source.rs:1701-1740 | Resynchronising skips nothing that single steps would have accepted |
| ChunkScan.WalkIsOrdered | src/file_source.rs:1667-1697 | The chunks found are real sample chunks at strictly increasing offsets, and none overlaps the next |
| ChunkScan.ScanIsSimpleIff | src/file_source.rs:1664-1697 | The scan is the walk that accepts only tags wholly before the end, from every start, if and only if no sample chunk's tag straddles the end |
| ChunkScan.WalkIsSimpleAndAStraddler | src/file_source.rs:1664-1697 | In general the scan finds what that walk finds plus at most one straddling chunk |
| ChunkScan.WholeFileScanIsSimple | src/file_source.rs:1664-1697 | A scan bounded by the end of the file is that walk |
| ChunkScan.StraddlerExample | src/file_source.rs:1667-1683 | A concrete file and bound on which the two walks differ |
| ChunkScan.BroadSearchForChunk | src/file_source.rs:1408-1455 | Returns the first occurrence in the file; without one, none starts below the bound, unless a single read came back with fewer than four bytes before the end of the file, and then none starts before that read; terminates whatever the bound |
| ChunkChain.ParseChain | src/file_source.rs:2370-2482 | The sub-stream, antenna and metadata walkers file exactly the chunks of the list that starts at the given offset |
| ChunkChain.ParseSprvTree | src/file_source.rs:2486-2515 | The preview walker appends exactly the chunks of its list |
| ChunkChain.PathExtends | src/file_source.rs:2376-2414 | Following one more link keeps every offset visited at most once |
| ChunkChain.ChainUnique | src/file_source.rs:2376-2414 | The list up to the first repeat, null, bad tag or short read is determined by the file and the start |
| ChunkChain.ChainBounded | src/file_source.rs:2375-2376 | However the links point, a list has no more chunks than the file has bytes |
| ChunkChain.LastWriteWins | src/file_source.rs:2413-2413 | The entry under a key is the last chunk with that key, else the earlier entry |
| ChunkChain.RefusedLinks | src/file_source.rs:2688-3014 | A chunk cut short by the end of the file, or a metadata payload over 16 MiB, ends a list |
| ChainPrinting.LinkReadsBack | src/file_source.rs:2688-3014 | A linked chunk of each of the four kinds, written field by field, reads back its key and its link |
| ChainPrinting.WrittenListIsFound | src/file_source.rs:2370-2515 | A list written into a file is the list found from its first chunk, with its keys, in order |
| Mdtt.ReadMetaTypeDefinition | src/file_source.rs:2917-2986 | The reader-driven recursion computes the specification parser and leaves the reader after what it parsed |
| Mdtt.PrintThenParse | src/file_source.rs:2917-2986 | Parsing a printed definition, between any other bytes, gives the definition back and consumes exactly its bytes |
| Mdtt.ParsedIsPrintable | src/file_source.rs:2917-2986 | On any bytes, what is parsed is a definition that can be written at its depth, and as long as its printed form |
| Mdtt.ParserImage | src/file_source.rs:2899-2986 | The definitions the parser can return are exactly the printable ones, and respect the depth bound |
| Mdtt.ParsedFields | src/file_source.rs:2931-2985 | What each field of a parsed definition is in its bytes, and that objects have as many elements as they declare, arrays and vectors one, scalars none |
| Mdtt.RefusedDefinitions | src/file_source.rs:2921-2959 | Nesting over 32, a type code over 7, and objects of more than 4096 fields are refused |
| Mdtt.ScalarsParse | src/file_source.rs:2931-2985 | Scalars need nothing but their seventeen bytes |
| PlaybackIndex.BuildStartTable | src/file_source.rs:957-970 | Each chunk's entry is the number of samples of its own sub-stream before it |
| PlaybackIndex.ScanIsIndexed | src/file_source.rs:1667-1697 | What the scan collects has distinct ascending offsets and u32 sample counts, as the table needs |
| PlaybackIndex.TilesExactly | src/file_source.rs:961-965 | The ranges of one sub-stream tile 0 to its total without gap or overlap |
| PlaybackIndex.HintIrrelevantIff | src/file_source.rs:2064-2078 | The wrap-around search gives the same chunk from every hint if and only if no two selected chunks hold the sample |
| PlaybackIndex.HintIrrelevantWithFilter | src/file_source.rs:2064-2078 | With a sub-stream filter the hint is only a speed-up |
| PlaybackIndex.HintMattersUnfiltered | src/file_source.rs:2065-2078 | Without one, two overlapping sub-streams make the hint decide |
| PlaybackIndex.LocateComplete | src/file_source.rs:2067-2077 | If any selected chunk holds the sample, the search finds one |
| Playback.RtsaSource.FindChunk | src/file_source.rs:2064-2077 | The loop over `(hint..n)` and `0..hint` finds the first chunk in that order that holds the cursor |
| Playback.RtsaSource.ReadSamples | src/file_source.rs:2044-2240 | Result, cursor and hint are those of the specification `ReadFrom`, u64 wrap-around of the byte position included; the skip loop terminates on every index |
| Playback.RtsaSource.SeekToSample | src/file_source.rs:2299-2339 | Succeeds exactly when the index is in bounds and some chunk of the stream holds it; leaves the reader at the u64 position of that sample and the hint at zero |
| Playback.RtsaSource.Reset | src/file_source.rs:2346-2361 | Cursor and hint are zero and the reader is at the first chunk of the stream |
| Playback.SeekThenRead | src/file_source.rs:2064-2108 | After a seek, an unfiltered read selects the chunk the seek chose and delivers the bytes at the position it left, for any interleaving of sub-streams |
| Playback.ResetThenRead | src/file_source.rs:2346-2361 | After a reset, an unfiltered read starts where the reset left the reader, unless that chunk is empty |
| PlaybackExact.PlayableRead | src/file_source.rs:2102-2180 | In a well-formed playable chunk a read takes the wanted samples up to the chunk's end, from where they are stored |
| PlaybackExact.OffsetsFit | src/file_source.rs:2102-2108 | In a well-formed playable chunk no product or sum of the byte position wraps around |
| PlaybackExact.SkipWraps | src/file_source.rs:2102-2104 | A declared sample width for which the product does wrap around |
| PlaybackExact.SkippedIff | src/file_source.rs:2119-2229 | Exactly which chunks are skipped, at any cursor: those the reader cannot decode, unless they are uncompressed and hold no complete sample there; otherwise such a chunk is an error |
| PlaybackExact.UnsupportedSkipped | src/file_source.rs:2119-2229 | Hence a well-formed chunk of another known type is skipped from its first sample |
| PlaybackExact.UnknownTypeFails | src/file_source.rs:2119-2136 | Hence an uncompressed chunk of unknown sample type makes the read fail |
| PlaybackExact.DecodableRead | src/file_source.rs:2079-2220 | What a read does with any chunk it can decode: pairs that are no pairs, compressed float chunks and chunks without a complete sample fail; otherwise as many samples as are wanted, left and wholly in the chunk |
| PlaybackExact.FailedRead | src/file_source.rs:2077-2162 | A failing chunk, or one whose samples run off the file, is an error that leaves the cursor where it was |
| PlaybackExact.ReadStaysInChunk | src/file_source.rs:2114-2136 | Whatever an uncompressed chunk declares, a read stays inside it |
| PlaybackExact.ReadIsExact | src/file_source.rs:2044-2240 | One read returns the next bytes of what is left and advances, or nothing exactly when nothing is left |
| PlaybackExact.PlaybackIsExact | src/file_source.rs:2044-2240 | From any cursor not inside a chunk to be skipped, any hint and any positive request sizes: delivered bytes followed by what is left are what was left at the outset; the end is reported exactly when all has been delivered |
| PlaybackExact.PlaybackFromStart | src/file_source.rs:2044-2240 | From the start, what is delivered is a prefix of the sub-stream's payloads in file order, and the end is reported exactly after all of it |
| PlaybackExact.SeekThenPlay | src/file_source.rs:2299-2339 | After a seek into a playable chunk, playback delivers the recording from that very sample on |
| RecordedFile.PlaybackOfWritten | src/file_source.rs:1658-2240 | Scanning a written file and playing a sub-stream delivers a prefix of the payloads written to it, and reports the end exactly after all of them |
| BurstSchedule.StartIsMaximum | src/http_sink.rs:228-238 | Each start is the maximum over earlier clock readings plus delay, and the initial end time, each plus the slots since |
| BurstSchedule.SpanCounts | src/http_sink.rs:230-238 | The slots between two bursts are one sample period per sample and one per burst |
| BurstSchedule.StartStep | src/http_sink.rs:228-238 | Each start is the wish or one sample period after the end of the burst before, whichever is later |
| BurstSchedule.StartsOrdered | src/http_sink.rs:228-238 | Later bursts start at least a burst and a sample period after earlier ones, for any clock readings |
| TxSink.Channel.SenderStep | src/http_sink.rs:149-189 | Any step of the task keeps order and sample accounting, and makes progress while the task lives |
| TxSink.Channel.Send | src/http_sink.rs:240-246 | Waits for room and queues the batch last; fails exactly when the task is gone |
| TxSink.HttpSink.PushBatch | src/http_sink.rs:215-262 | Hands the whole buffer over as one batch with the schedule's times and empties the buffer |
| TxSink.HttpSink.Work | src/http_sink.rs:277-338 | Takes all input, terminates, leaves less than a batch buffered, finishes exactly when the upstream has, then with an empty buffer; only a batch submitted by that flush can be short |
| TxSink.Conservation | src/http_sink.rs:148-262 | Accepted samples are pushed, dropped, queued, in flight or buffered; only a task that died has lost any |
| TxSink.Fifo | src/http_sink.rs:215-262 | While the task lives, settled batches, the one in flight, the queue and the buffer carry the input in order, none skipped |
| TxSink.BatchIsBlock | src/http_sink.rs:297-315 | Before the final flush, batch k is block k of the input, of exactly the batch size |
| TxSink.BurstsDisjoint | src/http_sink.rs:234-238 | At least one sample period lies between a burst's end and any later start |
| TxSink.BurstTimes | src/http_sink.rs:228-246 | The start and end a batch carries, from its submission, its length and the batch before |
| TxSink.HttpSink.constructor | src/http_sink.rs:121-202 | The sink starts empty with the rate, delay, clock reading and batch size (at least one) it was given |
| Meter.ThroughputMeter.Observe | src/link_budget.rs:536-560 | One observation moves the fields as the transition function says and reports whether the window has closed |
| Meter.ThroughputMeter.Finish | src/link_budget.rs:583-601 | The measurement computed from the fields |
| Meter.RunMeasures | src/link_budget.rs:508-560 | The mark, count, last instant, discarded bytes and closing of any run, stated by instants alone |
| Meter.MeasurementIsExact | src/link_budget.rs:536-601 | A measurement counts exactly the bytes after the mark and before mark + window, over at least half the window and less than it; its rate is that count per second |
| Meter.RateTimesSeconds | src/link_budget.rs:583-601 | The rate times the seconds from the mark to the last counted observation is the bytes counted between |
| Meter.MeasuredIff | src/link_budget.rs:583-601 | Exactly when there is a measurement |
| Meter.NonInterference | src/link_budget.rs:519-560 | Byte counts up to the mark, or from mark + window on, do not influence the answer |
| Meter.LateEventsIgnored | src/link_budget.rs:508-539 | Nothing changes the meter once its window has closed |
| Meter.ConsumerLimitedIff | src/link_budget.rs:508-560 | Over a whole run, the measurement counts as limited by the consumer if and only if a wait for the consumer comes after the mark and before the first observation at or past mark + window |
| ConfigTree.DiscoveryIsFirst | src/http_endpoints.rs:2473-2497 | Discovery returns the nearest enclosing block of the first field, in pre-order, that has one |
| ConfigTree.BlockNames | src/http_endpoints.rs:2485-2489 | Block names are those whose first six characters are `Block_` |
| ConfigTree.GroupSearchIsFirst | src/http_endpoints.rs:2502-2517 | The group search returns the items of the first item of that name that has any and that no item of the same name keeps it from, and nothing when there is none |
| ConfigTree.ReadIsFirst | src/http_endpoints.rs:2523-2535 | The read returns the value of the first item of that name that is numeric and that no item of the same name keeps it from, and nothing when there is none |
| ConfigTree.DiscoveryIsNearest | src/http_endpoints.rs:2473-2497 | What discovery returns is the name of the innermost block around the first field that lies in one, both being real places in the tree |
| ConfigTree.ReadBackIsLeafRead | src/http_endpoints.rs:1868-1887 | Group search and read together return what stands at the place `LeafRead` |
| ConfigTree.WriteTargetIsReadBack | src/http_endpoints.rs:1797-1887 | For any tree: when exactly the group search ends at the discovered block, when exactly the read-back reaches the field that block was discovered for, and when exactly the value read in that block is that field's own; unique block names leave only the field being numeric |
| ConfigTree.OutermostIff | src/http_endpoints.rs:2463-2489 | Discovery picks the outermost block around the field if and only if there is just one |
| ConfigTree.NearestBlockWins | src/http_endpoints.rs:2485-2489 | With nested blocks discovery names the inner one |
| ConfigTree.NonNumericFieldSkipped | src/http_endpoints.rs:2523-2533 | A field without a numeric value is passed over for a later field of that name |
| ConfigTree.DuplicateBlockMisread | src/http_endpoints.rs:2502-2515 | Without unique block names the read-back may look in the wrong block |

## Left out

- Decompression.CodecRoundTrip: over reals; f32 rounding, NaN and infinities are not modelled.
- Rice.UnpackCoefficients: the source's inner `while let` and residual loop are the methods `CountLeadingZeros`, `ReadCode` and `CoefficientOf`.
- Haar.InverseWaveletTransform: overflow of the `usize` step is not modelled; `CoarsestStep` shows the step stays below a dimension.
- ByteFile.Reader.ReadUpTo: I/O errors other than the end of the file, and retries of interrupted reads, do not occur.
- ChunkChain.ParseChain: one walker stands for three equal loops; a filed entry is the chunk's offset, key and link, its other fixed fields are read but not kept.
- Mdtt.PrintThenParse: names are byte strings; the replacement of invalid UTF-8 when a name becomes text is not modelled.
- PlaybackExact.PlaybackIsExact: samples are the bytes they are stored in; the conversion to floats and the int16 scale are not modelled.
- Playback.RtsaSource.ReadSamples: reverse-order raw files, which have no chunk index, are not modelled; nor is the refusal of some systems to seek past 2^63.
- Playback.RtsaSource.SeekToSample: the same.
- TxSink.HttpSink.Work: a positive sample rate is assumed; counters do not wrap.
- Header search near the stream area and the choice of stream: heuristics before the index exists.
- The rest of the metadata, timestamps and completeness scoring: field copies and arithmetic.
- The external decompression tool, temporary files, HTTP requests, authentication and logging.
- Link verdicts and the sample-rate ladder: short searches over fixed tables.
- The HTTP and native sources, the stream parser, the C interface and the plugins.
