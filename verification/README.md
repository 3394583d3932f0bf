# Verified models of solproxy's cores

Five parts of solproxy and its embedded HSServer library, modelled in Dafny and proved correct:

1. **Snappy** (`SnappyFormat`, `SnappyForwardCopy`, `SnappyDecode`, `SnappyBlock`, `SnappyBytes`, `SnappyEmit`, `SnappyEncode`,
   `SnappyFraming`, `SnappyReader`, `SnappyWriter`, `SnappyStream`). The block format is a grammar of elements with a
   written form and a meaning. The decoder accepts exactly the written forms and yields their meaning; the encoder's
   output means its input and never exceeds the announced bound; the stream writer and reader undo each other over any
   run and any piece sizes. The pattern-doubling copy of the amd64 decoder is proved to leave the same data as the
   byte-by-byte copy, and the decoder is proved with either.
2. **Slab allocator** (`Slabs`, `SlabSafety`, `SlabSystem`, `SlabAllocator`). One call of the search is a function on
   values. A system of any number of allocators interleaves critical sections in any order; in every reachable state
   live regions are disjoint, every used slab has one owner, and the statistics add up. The classes with the search
   loops are proved against the same functions.
3. **Throttle** (`Throttle`, `ThrottleRuns`, `ThrottleAccepts`, `ThrottleConfig`, `ThrottleGroup`, `ThrottleFromConfig`). A ring of windows is compared with an
   unbounded event log: the caps hold in every run, and without skipped windows the ring is exact.
4. **Multipart compressor** (`Multipart`, `MultipartProperties`, `MultipartCompressor`, `MultipartSnappy`). Workers finish in any order;
   the result is a function of the per-block results. The in-place merge is proved sound for exactly those block sizes
   that do not overrun.
5. **Failover scheduler** (`Scheduler`). Retries visit each node at most once and end, whatever the nodes' status does.

`Bytes` holds bytes, little-endian integers and an optional value.

## How it is modelled

- Bytes are integers below 256; shifts, masks and disjoint bit fields are divisions, remainders and sums. Where Go
  truncates (`uint8`, `uint16`, `uint32` multiplication in the hash) the model does. `int` is 64 bits wide, so the
  decoder's unsupported-literal-length error cannot arise and has no branch.
- A slice of a larger buffer is the buffer's array with a start or an end. Source slices that are only read are values.
- A method's effect is stated by a function on values, and the promises are lemmas about those functions and about runs
  of them. In `SlabSystem` a step is one critical section; the used counts that `_take_additional` reads without locks
  are an arbitrary parameter of the step.
- Parameters stand for what the code takes from outside: the checksum function, the codec of the multipart compressor,
  the current time, the status of every node at every pick, the outcome of every call, and the failures of an
  underlying writer.

## Findings

- **`encodeBlock` is called with less room than its comment asks for.** The comment asks for
  `MaxEncodedLen(len(src))` bytes (encode_other.go:105-111), but the length header has taken some of them. In a buffer
  of the size `Encode` makes, every block but the first finds that room, and the first exactly when the input has at
  least 65538 bytes (`CommentRoomIff`). An input of 17 bytes is the smallest that falls short: 51 bytes are made and 50
  are left (`SeventeenIsShort`). Nothing breaks, because 61/60 of the block and one byte is enough room
  (`SnappyEncode.EncodeBlock`, `RoomForPart`).
- **The multipart merge can destroy blocks.** A block that ends, after the move, beyond the start of the next block
  overwrites it before it is read. `MergeSoundIff` gives the exact condition on the sizes and `OverrunOfTwo` what
  becomes of two blocks. `OverrunPaysOff` and `SpoiledRun` give an input: 240000 bytes and an encoder that keeps to the
  snappy format, whose blocks of 119996 and 6065 bytes pass every acceptance rule, and only the first half comes back.
- **A score of -1 reads as "none yet" in `_pick_next`.** `PickIsLeastIff` says exactly when the pick has the least
  score; with scores -1 and 5 the node with 5 is picked (`MinusOneIsPassedOver`). A node's score can be -1, because its
  score modifier comes from its configuration and may be negative (sol_config_reader.go:54 and 85).
- **Skipped windows leave old counts standing as new ones** (`SkipOvercounts`). `TickExactIff` says exactly when moving
  the clock keeps the ring exact. The caps do not depend on it: for a limiter the ring is wide enough for, it never
  counts too little.
- **A ring of one slot is never cleared** (stats.go:33-35 always returns), so it keeps counting everything
  (`OneSlotCountsAll`). This ring is the case that `RingRefinesLog` excludes.
- **A maximum of 0 lets one request pass**, because a new throttle is open until its status is first renewed
  (`FirstRequestPasses`); `HardCap` therefore counts a maximum below 1 as 1. Only a direct call of `AddLimiter` gives
  such a maximum: the configuration refuses it (read_config.go:73-75) and the limits for public nodes are positive.
- **Some configured times span more windows than the ring has**, and then windows are counted twice.
  `LimiterFitsRing` gives the exact condition; 125 seconds is fine and 239 is not. The search for a divisor never runs
  (`SearchFindsNothing`). Limiters of a width keep their caps, whatever their maximum, exactly when they fit the ring or
  the ring has a single slot (`KeepsCapIff`); where they do not fit, it is a maximum of 1 that is exceeded
  (`WiderThanRing`), while some greater ones may still hold.

## Model

| member | source | states |
|---|---|---|
| SnappyFormat.ForwardCopyPeriod | handler_socket2/compress/snappy/decode_other.go:96-110 | a region that repeats with the copy's offset is the forward copy, and nothing else is |
| SnappyFormat.MeaningPrefix | handler_socket2/compress/snappy/encode.go:31-42 | elements that make sense on their own mean the same after earlier blocks |
| SnappyFormat.DenotesAppend | handler_socket2/compress/snappy/encode.go:31-42 | two encoded parts in a row denote their data in a row |
| SnappyDecode.ParseWire | handler_socket2/compress/snappy/snappy.go:26-50 | reading a written element gives it back with its size, whatever follows |
| SnappyDecode.WireParse | handler_socket2/compress/snappy/snappy.go:26-50 | what was read, written again, is the bytes it was read from |
| SnappyDecode.DecodeFromIsDenotes | handler_socket2/compress/snappy/decode_other.go:14-115 | the tag interpreter succeeds with m exactly on the written forms of element lists that denote m |
| SnappyDecode.DenotesUnique | handler_socket2/compress/snappy/decode_other.go:14-115 | a body denotes at most one string of bytes |
| SnappyDecode.DecodeInto | handler_socket2/compress/snappy/decode_other.go:14-115 | total; code 0 exactly when the source is the written form of elements whose data has the length of dst, and then dst is that data; nothing past dst changes |
| SnappyDecode.LiteralHeader | handler_socket2/compress/snappy/decode_other.go:18-58 | the five literal forms, with their lengths and cut-short cases |
| SnappyDecode.CopyHeader | handler_socket2/compress/snappy/decode_other.go:60-86 | the three copy forms, with offset, length and cut-short cases |
| SnappyForwardCopy.ForwardCopyInto | handler_socket2/compress/snappy/decode_other.go:88-110 | the copied region is the forward copy and the rest is unchanged |
| SnappyForwardCopy.MakeOffsetAtLeast8 | handler_socket2/compress/snappy/decode_amd64.s:409-428 | the pattern is repeated a whole number of times, to at least 8 bytes, writing at most 11 bytes from d |
| SnappyForwardCopy.FinishSlowForwardCopy | handler_socket2/compress/snappy/decode_amd64.s:430-450 | 8-byte moves continue the repetition to the end, overrunning by at most 7 bytes |
| SnappyForwardCopy.ForwardCopyFast | handler_socket2/compress/snappy/decode_amd64.s:330-471 | every way leaves the byte-by-byte forward copy and ends at d + length; nothing before d or past dst changes; the overrun is at most 10 bytes past the copy, or up to 16 past d for a short one |
| SnappyBlock.UvarintRoundTrip | handler_socket2/compress/snappy/encode.go:27-28 | reading a written varint gives the value and its size, whatever follows |
| SnappyBlock.DenotesBlockUnique | handler_socket2/compress/snappy/decode.go:57-74 | a block has at most one decoding |
| SnappyBytes.DecodedLenMeans | handler_socket2/compress/snappy/decode.go:32-43 | the header is any varint of up to ten bytes whose value has 32 bits, and gives that value; anything else is refused |
| SnappyBytes.LiteralBytes | handler_socket2/compress/snappy/snappy.go:33-36 | a tag byte ending in 00 with its length bytes and data, as bytes, appends the data |
| SnappyBytes.Copy1Bytes | handler_socket2/compress/snappy/snappy.go:40-42 | a tag byte ending in 01 and the next byte copy 4 to 11 bytes from the 11-bit offset they hold |
| SnappyBytes.Copy2Bytes | handler_socket2/compress/snappy/snappy.go:43-45 | a tag byte ending in 10 and the next two copy 1 to 64 bytes from their 16-bit offset |
| SnappyBytes.Copy4Bytes | handler_socket2/compress/snappy/snappy.go:46-49 | a tag byte ending in 11 and the next four copy 1 to 64 bytes from their 32-bit offset |
| SnappyBlock.Decode | handler_socket2/compress/snappy/decode.go:32-74 | succeeds exactly on well-formed blocks and returns their data, in dst when it is long enough |
| SnappyEmit.EmitLiteral | handler_socket2/compress/snappy/encode_other.go:25-42 | writes the literal element of the shortest form and changes nothing else |
| SnappyEmit.SplitCopyMeaning | handler_socket2/compress/snappy/encode_other.go:50-88 | the pieces of a split copy together do what one forward copy does |
| SnappyEmit.SplitCopySize | handler_socket2/compress/snappy/encode_other.go:50-88 | a copy takes fewer bytes than it stands for |
| SnappyEmit.SplitCopyShort | handler_socket2/compress/snappy/encode_other.go:50-88 | a long copy takes 3 bytes for every 64, and a few more |
| SnappyEmit.EmitCopy | handler_socket2/compress/snappy/encode_other.go:50-88 | writes the pieces of the split copy, each in a valid form, and changes nothing else |
| SnappyEncode.Load64Parts | handler_socket2/compress/snappy/encode_other.go:217-229 | the three 32-bit words taken out of one 64-bit load are the loads at s-1, s and s+1 |
| SnappyEncode.ExtendMatch | handler_socket2/compress/snappy/encode_other.go:90-99 | the match is extended as far as it goes |
| SnappyEncode.FindMatch | handler_socket2/compress/snappy/encode_other.go:145-182 | a found candidate lies before s and its 4 bytes are the same; the table keeps positions before the next one, and 16 bits lose nothing; a candidate in the table for the start is taken, and none of the next 31 positions is passed over that repeats the 4 bytes before it |
| SnappyEncode.EmitMatches | handler_socket2/compress/snappy/encode_other.go:189-231 | after all copies the output still denotes the input up to nextEmit, within the size bound; a match that reaches the end is one copy |
| SnappyEncode.EncodeBlock | handler_socket2/compress/snappy/encode_other.go:112-238 | the bytes written denote the block and exceed 61/60 of it by at most 1; all writes are in range; a block of equal bytes becomes exactly one literal byte and the pieces of one copy |
| SnappyEncode.CommentRoomIff | handler_socket2/compress/snappy/encode_other.go:105-111 | in a buffer of MaxEncodedLen bytes a block has the room that the comment asks for exactly when it is not the first or the input has at least 65538 bytes |
| SnappyEncode.SeventeenIsShort | handler_socket2/compress/snappy/encode.go:20-43 | 17 bytes, encoded by encodeBlock, have one byte less than that |
| SnappyEncode.Encode | handler_socket2/compress/snappy/encode.go:20-43 | the result is a block of the input, at most MaxEncodedLen long, in dst exactly when that has the room; fails exactly when the input is too large; equal bytes of any number shrink to an eighteenth and 25 bytes at most |
| SnappyEncode.RoundTrip | handler_socket2/compress/snappy/snappy_test.go:78-87 | decoding what was encoded gives the input, for every input Encode accepts and any buffers |
| SnappyFraming.FirstChunkAppend | handler_socket2/compress/snappy/decode.go:132-239 | an accepted chunk does not depend on what follows |
| SnappyFraming.ReadAllAppend | handler_socket2/compress/snappy/decode.go:126-240 | a stream that ends cleanly can be followed by more chunks, whose data follows |
| SnappyFraming.ReadAllCut | handler_socket2/compress/snappy/decode.go:122-241 | what can be read of a stream cut short anywhere is the start of what it held |
| SnappyFraming.FrameCompressed | handler_socket2/compress/snappy/encode.go:230-257 | a compressed chunk reads back as its data |
| SnappyFraming.FrameUncompressed | handler_socket2/compress/snappy/encode.go:230-257 | an uncompressed chunk reads back as its data |
| SnappyFraming.ReadUncompressed | handler_socket2/compress/snappy/decode.go:185-210 | an uncompressed chunk, as bytes: its data and then the rest when the stored checksum is right, else corruption without data |
| SnappyFraming.ReadCompressed | handler_socket2/compress/snappy/decode.go:152-183 | the same for a compressed chunk |
| SnappyFraming.ReadNoBlock | handler_socket2/compress/snappy/decode.go:165-177 | a compressed chunk that is no block of at most 65536 bytes is corruption |
| SnappyFraming.ReadBadLength | handler_socket2/compress/snappy/decode.go:152-201 | data chunks shorter than a checksum, or with too much data, are corruption |
| SnappyFraming.ReadOther | handler_socket2/compress/snappy/decode.go:143-240 | chunk types 0x80 to 0xfe are skipped, 0x02 to 0x7f unsupported, and so are chunks longer than the buffer |
| SnappyFraming.ReadIdentifier | handler_socket2/compress/snappy/decode.go:136-227 | the identifier must come first, may come again, and must say sNaPpY |
| SnappyFraming.ReadShort | handler_socket2/compress/snappy/decode.go:111-119 | a chunk cut short is corruption |
| SnappyReader.Reader.ReadFull | handler_socket2/compress/snappy/decode.go:111-119 | fills the buffer from the input, or reports the end or corruption |
| SnappyReader.Reader.NextChunk | handler_socket2/compress/snappy/decode.go:132-239 | one chunk is decoded without changing what is still to be handed out, or the stream's end is reported |
| SnappyReader.Reader.Read | handler_socket2/compress/snappy/decode.go:122-241 | what is handed out and what is left are what was left before; an error is how the stream ends and comes after all data; progress is made, and less than asked for is handed out only when no more is decoded |
| SnappyWriter.ChunkAdded | handler_socket2/compress/snappy/encode.go:215-264 | a chunk, after the stream identifier when it is the first, adds its data to the stream |
| SnappyWriter.Writer.EncodeToObuf | handler_socket2/compress/snappy/encode.go:230-232 | Encode into obuf never reallocates and leaves the chunk header alone |
| SnappyWriter.Writer.WriteChunk | handler_socket2/compress/snappy/encode.go:215-264 | the chunk adds its data, takes at most its header over the data, and a compressed one nearly an eighth less than it; equal bytes, when at least 64, are compressed, to an eighteenth |
| SnappyWriter.Writer.WriteChunks | handler_socket2/compress/snappy/encode.go:211-266 | without an error all data is sent, growing the stream by at most the data, 8 bytes a chunk and the identifier; errors stick and come only from the underlying writer |
| SnappyWriter.Writer.Write | handler_socket2/compress/snappy/encode.go:176-209 | without an error all data is accepted, and what was sent and what is buffered are all of it; what fits the buffer is only buffered; also after an error what the sink holds reads as the start of the data given |
| SnappyWriter.Writer.Flush | handler_socket2/compress/snappy/encode.go:269-279 | without an error nothing is buffered and the stream holds all accepted data |
| SnappyWriter.Writer.Close | handler_socket2/compress/snappy/encode.go:282-289 | flushes, reports the flush's error and refuses everything afterwards |
| SnappyStream.WriteStream | handler_socket2/compress/snappy/encode.go:176-289 | any writes and flushes, closed, leave a stream of exactly the data written; fails only when the underlying writer does, and then what was sent still reads as the start of the data |
| SnappyStream.StreamRoundTrip | handler_socket2/compress/snappy/snappy_test.go:712-741 | the stream read back in pieces of any size is the data written, or the start of it when the underlying writer failed |
| SnappyStream.ReadWrongChecksum | handler_socket2/compress/snappy/decode.go:205-208 | a stream followed by a data chunk with a wrong checksum, read in pieces of any size, gives the data before it and then corruption |
| SnappyStream.ReadWrongCompressed | handler_socket2/compress/snappy/decode.go:178-181 | the same for a compressed chunk |
| Slabs.SlabsFit | handler_socket2/byteslabs2/byteslabs.go:180-184 | the slabs of a request hold exactly it and the free end of the last |
| Slabs.SlabsNeededLeast | handler_socket2/byteslabs2/byteslabs.go:180-184 | the slabs of a request are the least number that holds it |
| Slabs.BestTail | handler_socket2/byteslabs2/byteslabs.go:193-200 | the smallest tail that is big enough, the first of several |
| Slabs.LastFree | handler_socket2/byteslabs2/byteslabs.go:218-223 | the last free slab |
| Slabs.FirstRun | handler_socket2/byteslabs2/byteslabs.go:236-247 | the lowest run of free slabs of a length, or proof that there is none |
| Slabs.AllocateSlabFails | handler_socket2/byteslabs2/byteslabs.go:175-261 | a request fails exactly when it needs more slabs than are free, or several and no run is that long |
| Slabs.AllocateSlabPlacement | handler_socket2/byteslabs2/byteslabs.go:192-257 | smallest sufficient tail, else last free slab; several slabs go to the lowest run |
| Slabs.AllocateSlabCounts | handler_socket2/byteslabs2/byteslabs.go:187-260 | every call is counted in exactly one statistic |
| Slabs.AllocateSlabCountsAs | handler_socket2/byteslabs2/byteslabs.go:187-260 | a placement that takes no new slab counts as tail, one as full_small, several as full, and a failure as oom |
| SlabSafety.AllocateSlabGrows | handler_socket2/byteslabs2/byteslabs.go:175-261 | an allocation takes only free slabs, keeps the counter right and uses exactly the new region's bytes |
| SlabSafety.AllocPartKeepsInv | handler_socket2/byteslabs2/byteslabs.go:150-151 | an allocation by anyone keeps ownership, counters and disjointness |
| SlabSafety.FreePartKeepsInv | handler_socket2/byteslabs2/byteslabs.go:98-109 | a release gives back exactly the allocator's slabs |
| SlabSafety.SlabOwnership | handler_socket2/byteslabs2/byteslabs.go:11-38 | a slab is marked used exactly when one allocator holds it, once |
| SlabSafety.LiveRegionsDisjoint | handler_socket2/byteslabs2/byteslabs.go:137-212 | two live regions of a chunk never overlap |
| SlabSafety.LiveRegionInMemory | handler_socket2/byteslabs2/byteslabs.go:137-212 | a live region is inside the chunk's memory |
| SlabSafety.WritesAreIsolated | handler_socket2/byteslabs2/byteslabs.go:137-212 | writing in one live region never changes another |
| SlabSystem.BestChunk | handler_socket2/byteslabs2/byteslabs.go:68-83 | the other chunk with most free slabs of those with enough, the first of several |
| SlabSystem.StepKeepsInv | handler_socket2/byteslabs2/byteslabs.go:52-173 | every critical section of every operation keeps the system's invariant |
| SlabSystem.RunIsSafe | handler_socket2/byteslabs2/byteslabs.go:91-261 | in every interleaved run no two live regions of a chunk overlap |
| SlabSystem.RunConserves | handler_socket2/byteslabs2/byteslabs.go:91-114 | once all allocators are released every slab is free and every counter 0 |
| SlabSystem.RunBalances | handler_socket2/byteslabs2/status.go:67-86 | with nobody between critical sections the totals equal the number of calls above 96 bytes |
| SlabSystem.ReleaseReleases | handler_socket2/byteslabs2/byteslabs.go:91-114 | a whole release leaves the allocator without slabs and without an additional part, and all others as they were |
| SlabAllocator.BSManager.constructor | handler_socket2/byteslabs2/byteslabs.go:42-48 | all chunks are fresh, empty and distinct |
| SlabAllocator.Allocator.FindFirstRun | handler_socket2/byteslabs2/byteslabs.go:236-247 | the counting loop finds the lowest run |
| SlabAllocator.Allocator.TakeSlabs | handler_socket2/byteslabs2/byteslabs.go:116-138 | the slabs are marked and recorded, the free end with the last |
| SlabAllocator.Allocator.AllocateSlab | handler_socket2/byteslabs2/byteslabs.go:175-261 | the new state of chunk and allocator and the region are those of Slabs.AllocateSlab |
| SlabAllocator.Allocator.TakeAdditional | handler_socket2/byteslabs2/byteslabs.go:62-89 | at most one additional allocator, never of an additional one, on the best other chunk |
| SlabAllocator.Allocator.Allocate | handler_socket2/byteslabs2/byteslabs.go:142-173 | the whole new state of manager and allocator, the region, and whether it was routed |
| SlabAllocator.Allocator.Release | handler_socket2/byteslabs2/byteslabs.go:91-114 | both parts are given back and the additional allocator is dropped |
| SlabAllocator.WholeIsTwoSteps | handler_socket2/byteslabs2/byteslabs.go:142-173 | an uninterrupted Allocate is the system's two steps |
| SlabAllocator.AllocateWholeBasics | handler_socket2/byteslabs2/byteslabs.go:142-173 | 96 bytes and less never use slabs, all others are counted, an additional allocator never spills, and one in use stays |
| SlabAllocator.SpillsIff | handler_socket2/byteslabs2/byteslabs.go:62-89 | after a failure an allocator without an additional one gets one exactly when some other chunk has size / slabSize + 5 free slabs, on the chunk with most |
| SlabAllocator.SpillServes | handler_socket2/byteslabs2/byteslabs.go:153-173 | the request is then served there: of at most a slab always, in the last free slab; of several exactly when there is a run of so many |
| SlabAllocator.FullChunkSpills | handler_socket2/byteslabs2/byteslabs.go:142-173 | with its own chunk full, a request of at most a slab gets a region exactly when some other chunk has that room |
| Throttle.MaxValue | gosol/solana_proxy/client/throttle/stats.go:88-92 | the greatest value of a map of counts, which is one of them or 0 |
| Throttle.PerFnAmount | gosol/solana_proxy/client/throttle/stats.go:75-93 | the per-function amount is the greatest of all functions' sums |
| Throttle.AddLimiterMeans | gosol/solana_proxy/client/throttle/throttle.go:53-56 | the new limiter spans as many whole windows as its time holds, and all others stay |
| Throttle.RefreshMeans | gosol/solana_proxy/client/throttle/stats.go:95-146 | capacity used is the share, rounded down, of the limit that is used most; the score adds the modifier; throttled at the whole |
| Throttle.PointsMeans | gosol/solana_proxy/client/throttle/stats.go:114-129 | a point a request and one for every 10000 bytes, rounded down in each window |
| Throttle.Refresh | gosol/solana_proxy/client/throttle/stats.go:112-146 | throttled exactly when some limiter's amount is at its maximum |
| ThrottleRuns.HardCap | gosol/solana_proxy/client/throttle/stats.go:9-47 | in every run from a new throttle no limiter's number of consecutive windows holds more accepted requests than its maximum (at least 1), in all or of one function, even when windows are skipped |
| ThrottleRuns.FirstRequestPasses | gosol/solana_proxy/client/throttle/stats.go:9-24 | with a maximum below 1 the first request of a new throttle is still accepted |
| ThrottleRuns.WiderThanRing | gosol/solana_proxy/client/throttle/stats.go:50-93 | for every ring of two or more windows and every wider limiter, of requests or of one function's, a run that accepts two requests where one is allowed |
| ThrottleRuns.OneSlotCountsAll | gosol/solana_proxy/client/throttle/stats.go:31-35 | in every run with a ring of one slot, the slot has counted all of the log, and caps of any width hold |
| ThrottleRuns.KeepsCapIff | gosol/solana_proxy/client/throttle/stats.go:9-103 | limiters of a width keep their caps in every run, for all maxima and beside any other limiters, exactly when the width is at most the ring's or the ring has one slot |
| ThrottleRuns.RingRefinesLog | gosol/solana_proxy/client/throttle/stats.go:31-103 | without skips every amount is exactly that of the log |
| ThrottleRuns.TickExactIff | gosol/solana_proxy/client/throttle/stats.go:31-40 | moving the clock keeps the ring exact exactly when all slots passed over are blank |
| ThrottleRuns.SkipOvercounts | gosol/solana_proxy/client/throttle/stats.go:31-40 | skipping a whole turn of the ring counts an old request as new |
| ThrottleRuns.StepCapped | gosol/solana_proxy/client/throttle/stats.go:9-47 | every event keeps an open throttle below its request limits, despite the cached status |
| ThrottleRuns.OvershootByOne | gosol/solana_proxy/client/throttle/stats.go:9-29 | while a limit stays reached at most one more request is accepted |
| ThrottleRuns.Recovers | gosol/solana_proxy/client/throttle/stats.go:31-47 | without traffic, after as many new windows as its longest limiter spans, a throttle is open exactly when every maximum is positive |
| ThrottleAccepts.RefusedWhenReached | gosol/solana_proxy/client/throttle/stats.go:9-47 | in every run without skips a request is refused only when the log holds some maximum in its last windows, and always when it is one of requests |
| ThrottleAccepts.UnlimitedScore | gosol/solana_proxy/client/throttle/stats.go:114-129 | without limiters the score is the modifier and the requests and data of the last 10 windows of the log |
| ThrottleConfig.WindowsFor | gosol/solana_proxy/client/throttle/read_config.go:23-45 | the window size and count chosen for a time, search loop included |
| ThrottleConfig.SearchFindsNothing | gosol/solana_proxy/client/throttle/read_config.go:35-41 | the search for a divisor never finds one |
| ThrottleConfig.WindowsMeans | gosol/solana_proxy/client/throttle/read_config.go:23-45 | windows of 1, 10 or time / 120 seconds, 120 or 125 of them, for which times |
| ThrottleConfig.LimiterFitsRing | gosol/solana_proxy/client/throttle/read_config.go:23-45 | a limiter spans at least one window, and fits its ring exactly under the stated condition |
| ThrottleConfig.LongTimesFit | gosol/solana_proxy/client/throttle/read_config.go:35-44 | from 2400 seconds on every limiter fits |
| ThrottleGroup.Throttle.constructor | gosol/solana_proxy/client/throttle/throttle.go:39-51 | an empty ring positioned at the current window |
| ThrottleGroup.Throttle.AddLimiter | gosol/solana_proxy/client/throttle/throttle.go:53-56 | appends a limiter of w windows with w * windowSize <= seconds < (w + 1) * windowSize, and changes nothing else |
| ThrottleGroup.Throttle.TotalPerFn | gosol/solana_proxy/client/throttle/stats.go:75-93 | the walk over the ring and the maps gives the greatest total of a function |
| ThrottleGroup.Throttle.GetThrottleStatus | gosol/solana_proxy/client/throttle/stats.go:50-103 | amount and share used of any kind of limiter |
| ThrottleGroup.Throttle.ComputeThrottleScore | gosol/solana_proxy/client/throttle/stats.go:112-146 | score, throttled and capacity are those of Throttle.Refresh |
| ThrottleGroup.Throttle.OnRequest | gosol/solana_proxy/client/throttle/stats.go:9-24 | refused unchanged when throttled, else counted and the status renewed |
| ThrottleGroup.Throttle.OnMaintenance | gosol/solana_proxy/client/throttle/stats.go:31-47 | a new window clears its slot and renews the status; the same slot changes nothing |
| ThrottleGroup.GroupOnRequest | gosol/solana_proxy/client/throttle/group.go:9-23 | a request over distinct throttles is counted in all of them or in none |
| ThrottleGroup.GroupThrottleScore | gosol/solana_proxy/client/throttle/group.go:37-55 | greatest score and share, throttled when any is |
| ThrottleFromConfig.MakeFromConfig | gosol/solana_proxy/client/throttle/read_config.go:46-99 | one throttle for each choice of windows, with the limiters of all items that use it, in order; nothing exactly when a limit or a time is not positive |
| ThrottleFromConfig.LimitersMean | gosol/solana_proxy/client/throttle/read_config.go:72-91 | every item's limiter is in the throttle of its windows, which has no others |
| ThrottleFromConfig.ConfiguredLimit | gosol/solana_proxy/client/throttle/read_config.go:23-91 | a configured limit of requests whose time fits holds in every run over as many windows as the time has, and without skips a request is accepted exactly when the last so many hold fewer |
| ThrottleFromConfig.ConfiguredFnLimit | gosol/solana_proxy/client/throttle/read_config.go:23-91 | the same for every function's requests |
| Multipart.PlacedNext | handler_socket2/compress/engine.go:118-118 | a worker's write adds its piece to those placed, so the order does not show |
| Multipart.NoOverrunMerges | handler_socket2/compress/engine.go:138-152 | without overruns the merge yields the table and all blocks in order |
| MultipartProperties.MergeSoundIff | handler_socket2/compress/engine.go:138-152 | the merge is sound for all blocks of given sizes exactly when none overruns |
| MultipartProperties.RoomInFirstBlock | handler_socket2/compress/engine.go:138-147 | a first block that leaves room for the table is enough |
| MultipartProperties.UnpackFormat | handler_socket2/compress/engine.go:159-191 | reading the format back gives the blocks it was made from |
| MultipartProperties.UnpackTrailing | handler_socket2/compress/engine.go:176-188 | bytes after the last block do not matter |
| MultipartProperties.UnpackBad | handler_socket2/compress/engine.go:163-181 | without sizes the result is nil, and a first block cut short is a panic |
| MultipartProperties.OverrunOfTwo | handler_socket2/compress/engine.go:138-152 | when the first of two blocks overruns, the merge puts its last bytes in place of the second's first |
| MultipartCompressor.Job.GetNextPiece | handler_socket2/compress/engine.go:99-109 | any piece in progress may come next; sizes and buffer stay those of the pieces received |
| MultipartCompressor.Job.Work | handler_socket2/compress/snappy.go:23-46 | a worker writes its block to its own part, or refuses by the two rules |
| MultipartCompressor.MergeBlocks | handler_socket2/compress/engine.go:138-147 | the in-place moves |
| MultipartCompressor.CompressLarge | handler_socket2/compress/engine.go:79-157 | nil exactly when a piece is refused or the total does not pay off; else the merge of the per-piece results, whatever the order of the workers |
| MultipartCompressor.WorthwhileMeans | handler_socket2/compress/engine.go:134-136 | in sizes: every block is no longer than its piece, and shorter or at most a third of a block, and all are at most four fifths of the input |
| MultipartCompressor.FastPath | handler_socket2/compress/engine.go:60-77 | the same format with one block, or nil by the same rules |
| MultipartCompressor.RulesMean | handler_socket2/compress/snappy.go:28-37 | the rules of refusal, in sizes |
| MultipartCompressor.Uncompress | handler_socket2/compress/engine.go:159-191 | table and chunk loops, with the nil result and slicing past the end |
| MultipartCompressor.RoundTrip | handler_socket2/compress/engine.go:79-191 | Uncompress undoes Compress for any codec with an inverse on pieces of up to a block, when no block overruns |
| MultipartSnappy.SnappyIsInverse | handler_socket2/compress/snappy.go:26-62 | the snappy encoder and uncompress_simple undo each other on every piece, as the multipart round trip needs |
| MultipartSnappy.SnappyRoundTrip | handler_socket2/compress/engine.go:79-191 | the multipart round trip over snappy at its block size |
| MultipartSnappy.OverrunPaysOff | handler_socket2/compress/engine.go:134-147 | 240000 bytes and a codec with an inverse, in the snappy format, whose blocks are accepted and pay off, and the second is lost |
| MultipartSnappy.SpoiledRun | handler_socket2/compress/engine.go:79-191 | compressing and uncompressing that input gives half of it |
| Scheduler.Best | gosol/solana_proxy/scheduler_pick.go:9-37 | an eligible slot, or proof that there is none |
| Scheduler.PickIsLeastIff | gosol/solana_proxy/scheduler_pick.go:32-36 | the pick has the least score exactly when -1 does not get in the way |
| Scheduler.PickMeans | gosol/solana_proxy/scheduler_pick.go:15-31 | a picked node is not disabled, throttled or paused, public or private as forced, and below the minimum block; without a pick no node in a slot is like that |
| Scheduler.AfterMeans | gosol/solana_proxy/scheduler_pick.go:15-44 | a pick empties only its own slot and those of nodes that are disabled, throttled or paused |
| Scheduler.MinusOneIsPassedOver | gosol/solana_proxy/scheduler_pick.go:32-36 | of two nodes with scores -1 and 5 the second is picked |
| Scheduler.AfterShrinks | gosol/solana_proxy/scheduler_pick.go:15-44 | a pick only empties slots, and a successful one at least one |
| Scheduler.NodeScheduler.PickNext | gosol/solana_proxy/scheduler_pick.go:7-45 | the picked client, in all that the filters look at, and all slots afterwards |
| Scheduler.NodeScheduler.ForcePublic | gosol/solana_proxy/scheduler.go:32-38 | public and private are never both forced |
| Scheduler.NodeScheduler.ForcePrivate | gosol/solana_proxy/scheduler.go:39-45 | public and private are never both forced |
| Scheduler.NodeScheduler.GetPublicClient | gosol/solana_proxy/scheduler.go:53-64 | a public node unless something is forced; the filter is unchanged afterwards |
| Scheduler.NodeScheduler.NextForRetry | gosol/solana/handle_solana_01/handle_solana_01.go:66-72 | a public node whenever one suits, else any that does |
| Scheduler.NodeScheduler.CallWithRetries | gosol/solana/handle_solana_01/handle_solana_01.go:63-74 | no node is called twice, at most as many calls as nodes, and without success every node was called, or was down at some moment, or is left and down or filtered out at the last |

## Left out

- MultipartCompressor.CompressLarge: a worker's write and its message are one step; which of several slices past the buffer panics first is not told apart; the buffer's capacity is its length, where Go allows a slice up to a larger capacity.
- MultipartCompressor.Job.GetNextPiece: a worker writes when its message is received, not between.
- MultipartCompressor.Uncompress: the input's capacity is its length, as above.
- MultipartCompressor.RoundTrip: the debug output of Uncompress, which slices ten bytes ahead, is not modelled.
- MultipartSnappy.SnappyRoundTrip: nor here.
- ThrottleFromConfig.MakeFromConfig: items are given in parts, not as text; the order of the throttles, which Go leaves open, is left open too; log lines are left out.
- Throttle.Percent: the share used is an exact floor, where the program divides in floating point.
- ThrottleGroup.Throttle.GetThrottleStatus: the same share.
- ThrottleGroup.Throttle.OnMaintenance: time is a parameter and not negative; bytes received are not negative.
- SlabAllocator.BSManager.constructor: the chunks' memory is not represented; contents are only in WritesAreIsolated.
- SlabAllocator.Allocator.Allocate: a call that no other allocator interrupts (interleavings are in SlabSystem); counters are unbounded integers, not 32 bits.
- SlabAllocator.Allocator.Release: a call that no other allocator interrupts, as above.
- SnappyDecode.DecodeInto: of the assembly decoder only the forward copy; its fast paths for literals are not modelled.
- Locks are critical sections as atomic steps; an allocator is used by one goroutine at a time; deadlock freedom of the compressor's channels is not claimed.
- The fixed-size allocator of byteslabs: the same algorithm at slab size 40000 and 100 slabs.
- SnappyReader.Reader.ReadFull: errors of the underlying reader other than its end are not modelled.
- Reset of the stream writer and reader.
- CRC-32C, flate and Go's varint library, beyond what is stated of them as parameters or in SnappyBlock.
- The assembly encoder, TCP, UDP and HTTP serving, status pages, configuration files, plugins and the unused stateless throttle.
- GetAll, GetAllSorted and GetLimitsLeft, which only report.
