# LZ4 in Dafny

A model of the LZ4 library and of the host side of its GPU port, with proofs of what they promise.

* **Block codec** (`lib/lz4.c`). `BlockFormat.Decode` says what a block means, sequence by sequence, and whether it
  respects the end-of-block restrictions of the LZ4 Block Format. The two-loop decoder with its wild copies and
  shortcuts (`MemCopy`, `BlockDecoder`), the byte-by-byte decoder (`UnsafeDecoder`) and the hash-table compressor with
  its three output modes (`MatchLength`, `BlockEncoding`, `BlockWriter`, `FastCompressor`) are proved against it.
  `FastParse` says which block the compressor writes: what its search probes, and which match it takes.
  `Placement` says which blocks are taken wherever the history lies. `FastStream` and `StreamDecoder` add the streaming
  layer: histories in two segments, index renormalisation, saved dictionaries, reused states; `RingBuffer` is a use of
  it. `BlockApi` closes the round trips.
* **Frame codec** (`lib/lz4frame.c`). `FrameFormat` gives the meaning of a frame as a function of its bytes.
  `FrameDecoder.Dctx` is the resumable decoder with all its stages; the stream it will be fed is a ghost field, so its
  contracts speak about every way of cutting that stream. `FrameMemory` and `HistoryWindow` say where the 64 KB of history
  live. `FrameEncoder.Cctx` is the buffering encoder, `FrameRoundTrip` joins the two. `FrameValues` has the bytes of
  headers and of small frames.
* **High-compression encoder** (`lib/lz4hc.c`). The match finder with its chains and its shortcut through runs
  (`HcMatchFinder`), the parser of the lowest levels (`HcMidParser`), the lazy parser built on gotos (`HcLazyParser`), the
  price-table parser with in-place backtracking (`HcOptimalParser`), the shared writer (`HcWriter`, `HcParsing`) and the
  one-shot functions (`HcApi`).
* **xxHash** (`lib/xxhash.c`). `XXHash32`, `XXHash64`: one-shot loops and streaming states against one definition;
  `HashValues.dfy` fixes the definition by values.
* **GPU host** (`lz4_gpu/lz4_gpu_core.c`). `GpuPlanner`: launch plan and 12-bit epochs. `GpuContainer`: the packed payload.

Pointers are positions in byte arrays. The machine is little-endian with 64-bit words, the largest distance is 65535, the
fast decoding loop is on. Position hashes are arbitrary functions into the table, so results hold for any hash; in the
frame model the checksum is an arbitrary 32-bit function too, except in `FrameValues`. Clocks, files, allocation failures and the OpenCL calls
become parameters or do not occur.

`dafny verify dfyconfig.toml` checks the whole project.

## Findings

* The decoders do not reject offset 0, which the format forbids: the safe decoder writes zero bytes for it,
  `LZ4_decompress_unsafe_generic` leaves the bytes as they are. `UnsafeDecoder.ZeroOffsetBlock` is such a block, and
  `UnsafeDecoder.DecodersAgree` says exactly when the outputs agree.
* Acceptance by the safe decoder is more than conformance: a short sequence is held to smaller distances from the ends, so
  some blocks that break the end-of-block restrictions pass when the capacity is large enough (`BlockDecoder.RelaxedBlock`).
  `BlockDecoder.Takes` is the exact condition, and it is the same for the fast and the safe loop.
* With an output of size 0 the safe decoder takes exactly the block `00`, the unsafe one any single token without literals
  (`UnsafeDecoder.NothingAnnounced`).
* The epoch test of `lz4_compress_core` is not enough for launches of many blocks per lane: a count that is a little more
  than a multiple of 4096 does not look like a wrap. `GpuPlanner.EpochsExact` gives the exact limit of the ranges handed
  out, which include the base and one epoch past the last block; the tags a lane writes are two fewer.
* `XXH64_digest` compares the length modulo 2^64 with 32, so an input that wraps it to less than 32 loses its
  accumulators; `XXH32` keeps a sticky flag and does not.
* `lib/lz4.h:439` lets the encoder's ring buffer have any size. The overlap test of `LZ4_compress_fast_continue` notices a
  source that ends inside the dictionary, not one that reaches its end: then history is kept that has been overwritten
  (`RingBuffer.OverlapMissed`). `RingBuffer.OverlapNoticed` is the exact condition, and a ring of more than twice the
  longest message always meets it (`RingBuffer.RingRoundTrip`).
* A decoder that is given an empty block at another destination takes its current segment for the one before it as well,
  and no longer sees what really preceded it (`StreamDecoder.StreamDecode.EmptyBlockElsewhere`). `Segments.Visible` is
  what it does see, and `World.Allows` asks that this covers what the encoder refers to.
* The relaxed distance is granted only to matches that start in front of the output, so a block that does not conform may
  be taken in one place and refused in another (`Placement.PlaceMatters`), and a frame of linked 64 KB blocks may be
  accepted or refused depending on how it is cut. `Placement.InAnyPlace` gives the bounds on both sides,
  `Placement.SamePlace` and `FrameFormat.FrameAlways` where they coincide.
* The announced content size 0 means "unknown" to both sides of the frame codec: such a frame may have any size, every
  other one has the announced size modulo 2^64 (`FrameFormat.AnnouncedSize`, `FrameEncoder.Cctx.End`).
* The hint of `LZ4F_decompress` counts the checksum of a compressed block twice once part of the block is stored, so it
  may point four bytes behind a frame without content checksum; for the first bytes of a very short skippable frame it is
  too large as well (`FrameDecoder.Dctx.ExpectedInside`). A reader that always follows the hints meets neither
  (`FrameDecoder.DecodeByHints`).
* The tests of fillOutput ask for up to three bytes more than the end of a block needs, so `LZ4_compress_destSize` is sure
  to take all of a source only when its block fits with three bytes to spare (`BlockApi.CompressDestSize`).
* In limitedOutput mode `LZ4HC_encodeSequence` counts `len / 255` bytes for a match length that may take one more; the
  slack for the last literals absorbs it.

## Model

| member | source | states |
|---|---|---|
| BlockFormat.Decode | lib/lz4.c:1873-1969 | the meaning of a block, sequence by sequence, behind a history: the history is a prefix of the result; truncated blocks and offsets beyond the history have none |
| BlockFormat.CopyMatch | lib/lz4.c:1954-1958 | the one-byte-at-a-time overlapping copy: `len` bytes are added behind what was there |
| BlockFormat.CopyMatchUnique | lib/lz4.c:2409-2437 | any extension in which each new byte equals the one `offset` back is that copy |
| BlockFormat.TailRoom | lib/lz4.c:2282-2320 | a conforming rest that still produces five bytes has a token and five bytes of input |
| MemCopy.WildCopy8 | lib/lz4.c:466-473 | every byte up to the end of the overrun repeats the byte `d - s` back; the overrun is at most 7 bytes, nothing else changes |
| MemCopy.WildCopy32 | lib/lz4.c:525-532 | the same in steps of 32 bytes for distances of 16 and more, overrun at most 31 |
| MemCopy.WildCopy8From | lib/lz4.c:466-473 | copying from the block: the bytes are those of the source, reads stay inside it |
| MemCopy.WildCopy32From | lib/lz4.c:525-532 | copying from the block in steps of 32: the bytes are those of the source, reads stay inside it |
| MemCopy.Copy8WithOffset | lib/lz4.c:2409-2422 | the table-driven eight-byte copy gives the first eight bytes of the overlapping copy for every offset, and a source distance that still repeats |
| MemCopy.StrideKeepsMatch | lib/lz4.c:475-476 | continuing at the adjusted distance repeats the original offset |
| MemCopy.CopyUsingOffsetBase | lib/lz4.c:499-518 | for every offset below 16 the bytes equal the overlapping copy, with a bounded overrun |
| MemCopy.CopyUsingOffset | lib/lz4.c:538-575 | the 1/2/4 pattern fill, and the general case below 8, equal the overlapping copy |
| MemCopy.FillPattern | lib/lz4.c:569-575 | filling with an eight-byte pattern repeats at its period |
| BlockDecoder.ReadVariableLength | lib/lz4.c:1982-2017 | reads exactly the length extension of the format, or reports that it does not end in time |
| BlockDecoder.CopyFromDict | lib/lz4.c:2360-2389 | a match that starts in the external dictionary, and may run on into the prefix, is the overlapping copy over the joined history |
| BlockDecoder.Shortcut | lib/lz4.c:2224-2264 | the 16- and 18-byte shortcut leaves the output of the sequence it stands for |
| BlockDecoder.SafeLiterals | lib/lz4.c:2276-2345 | the last literals end the block; others leave room for an offset; a refusal means the block is corrupt, too long or not conforming |
| BlockDecoder.SafeCopy | lib/lz4.c:2357-2437 | the match copy near the end of the output, overruns kept below the capacity |
| BlockDecoder.SafeLoop | lib/lz4.c:2218-2447 | entered at any of its labels, finishes with the meaning of the whole block or fails for cause |
| BlockDecoder.FastLoop | lib/lz4.c:2086-2212 | the fast loop keeps the meaning of the rest of the block, and hands over to the safe loop at a matching label |
| BlockDecoder.Decompress | lib/lz4.c:2026-2448 | for every byte string: terminates, writes only within the capacity; it accepts exactly when the distances of all literals and matches from both ends, as `Takes` lists them, are kept, so every conforming block that fits; acceptance means the output is exactly the meaning of the block; with capacity 0 exactly the block `00` is accepted |
| BlockDecoder.TakenHasMeaning | lib/lz4.c:2218-2447 | distances and offsets alone imply that a block has a meaning and that it fits |
| BlockDecoder.ConformingTaken | lib/lz4.c:2218-2447 | every conforming block that fits keeps those distances |
| BlockDecoder.RelaxedBlock | lib/lz4.c:2234-2263 | a block that does not conform, with a meaning of 18 bytes: refused for every capacity below 32, taken from 32 on |
| BlockDecoder.FastTakes | lib/lz4.c:2086-2150 | inside the fast loop the distances relaxed for short sequences hold anyway, so both loops accept alike |
| Placement.Easier | lib/lz4.c:2234-2264 | with more room, more history, or more of it in front of the output, no less is taken |
| Placement.InAnyPlace | lib/lz4.c:2363-2367 | wherever a window of the history lies, the decoder takes at least what is taken with all of it external, at most what is taken with all of it in front |
| Placement.SameWindow | lib/lz4.c:2050 | 64 KB of history are as good as all of it for what is taken |
| Placement.ConformingAlways | lib/lz4.c:2282-2320 | a conforming block that fits is taken in every place |
| Placement.SamePlace | lib/lz4.c:2249-2251 | from a capacity of 65557 on, or without history, the place makes no difference |
| Placement.PlaceMatters | lib/lz4.c:2249-2251 | a block of 64 KB that is taken behind a history in front of the output, and refused behind the same history elsewhere |
| BlockApi.DecompressSafe | lib/lz4.c:2454-2459 | the same for the public function without history, the exact condition included |
| UnsafeDecoder.DecompressUnsafe | lib/lz4.c:1873-1969 | reads the n bytes of a block if and only if the block conforms and has the announced size; the output is its meaning on top of what the buffer held, and equals the meaning of the format if and only if every match of offset 0 falls on zero bytes |
| UnsafeDecoder.DecodersAgree | lib/lz4.c:1873-1969 | what this decoder accepts the safe decoder accepts too, except a block other than `00` for an output of size 0; when both accept, the bytes agree if and only if every match of offset 0 falls on zero bytes of the old buffer |
| UnsafeDecoder.NothingAnnounced | lib/lz4.c:1891-1912 | for an output of size 0 exactly the single tokens without literals are conforming blocks |
| UnsafeDecoder.ShapeFromLengths | lib/lz4.c:1891-1966 | whether a block has a meaning, conforms and how long it is depends on the length of the history only, offset 0 included |
| UnsafeDecoder.SameMeaning | lib/lz4.c:1954-1958 | the two meanings of a block are equal exactly when every match of offset 0 falls on zero bytes |
| UnsafeDecoder.NonzeroOffsetsSuffice | lib/lz4.c:1954-1958 | so they are equal for every block without offset 0 |
| UnsafeDecoder.ZeroOffsetBlock | lib/lz4.c:1954-1958 | a conforming block with a match of offset 0: four zero bytes from the one decoder, four bytes left as they were from the other |
| MatchLength.Count | lib/lz4.c:683-706 | LZ4_count is the length of the longest common prefix up to the limit |
| MatchLength.CountBack | lib/lz4hc.c:205-225 | LZ4HC_countBack is the length of the longest common suffix within the limits |
| MatchLength.SuffixUnique | lib/lz4hc.c:205-225 | that length is the only one |
| BlockEncoding.DecodeOne | lib/lz4.c:1114-1228 | the bytes written for one sequence decode to its literals and its match, whatever follows |
| BlockEncoding.DecodeWritten | lib/lz4.c:1114-1228 | decoding what was written for sequences that cover the source leads to the covered source |
| BlockEncoding.WrittenBlockDecodes | lib/lz4.c:1305-1341 | sequences that cover the source, and last literals, are a conforming block whose meaning is the source |
| BlockWriter.PutLiterals | lib/lz4.c:1114-1139 | token, literal length and literals as the format has them, wild copy included |
| BlockWriter.PutLastLiterals | lib/lz4.c:1321-1332 | the closing literals as the format has them |
| BlockWriter.PutExtensionByFours | lib/lz4.c:1216-1228 | a match length extension written in 32-bit words is the plain one |
| BlockWriter.PutExtensionByTwos | lib/lz4hc.c:361-369 | a match length extension written in pairs is the plain one |
| FastParse.AcceptedEntryIsInWindow | lib/lz4.c:1088-1099 | whatever earlier calls left in the table, an entry that passes the tests names a readable earlier byte within 65535, never one cut off at the end of a dictionary |
| FastParse.FirstOfItsProbes | lib/lz4.c:1022-1105 | the search ends at the first of its probes, at distances 1 and then (64 * acceleration + k) / 64, whose entry is in reach and agrees in four bytes; an entry is the last probe of that slot, or what the table held before |
| FastParse.EqualBytes | lib/lz4.c:1003-1341 | n >= 13 equal bytes without history, whatever the hash, the acceleration and the table: one literal, one match of offset 1 and n - 6 bytes, five last literals, in 10 + (n + 230) / 255 bytes |
| FastParse.LongerThanItsStart | lib/lz4.c:1119-1123 | a planned block is at least as long as some of its sequences and six bytes more, so a room test that fires means that the block does not fit |
| FastCompressor.PutIndex | lib/lz4.c:823-834 | the slot holds the whole index, also in a 16-bit table, and every entry stays older than the position searched |
| FastCompressor.TryEntry | lib/lz4.c:1036-1103 | one probe: finds exactly when the entry is in reach and four bytes agree, and enters the position |
| FastCompressor.FindMatch | lib/lz4.c:1022-1105 | finds what the first agreeing probe gives, or nothing if none agrees, and leaves the table that its probes leave; a candidate lies in the window |
| FastCompressor.CatchUp | lib/lz4.c:1107-1112 | extends backwards as far as bytes agree, not past the anchor nor out of its segment |
| FastCompressor.MatchCode | lib/lz4.c:1168-1186 | the match length is the longest possible up to the limit, also across dictionary and source |
| FastCompressor.MatchEnd | lib/lz4.c:1190-1215 | the match runs as far as bytes agree, unless fillOutput has no room for it: then it is shortened, still a match, fits, and no later position stays in the table |
| FastCompressor.EmitLiterals | lib/lz4.c:1114-1139 | stops in fillOutput mode, fails in limitedOutput mode, only where this sequence and the smallest end do not fit |
| FastCompressor.EmitMatches | lib/lz4.c:1141-1298 | a chain of matches keeps the output an encoding of the source up to the anchor, and follows the parse as long as its block fits |
| FastCompressor.EmitLastLiterals | lib/lz4.c:1305-1341 | the end of the block, whole exactly when all of it fits; a cut one leaves no room for one more byte |
| FastCompressor.CutRunFits | lib/lz4.c:1310-1314 | the cut run, its token and its length bytes fit, and enough literals remain |
| FastCompressor.NoLess | lib/lz4.c:1310-1314 | a source that is cut gives at least what fits as a single run of literals |
| FastCompressor.CompressValidated | lib/lz4.c:933-1341 | for every input, acceleration, hash, table and table type the block is that of the parse: limitedOutput succeeds exactly when it fits, fillOutput writes it when three more bytes fit; a nonzero result decodes to the consumed source behind its dictionary and conforms, is within the limit and within n + n/255 + 16; a source is cut only when the room is used up; nothing is written outside the room given, wild copies included |
| BlockApi.FastBlock | lib/lz4.c:1385-1406 | the block of LZ4_compress_fast_extState is a function of the source and the acceleration; its size for n >= 13 equal bytes is 10 + (n + 230) / 255 |
| BlockApi.CompressFast | lib/lz4.c:1385-1406 | LZ4_compress_fast_extState succeeds exactly when that block fits, and writes it; it fits whenever the bound does, and decodes to the source |
| BlockApi.CompressDestSize | lib/lz4.c:1484-1498 | never writes beyond the target; the block means the reported prefix of the source; always succeeds with a target of at least 1; all of the source is taken when its block and three bytes fit, and less only when the target is used up: at most one byte is left, and one more byte of the source would not have fitted as literals |
| BlockApi.RoundTrip | lib/lz4.c:2454-2459 | compress, then decompress with exactly the size of the source: the source comes back |
| BlockApi.DestSizeRoundTrip | lib/lz4.c:1484-1498 | the consumed prefix comes back, given exactly that much room; it falls short of the source only when the packet is used up |
| FastStream.Stream.Init | lib/lz4.c:1555-1563 | whatever the state held, it is cleared and without history |
| FastStream.Stream.PrepareTable | lib/lz4.c:887-925 | after it no leftover of an earlier call can be mistaken for an entry of the next one |
| FastStream.Stream.CompressGeneric | lib/lz4.c:1352-1383 | the block is that of the parse from what the table holds; limitedOutput succeeds exactly when it fits |
| FastStream.Stream.CompressFastReset | lib/lz4.c:1417-1453 | one-shot blocks on a reused, uncleared state decode to their own source; whatever earlier calls left, n >= 13 equal bytes take 10 + (n + 230) / 255 bytes, and fail exactly when these do not fit; the state stays valid even after a failure |
| BlockApi.FastResetRun | lib/lz4.c:1417-1453 | every run of such calls, failed ones included: each block produced means its own source, and none fails that has room |
| FastStream.Stream.ResetFast | lib/lz4.c:1573-1575 | the state starts afresh without history |
| FastStream.Stream.Renorm | lib/lz4.c:1690-1707 | all indices move down by the same amount, or to 0, without leaving an entry outside the window; the history stays addressable |
| FastStream.Stream.SelectHistory | lib/lz4.c:1717-1746 | how much of the history a call may refer to: less after renormalisation, none of a tiny one, only what the source does not overwrite |
| FastStream.Stream.CompressFastContinue | lib/lz4.c:1710-1786 | the block is that of the parse behind the history that is kept, from the table moved down where needed, and the call fails exactly when it does not fit; as long as the last 64 KB of the kept history are still in memory, it decodes behind them to its source; the new dictionary is the end of everything given, and exactly as large as what directly precedes the source and the source itself |
| FastStream.Stream.SaveDict | lib/lz4.c:1817-1837 | the end of the history is moved, also over itself, and is the dictionary of the next call |
| History.MoreHistory | lib/lz4.c:2634-2671 | a block that decodes behind some history decodes the same behind any longer one |
| StreamDecoder.StreamDecode.DecompressSafeContinue | lib/lz4.c:2634-2671 | decodes behind prefix, external dictionary or both; the output so far grows by exactly the decoded bytes; the segments are those of `Segments.After`, whether or not the call succeeds; a block taken in every place is taken, one taken nowhere is refused |
| StreamDecoder.Segments.Wrote | lib/lz4.c:2641-2668 | after a call the current segment is still the end of the output in memory, and the one it left is what precedes it |
| StreamDecoder.StreamDecode.EmptyBlockElsewhere | lib/lz4.c:2659-2665 | after an empty block written elsewhere the decoder takes the current segment to be preceded by itself |
| StreamDecoder.StreamDecode.Receive | lib/lz4.c:2634-2671 | a block that decodes behind the end of the output comes back in memory, which changes nowhere else, as long as that end is visible to the call |
| StreamDecoder.Exchange | lib/lz4.c:1710-1786 | one block through a pair of streams: the packet decodes to it behind everything sent, the decoder writes exactly it, and both sides are where the event says |
| StreamDecoder.Run | lib/lz4.c:1690-1837 | every run of two fresh streams, with blocks sent from and to anywhere, memory rewritten (also over old history, as in a ring buffer) and history saved in between: both memories are what the events say, so every block arrives where it was wanted; each packet decodes behind what was sent before; only a packet smaller than the bound ends a run early |
| StreamDecoder.Step | lib/lz4.c:1710-1837 | one event does to both memories and both streams what `World.After` says, and returns what it should |
| StreamDecoder.KeepsIsKept | lib/lz4.c:1690-1765 | how much history a call keeps, up to 64 KB, follows from where source and history lie: renormalisation makes no difference |
| StreamDecoder.Refill | lib/lz4.c:1710-1786 | new data may be written anywhere; of the history exactly what it does not reach stays usable |
| StreamDecoder.SaveHistory | lib/lz4.c:1817-1837 | LZ4_saveDict moves exactly the last min(size, 64 KB, kept) bytes of what was sent |
| RingBuffer.OverlapNoticed | lib/lz4.c:1738-1746 | when a source was just written over the history, what the encoder keeps is still intact if and only if the source does not reach the end of a history of four bytes or more |
| RingBuffer.OverlapMissed | lib/lz4.c:1738-1746 | a message written over a whole history that starts where it does: all of it is kept, none of it is left |
| RingBuffer.RingPermitted | examples/blockStreaming_ringBuffer.c:49-81 | any number of messages through a ring of more than twice the longest one: every call respects what the encoder refers to |
| RingBuffer.RingRoundTrip | examples/blockStreaming_ringBuffer.c:49-81 | all of them arrive, in order |
| FrameFormat.ParseHeader | lib/lz4frame.c:1371-1462 | what a header means: its fields and its size, and when it is short, bad or that of a skippable frame; `FrameValues.HeaderFromBytes` says so byte by byte |
| FrameFormat.ParsePrefix | lib/lz4frame.c:1371-1462 | a header is decided by its first bytes: more input never changes the verdict |
| FrameValues.HeaderFromBytes | lib/lz4frame.c:1371-1462 | when bytes are a valid header, by their values: 04 22 4D 18, flags of weights 32, 16, 8, 4 and 1 added to 64, block size code 4 to 7 times 16, second byte of the checksum; 50 to 5F 2A 4D 18 is a skippable frame |
| FrameValues.HeaderInBytes | lib/lz4frame.c:796-827 | the bytes written for every valid set of fields, one by one |
| FrameValues.BlockSizes | lib/lz4frame.c:333-342 | block size codes 4 to 7 are 64 KB, 256 KB, 1 MB and 4 MB |
| FrameValues.EmptyFrame | lib/lz4frame.c:1222-1257 | the 15 bytes of a frame without content, with its xxHash32 checksum |
| FrameValues.StoredFrame | lib/lz4frame.c:898-924 | the 22 bytes of a frame that stores "abc" |
| FrameValues.CompressedFrame | lib/lz4frame.c:1642-2145 | a frame of 29 bytes with a compressed block of ten, which means 13 times "a" |
| FrameFormat.FrameFrom | lib/lz4frame.c:1642-2145 | the meaning of a frame: its content, where it ends, and whether its blocks are taken in every place or in some |
| FrameFormat.BlocksFrom | lib/lz4frame.c:1730-1787 | the meaning of the blocks from here on, given the content so far, which is a prefix of the whole |
| FrameFormat.SuffixFrom | lib/lz4frame.c:2012-2059 | end of the frame: announced size and content checksum must hold |
| FrameFormat.AnnouncedSize | lib/lz4frame.c:2012-2013 | a frame that announces a size other than 0 has content of that size, modulo 2^64 |
| FrameFormat.FrameAlways | lib/lz4frame.c:1908-1987 | with blocks of 256 KB and more, or independent blocks without a dictionary, blocks taken in some place are taken in every place: acceptance does not depend on how the frame is cut |
| HistoryWindow.WindowDecodes | lib/lz4frame.c:1556-1621 | a block decodes the same behind any window of the history, be it all of it or its last 64 KB |
| FrameDecoder.Dctx.DecodeHeader | lib/lz4frame.c:1371-1462 | reads the header from the input or from the stored bytes, and leads to the stage its meaning asks for |
| FrameDecoder.Dctx.StepGetFrameHeader | lib/lz4frame.c:1676-1688 | takes the header where the input holds all of it, otherwise starts storing |
| FrameDecoder.Dctx.StepStoreFrameHeader | lib/lz4frame.c:1690-1703 | a header that arrives in pieces |
| FrameDecoder.Dctx.StepInit | lib/lz4frame.c:1705-1728 | buffers for the announced block size and for 128 KB of history |
| FrameDecoder.Dctx.StepGetBlockHeader | lib/lz4frame.c:1730-1787 | a block header, whole or in pieces, announces what its four bytes mean |
| FrameDecoder.Dctx.StepCopyDirect | lib/lz4frame.c:1789-1829 | stored blocks pass through, hashed and counted, and join the history |
| FrameDecoder.Dctx.StepGetBlockChecksum | lib/lz4frame.c:1832-1866 | the checksum of a stored block, whole or in pieces |
| FrameDecoder.Dctx.StepGetCBlock | lib/lz4frame.c:1868-1897 | a compressed block taken from the input or collected in pieces, then decoded |
| FrameDecoder.Dctx.StepStoreCBlock | lib/lz4frame.c:1880-1895 | the remaining bytes of a compressed block |
| FrameDecoder.Dctx.CheckBlock | lib/lz4frame.c:1899-1912 | the checksum of a compressed block is checked before it is decoded |
| FrameDecoder.Dctx.ChooseDict | lib/lz4frame.c:1914-1964 | whatever the decoder is given as dictionary is a window of the history: the last 64 KB, or all there is |
| FrameDecoder.Dctx.DecodeToDst | lib/lz4frame.c:1914-1948 | decodes into the caller's buffer; failure only if the block is not taken in every place |
| FrameDecoder.Dctx.PlaceTmpOut | lib/lz4frame.c:1950-1964 | a whole block fits behind the dictionary in tmpOutBuffer |
| FrameDecoder.Dctx.DecodeToTmp | lib/lz4frame.c:1950-1987 | decodes into tmpOut; what is to be delivered is what the block added to the content |
| FrameDecoder.Dctx.StepFlushOut | lib/lz4frame.c:1990-2010 | delivers the next bytes of a decoded block, in pieces of any size |
| FrameDecoder.Dctx.UpdateDict | lib/lz4frame.c:1556-1621 | in every case the dictionary stays a window of the history after the new bytes, through prefix, tmpOut and copied fragments |
| FrameDecoder.Dctx.Preserve | lib/lz4frame.c:2110-2140 | before the caller's buffer is lost, the history it holds is moved into tmpOutBuffer |
| FrameDecoder.Dctx.StepGetSuffix | lib/lz4frame.c:2012-2059 | the end of the frame, whole or in pieces: accepted only if size and content checksum hold |
| FrameDecoder.Dctx.StepSkipSkippable | lib/lz4frame.c:2096-2106 | skippable frames are skipped to their end |
| FrameDecoder.Dctx.OneStep | lib/lz4frame.c:1674-2108 | one turn of the stage loop keeps the invariant of its stage, consumes and delivers what it says, and comes closer to a stop |
| FrameDecoder.Dctx.Decompress | lib/lz4frame.c:1642-2145 | one call, any input and output size: error only if some block is not taken in every place; the bytes delivered continue the content; result 0 exactly at the end of the frame, with all content delivered and all blocks taken in some place; otherwise input or output is used up, and the result is what is missing up to the end of the next block header or of the field being read: never more than the rest of the frame, except where `Overasks` says |
| FrameDecoder.Dctx.ExpectedInside | lib/lz4frame.c:1885-1889 | what a call asks for is part of the frame if and only if it is not the rest of a last compressed block whose checksum is counted twice, nor the header of a skippable frame of less than three bytes |
| FrameDecoder.Dctx.NextBlock | lib/lz4frame.c:1776-1784 | in the middle of the blocks, what is due ends with the header of the next block of the frame |
| FrameDecoder.Dctx.DecompressDue | lib/lz4frame.c:1776-1784 | a call given exactly what is due, with room left in the end, has read the header of the next block of the frame |
| FrameDecoder.Dctx.DecompressWith | lib/lz4frame.c:2152-2165 | the same behind a dictionary, taken into account only before the first block |
| FrameDecoder.Dctx.Reset | lib/lz4frame.c:1352-1360 | after an error or anywhere else: ready for a new frame |
| FrameDecoder.DecodeInSlices | lib/lz4frame.c:1642-2145 | every way of slicing input and output: the concatenated outputs are the content and exactly the frame is consumed; with progress in every call a frame whose blocks are taken in every place is finished, one with a block taken nowhere never is |
| FrameDecoder.DecodeByHints | lib/lz4frame.h:478-494 | a reader that gives each call exactly what the call before asked for never touches a byte behind the frame, and reads a frame that is accepted to its end |
| FrameEncoding.HeaderRoundTrip | lib/lz4frame.c:796-827 | for every valid preference set the header decodes to the same fields and consumes exactly its bytes |
| FrameEncoding.HeaderSizeFromFive | lib/lz4frame.c:1469-1493 | the size read from the first five bytes is that of the header; an error there is a bad header |
| FrameEncoding.ReachesBlock | lib/lz4frame.c:898-924 | a block written behind a partial frame adds its bytes to the content, compressed or stored |
| FrameEncoding.FrameComplete | lib/lz4frame.c:1222-1257 | end mark and checksum close a frame that means the content |
| FrameEncoder.Cctx.Begin | lib/lz4frame.c:704-828 | a fresh frame whose header is written; fails only without room for it |
| FrameEncoder.Cctx.CompressBlock | lib/lz4frame.c:927-945 | a block compressed behind the linked history decodes to its source, or 0; without history, equal bytes give the block of their own size |
| FrameEncoder.Cctx.MakeBlock | lib/lz4frame.c:898-924 | the block is stored exactly when the compressor gives nothing, or nothing shorter, and is what the compressor gives otherwise; 13 and more equal bytes without history are never stored; either way it adds its source to the content |
| FrameEncoder.Cctx.LocalSaveDict | lib/lz4frame.c:981-987 | the last 64 KB move to the front of the internal buffer and stay the history |
| FrameEncoder.Cctx.CompleteTmp | lib/lz4frame.c:1038-1061 | a buffered block is completed first, and written when full |
| FrameEncoder.Cctx.FromSource | lib/lz4frame.c:1063-1083 | whole blocks straight from the input |
| FrameEncoder.Cctx.Settle | lib/lz4frame.c:1085-1112 | the history is brought home and the rest of the input buffered |
| FrameEncoder.Cctx.Update | lib/lz4frame.c:1006-1119 | takes all of the input; refuses exactly when the bound is not available; never writes more than the bound |
| FrameEncoder.Cctx.Flush | lib/lz4frame.c:1173-1210 | all buffered input is written; refuses exactly when there may be no room |
| FrameEncoder.Cctx.BoundZero | lib/lz4frame.c:882-888 | LZ4F_compressBound(0) suffices for flush and end in every reachable state |
| FrameEncoder.Cctx.BoundCovers | lib/lz4frame.c:379-404 | the blocks of an update, buffered bytes included, take no more than the bound counts |
| FrameEncoder.Cctx.End | lib/lz4frame.c:1222-1257 | the bytes emitted are one frame that means the content; with LZ4F_compressBound(0) it fails exactly when the announced size is wrong |
| FrameRoundTrip.Encode | lib/lz4frame.c:1006-1257 | begin, any update and flush calls, end: the frame means the concatenated input |
| FrameRoundTrip.RoundTrip | lib/lz4frame.c:1642-2145 | encoded by any calls and decoded in any slices, the input comes back and the frame is used up |
| FrameDecoder.Dctx.StepGetSFrameSize | lib/lz4frame.c:2061-2086 | the size field of a skippable frame, whole or in pieces |
| XXHash32.Finalize | lib/xxhash.c:291-348 | the switch equals four-byte steps, then one-byte steps, then avalanche |
| XXHash32.OneShot | lib/xxhash.c:352-389 | the loop computes the hash of the definition |
| XXHash32.State.Update | lib/xxhash.c:452-512 | the state stands for everything given so far, in whatever pieces |
| XXHash32.State.Digest | lib/xxhash.c:527-543 | the digest is the hash of everything given, also when the 32-bit length wraps around |
| XXHash32.Streamed | lib/xxhash.c:437-543 | for every split of the input the digest is the one-shot hash of the whole |
| XXHash32Values.Empty | lib/xxhash.c:352-389 | the hash of the empty input is 02CC5D05 |
| XXHash32Values.Abc | lib/xxhash.c:352-389 | of "abc" 32D153FF |
| XXHash32Values.Seven | lib/xxhash.c:352-389 | of "lz4 abc" with seed 1: four bytes and three |
| XXHash32Values.Thirteen | lib/xxhash.c:352-389 | of 13 times "a" BEF3271D |
| XXHash32Values.Sixteen | lib/xxhash.c:352-389 | of "abcdefghijklmnop", one whole stripe, 9D2D8B62 |
| XXHash32Values.Descriptor | lib/xxhash.c:352-389 | of the header bytes 64 40, 95C0A77C |
| XXHash32Values.Mixed | lib/xxhash.c:352-389 | of the bytes 1 to 39 with seed 12345678: two stripes, a word, three bytes |
| XXHash64.Finalize | lib/xxhash.c:702-808 | the switch equals eight-, four- and one-byte steps, then avalanche |
| XXHash64.OneShot | lib/xxhash.c:811-852 | the loop computes the hash of the definition |
| XXHash64.State.Update | lib/xxhash.c:912-969 | the state stands for everything given so far, in whatever pieces |
| XXHash64.State.Digest | lib/xxhash.c:981-1003 | the digest is the hash of everything given exactly as long as the 64-bit length, if wrapped, is at least one stripe; otherwise which other value it is |
| XXHash64.Streamed | lib/xxhash.c:898-1003 | for every split of an input below 2^64 bytes the digest is the one-shot hash of the whole |
| XXHash64Values.Empty | lib/xxhash.c:811-852 | the hash of the empty input is EF46DB3751D8E999 |
| XXHash64Values.Abc | lib/xxhash.c:811-852 | of "abc" 44BC2CF5AD770999 |
| XXHash64Values.Fourteen | lib/xxhash.c:811-852 | of 14 bytes with seed 1: eight, four and two |
| XXHash64Values.TwoStripes | lib/xxhash.c:811-852 | of the bytes 1 to 64 with seed 7, two whole stripes |
| HcMatchFinder.CountPattern | lib/lz4hc.c:850-878 | exactly how far the pattern repeats |
| HcMatchFinder.ReverseCountPattern | lib/lz4hc.c:880-898 | exactly how far back the pattern repeats |
| HcMatchFinder.Finder.Insert | lib/lz4hc.c:811-832 | a slot holds the last inserted position that hashes to it, or what it held before; the chain entry of each of the last 65536 positions is the distance to what its slot held before it, at most 65535, and older entries stay |
| HcMatchFinder.Finder.HeadIsLatest | lib/lz4hc.c:811-832 | no inserted position of the slot is later than its head |
| HcMatchFinder.Segment | lib/lz4hc.c:1037-1055 | a stretch around a candidate in which every byte is that of the pattern, also across dictionary and prefix |
| HcMatchFinder.TryPrefix | lib/lz4hc.c:959-975 | a candidate in the prefix: its longest match both ways, unless it cannot beat the best one so far |
| HcMatchFinder.TryExtDict | lib/lz4hc.c:976-995 | a candidate in the dictionary: its longest match both ways |
| HcMatchFinder.Finder.TryCandidate | lib/lz4hc.c:956-994 | a candidate in prefix or dictionary is taken only if it is a longer true match; after it the best match is at least as long as any with this candidate |
| HcMatchFinder.Finder.FollowRun | lib/lz4hc.c:1032-1091 | a match claimed from two runs of one byte, without comparing them, is a true match |
| HcMatchFinder.Finder.FollowChain | lib/lz4hc.c:936-1096 | the walk along the chain ends, its best candidate is a true match, and no match with the head of the chain is longer, nor, without the two shortcuts, with any index of the chain that attempts last for |
| HcMatchFinder.Finder.GetWiderMatch | lib/lz4hc.c:914-1136 | anything longer than the minimum is a true match: offset in 1..65535, in the window, within both limits, bytes equal over the whole length; none along the chain is longer, as for the walk; it is entered in the log of returned matches |
| HcWriter.EncodeSequenceChecked | lib/lz4hc.c:292-380 | one more sequence, or a refusal that restores the output; a refusal only where the sequence and the smallest end do not fit |
| HcWriter.RoomForSequence | lib/lz4hc.c:292-380 | the two overflow tests leave room for all that is written, and never fire when the bound fits |
| HcWriter.LastLiterals | lib/lz4hc.c:1353-1383 | the end of the block, whole or cut: it conforms and means the consumed source; in limitedOutput mode it is written exactly when it fits |
| HcWriter.LastSequence | lib/lz4hc.c:1385-1403 | after an overflow a shortened match is written only if the block can still end well |
| HcParsing.Find | lib/lz4hc.c:1138-1150 | what a search returns, and nothing else, joins the found matches and can be written as a match; at the second of n equal bytes it is the match up to the last five |
| HcParsing.Finish | lib/lz4hc.c:1353-1407 | whatever was written before, the block is whole, or the limit was too small for the bound |
| HcParsing.RunDone | lib/lz4hc.c:1353-1407 | when the one match of a run of equal bytes is written the block has its size, and it fails exactly when that does not fit |
| HcLazyParser.CorrectionKeeps | lib/lz4hc.c:1243-1256 | the first correction keeps both matches usable, the first at least four bytes, the end of the second in place |
| HcLazyParser.WeighKeeps | lib/lz4hc.c:1231-1241 | dropping, restoring or keeping the first match leads to a valid state and a longer match |
| HcLazyParser.AsideKeeps | lib/lz4hc.c:1287-1310 | after the first of three is written, what is left of the second is usable, or replaced by the third |
| HcLazyParser.AscendingKeeps | lib/lz4hc.c:1317-1350 | three ascending matches: the first two stay usable, apart, and long enough |
| HcLazyParser.StepSearch2 | lib/lz4hc.c:1210-1241 | from _Search2: writes, or moves on to a valid state closer to the end; what joined the found matches is what the finder returned |
| HcLazyParser.StepSearch3 | lib/lz4hc.c:1243-1350 | from _Search3: writes, or moves on to a valid state closer to the end; what joined the found matches is what the finder returned |
| HcLazyParser.CompressHashChain | lib/lz4hc.c:1159-1407 | terminates; literal runs and matches tile the source, each match at least four bytes and part of one that the finder returned in this run; the block conforms and decodes to the consumed source; fails only below the bound; n >= 13 equal bytes without history take 10 + (n + 230) / 255 bytes, and fail exactly when these do not fit |
| HcOptimalParser.PriceIsSize | lib/lz4hc.c:1826-1849 | the price of a sequence is the number of bytes it takes |
| HcOptimalParser.FindLongerMatch | lib/lz4hc.c:1851-1869 | nothing, or a usable match at this very position |
| HcOptimalParser.FirstPrices | lib/lz4hc.c:1947-1981 | after the first match every entry of the table ends a usable step at its own position |
| HcOptimalParser.LiteralPrices | lib/lz4hc.c:2019-2032 | cheaper literals keep the table valid |
| HcOptimalParser.MatchPrices | lib/lz4hc.c:2034-2068 | cheaper matches keep the table valid, and it grows without gaps |
| HcOptimalParser.Scan | lib/lz4hc.c:1983-2083 | ends at the last position, or at a match long enough, with a valid step that reaches it |
| HcOptimalParser.Reverse | lib/lz4hc.c:2085-2103 | the reversal in place turns entries that end at their position into a path that starts at 0 and arrives |
| HcOptimalParser.EncodePath | lib/lz4hc.c:2105-2119 | writing the path from left to right tiles the stretch |
| HcOptimalParser.CompressOptimal | lib/lz4hc.c:1879-2180 | the promises of the lazy parser, for the price-table parser; the size of a run of equal bytes for runs beyond the sufficient length |
| HcMidParser.TryIndex | lib/lz4hc.c:608-631 | a candidate in prefix or dictionary is used only as far as it is a true match, in the prefix exactly as far |
| HcMidParser.FindAt | lib/lz4hc.c:602-680 | a true match at the searched position or one byte on, or none; the match with the entry of the eight-byte table if that agrees in four bytes; no entry gets ahead of the search |
| HcMidParser.CatchBack | lib/lz4hc.c:701-704 | extending backwards keeps a match, not past the anchor nor out of the prefix |
| HcMidParser.CompressMid | lib/lz4hc.c:554-803 | terminates; literal runs and true matches of at least four bytes tile the source; the block conforms and decodes to the consumed source; fails only below the bound; n >= 13 equal bytes without history take 10 + (n + 230) / 255 bytes, and fail exactly when these do not fit; no table entry gets ahead of the source |
| HcApi.CompressGeneric | lib/lz4hc.c:1418-1464 | every level, any history: a nonzero result decodes to the consumed source; when it can be 0; the size of a run of equal bytes |
| HcApi.CompressHC | lib/lz4hc.c:1549-1584 | LZ4_compress_HC: success whenever the bound fits; the result decodes to the source; n >= 13 equal bytes take 10 + (n + 230) / 255 bytes at levels up to 9, and at higher ones when the run is long enough, and fail exactly when these do not fit |
| HcApi.CompressHcDestSize | lib/lz4hc.c:1587-1594 | succeeds exactly for a target of at least 1 and a source that is not too long; the block means the reported prefix, which falls short of the source only when the target is used up |
| HcApi.RoundTrip | lib/lz4hc.c:1568-1584 | compress at any level, decompress with exactly the size of the source: it comes back |
| HcApi.DestSizeRoundTrip | lib/lz4hc.c:1587-1594 | the consumed prefix comes back, given exactly that much room; it falls short of the source only when the packet is used up |
| GpuPlanner.PlanFits | lz4_gpu/lz4_gpu_core.c:336-385 | as many lanes as workers, or as dictionaries fit the budget, at least one, and no fewer; the launch is the smallest whole number of groups that holds them, the padding what is left; the dictionary is what the lanes need; no lane gets more blocks than blocks_per_owner, and some lane that many |
| GpuPlanner.Workspace.TakeEpochs | lz4_gpu/lz4_gpu_core.c:897-922 | one launch advances the epochs as the model of runs says |
| GpuPlanner.WrapsExact | lz4_gpu/lz4_gpu_core.c:910-915 | for up to 4094 epochs the test detects exactly the launches that would leave the first 4096 |
| GpuPlanner.EpochsExact | lz4_gpu/lz4_gpu_core.c:897-922 | the ranges since the last zeroing stay disjoint in their low 12 bits, free of 0 and long enough for their lanes, at every point of a run, if and only if every launch asks for at most 4094 epochs, the last one for at most 4095 |
| GpuPlanner.LargeLaunch | lz4_gpu/lz4_gpu_core.c:897-922 | a launch of 4096 epochs or more, or one whose count wraps in 32 bits, always breaks this |
| GpuPlanner.AfterLastLaunch | lz4_gpu/lz4_gpu_core.c:897-922 | after a launch of 4095 epochs every further launch breaks this |
| GpuPlanner.Launches | lz4_gpu/lz4_gpu_core.c:55-58 | any run on a fresh workspace: each launch gets the epoch the model says and zeroed tables exactly when it says, and the ranges of small launches keep apart |
| GpuContainer.WriteBlocksPacked | lz4_gpu/lz4_gpu_core.c:589-657 | the file grows by the blocks in order, whatever passes through the staging buffer or around it; it fails exactly when the file cannot hold them all, and then holds what fits |
| GpuContainer.BlockOffsets | lz4_gpu/lz4_gpu_core.c:1112-1131 | the offsets of all blocks, or failure exactly when one does not fit into 32 bits |
| GpuContainer.BlockFound | lz4_gpu/lz4_gpu_core.c:1112-1131 | the block is found at the offset computed for it |
| GpuContainer.RoundTrip | lz4_gpu/lz4_gpu_core.c:1112-1131 | every packed block is found again, for any placement and sizes, exactly when the file holds the payload and 32 bits name its offsets |

## Left out

- Partial decoding, the `byPtr` table of 32-bit builds, `LZ4_FAST_DEC_LOOP` off, big-endian machines.
- Dictionaries loaded or attached for compression (`LZ4_loadDict`, `LZ4_attach_dictionary`, their HC and frame variants).
- Decoder ring buffers in which a block overwrites the segment it refers to while it is decoded; in-place compression and decompression. Ring buffers of the encoder are covered, with a decoder that lines its output up.
- HC streaming (`LZ4_compress_HC_continue`, `LZ4_saveDictHC`), an attached HC dictionary.
- Optimality of the price table: entries are overwritten heuristically and no minimum is promised.
- Frame decoder: `skipChecksums`, a null destination, `stableDst`, `LZ4F_getFrameInfo`. These change which bytes are read from where, not what a frame means.
- Frame encoder: HC levels, dictionaries, `stableSrc`, `LZ4F_uncompressedUpdate` and switching between the two update modes.
- Stage buffers of the frame decoder (`header`, `tmpIn`) are sequences of fixed length that are replaced, not arrays written in place; the 64 KB history buffers and all outputs are arrays.
- Parser variables of the HC lazy parser are one value that is replaced step by step, since its gotos enter and leave the loops at any point.
- Price entries of the HC optimal parser start out as zeros, where the source leaves its table uninitialised; no decision depends on it.
- FrameEncoder.Cctx.Begin: fast levels without a dictionary only; HC levels need HC streaming, which is not part of this model.
- FrameEncoder.Cctx.CompressBlock: the block is compressed into a buffer of its own and copied behind the block header, where the source compresses in place; aliasing between the two does not occur.
- XXHash64.Streamed: that the digest of an input beyond 2^64 bytes differs from the one-shot hash is not claimed, since the two values could coincide.
- GpuContainer.WriteBlocksPacked: a write fails only for want of room in the file.
- The container header, buffer mapping, kernels, daemon and protocol of the GPU port; what the kernels compute.
- `lib/lz4file.c`, the other sample programs, the command-line program, deprecated entry points, custom allocation.
