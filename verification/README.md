# LZ4: blocks, streams and frames

A model of the compression library in `Fobl/src/main/cpp/lz4/lib`, with proofs
that what is compressed can be restored, whatever the way there.

- **Block format** (`Format`, `History`): sequences of literals and matches, their
  encoding, and a reference decoder that copies one byte at a time, once lenient
  and once with the end-of-block restrictions of the LZ4 Block Format. `Decodes`
  says that both readings of a block give the content. `History` says how much of
  what came before a block must be remembered.
- **Block decoder** (`Memory`, `DecoderSteps`, `Decoder`): `LZ4_decompress_generic`
  over an array, with over-copies of 8, 16 and 32 bytes, the two offset tables, the
  18-byte shortcut, the fast loop and its three ways into the main loop, the
  external dictionary and partial decoding. Every array access is in bounds, and
  every success is what the reference decoder yields.
- **Block encoder** (`Emit`, `MatchFinding`, `Greedy`, `Encoder`, `Block`, `InPlace`):
  `LZ4_compress_generic_validated` with its hash table, for any hash function, all
  three outputs, and prefix or external dictionary; `LZ4_compress_fast`,
  `LZ4_compress_destSize`, and the margin of decompression in place. `Greedy` defines
  the parse as a relation between turns, shows that there is only one, and the encoder
  is shown to write its block.
- **High compression** (`HcFinder`, `HcEmit`, `HcParser`, `HcOptimal`, `HcBlock`):
  hash chains, repeated patterns, the lazy parser as a state machine over its labels
  with the three overlapping matches, and the price table with its reversal in place.
- **Streaming** (`Stream`, `StreamDecoder`, `StreamRun`, `StreamLink`): indexes, offsets
  and dictionaries over any run of blocks, states that are used again by one-shot calls,
  and the decoder that follows.
- **Frames** (`FrameFormat`, `FrameHeader`, `FrameBounds`, `FrameEncoder`,
  `FrameProgress`, `FrameHint`, `FrameHistory`, `FrameDictionary`, `FrameDecoder`,
  `FrameRun`): the buffering encoder and the resumable decoder as classes, with
  invariants that hold between any two calls; capacity bounds; any schedule of writing,
  then any schedule of reading; a decoder that completes exactly the frames whose
  checksums and sizes are right, accepts exactly the headers that can be written, and
  returns a hint that its position in the frame determines.
- **xxHash** (`XxHash32`, `XxHash64`, and their `Answers`): the one-shot functions, the
  streaming states, and their agreement; known results as numbers. The checksums of
  frames are these functions.
- `Common`: sizes and small functions that several modules share.

Bytes are numbers below 256 and sizes are unbounded, except where the width of an
integer matters: 32-bit length sums, table offsets and indexes, block counts, the
32- and 64-bit arithmetic and the lengths of xxHash. A pointer is an index into an
array; the two sides of a `memcpy` that must not overlap are shown not to. What
`malloc` returns, the hash function of the match finders and every input are
parameters.

What the proofs turned up:

- `LZ4_resetStream_fast` adds 64 KB to an offset that is not 0; a table that was used is
  zeroed in time, but one that was never filled is not looked at. A dictionary of fewer
  than 8 bytes leaves such a table behind, and 33279 resets later the offset is out of
  range (`Stream.ResetsAfterTinyDict`). A block that then reaches 2^32, one of at least
  2^32 minus the offset bytes, wraps around unnoticed by `LZ4_renormDictT`
  (`Stream.WrapsExactly`), and behind the wrap matches that are too far are accepted
  (`Stream.FarAccepted`). It stays in range if and only if the offset is not that high
  before the reset (`Stream.FastStream.ResetFast`).
- On the same kind of table a one-shot call for a source below 64 KB stores indexes that
  16 bits do not hold. That is harmless: all of them are turned down, so that the block
  is correct and without matches (`Stream.FastStream.PrepareTable`, `Stream.NothingFound`).
- `LZ4F_compressBound_internal` counts blocks in 32 bits. It is the size of the blocks
  and of the end of the frame if and only if there are fewer than 2^32 of them, and too
  small otherwise (`FrameBounds.BoundExact`, with an input in `FrameBounds.BoundOverflows`).
- The hint of `LZ4F_decompress` is documented as the rest of the current block and the
  next block header. In a compressed block with a checksum line 1630 counts the checksum
  a second time, unless the call has just read the header of the block; in the checksum
  of a raw block it is 1, and in a header whose size is not yet known it fits the smallest
  one (`FrameHint.HintIsRest`).
- Two branches of `LZ4F_updateDict`, those that bring a dictionary from elsewhere into
  the internal buffer (lines 1329-1341 and 1354-1360), are not reached when
  stableDst is 0: the relocation at the end of each call comes first.

## Model

| member | source | states |
|---|---|---|
| Format.PeriodicIsCopyMatch | Fobl/src/main/cpp/lz4/lib/lz4.c:2103-2150 | any stretch whose bytes equal those `offset` before them is the byte-by-byte match copy: what every wide copy of the decoder is held against |
| Format.DecodeSequences | Fobl/src/main/cpp/lz4/lib/lz4.c:1928-2151 | over the bytes of any encodable list of good sequences the reference decoder, under lenient and strict end-of-block rules, arrives at their meaning |
| Format.DecodeBlock | Fobl/src/main/cpp/lz4/doc/lz4_Block_format.md:27-136 | round trip of the format: every good list of sequences with a last run decodes, leniently and strictly, to what it means after the history |
| History.MoreHistory | Fobl/src/main/cpp/lz4/lib/lz4.c:2404-2417 | a block that decodes after h decodes to the same content after any longer history that ends with h |
| History.LessHistory | Fobl/src/main/cpp/lz4/lib/lz4.c:2322-2359 | the last 65535 bytes of history are enough |
| History.CompatibleDecodes | Fobl/src/main/cpp/lz4/lib/lz4.c:2322-2359 | encoder and decoder need not remember the same history: one being an end of the other, or the same last 65535 bytes, is enough |
| Memory.WildCopy8 | Fobl/src/main/cpp/lz4/lib/lz4.c:408-415 | 8-byte stripes over an overlapping match of distance >= 8 give the periodic bytes up to e; nothing before is touched, and 7 spare bytes are enough |
| Memory.WildCopy32 | Fobl/src/main/cpp/lz4/lib/lz4.c:463-470 | the same for 2 x 16 byte stripes, with distance >= 16 and 31 spare bytes |
| Memory.SmallOffsetTables | Fobl/src/main/cpp/lz4/lib/lz4.c:417-418 | what inc32table and dec64table are for: after 4 bytes the source is a multiple of the offset back, after 8 again, by no more than is already written |
| Memory.SpreadSmallOffset | Fobl/src/main/cpp/lz4/lib/lz4.c:2122-2135 | the first 8 bytes of a match with offset below 8 are periodic, and the distance that is left is a multiple of the offset |
| Memory.PeriodicMultiple | Fobl/src/main/cpp/lz4/lib/lz4.c:417-459 | copying from a multiple of the offset back keeps the period |
| Memory.MemcpyUsingOffset | Fobl/src/main/cpp/lz4/lib/lz4.c:437-506 | pattern copy (offsets 1, 2, 4) and wide copies yield the bytes of the match up to e; nothing before it is touched |
| DecoderSteps.StrictTail | Fobl/src/main/cpp/lz4/lib/lz4.c:1985-2037 | a block that obeys the end-of-block rules still has a token and five literals to come when five bytes of output are missing |
| DecoderSteps.FarMatch | Fobl/src/main/cpp/lz4/lib/lz4.c:2073-2075 | no encoded block has an offset that reaches before the history |
| DecoderSteps.LongTokenBound | Fobl/src/main/cpp/lz4/lib/lz4.c:1976-1983 | in an encoded block no literal length exceeds input or output |
| DecoderSteps.LongMatchBound | Fobl/src/main/cpp/lz4/lib/lz4.c:2061-2068 | in an encoded block no match length exceeds the output, and a token and five literals follow |
| Decoder.ReadVariableLength | Fobl/src/main/cpp/lz4/lib/lz4.c:1707-1729 | length bytes are summed in 32 bits exactly as the format reads them; what each of its two error results still says about the sum |
| Decoder.PartialMatch | Fobl/src/main/cpp/lz4/lib/lz4.c:2106-2120 | a match near the end of the output is cut there, overlap included |
| Decoder.ExtDictMatch | Fobl/src/main/cpp/lz4/lib/lz4.c:2074-2100 | a match that starts in the external dictionary, whether it ends there or goes on into the output, is the match copy of the joined history |
| Decoder.SafeLiterals | Fobl/src/main/cpp/lz4/lib/lz4.c:1985-2052 | the four ends of a literal run: last sequence, refusal, cut by input or output (partial), or a wild copy with room; each only when the reference decoder allows it |
| Decoder.SafeMatch | Fobl/src/main/cpp/lz4/lib/lz4.c:2070-2151 | offset check, small-offset trick, stripes and byte tail produce the match copy, or refuse only what the strict rules refuse |
| Decoder.Shortcut | Fobl/src/main/cpp/lz4/lib/lz4.c:1935-1974 | 16 bytes for at most 14 literals and 18 bytes for a short match: the same as the slow path, and a failed second stage loses nothing |
| Decoder.FastLoop | Fobl/src/main/cpp/lz4/lib/lz4.c:1796-1924 | the fast loop hands over at three labels, always in the state the main loop would be in at that label |
| Decoder.FastRound | Fobl/src/main/cpp/lz4/lib/lz4.c:1797-1923 | one round of it: the rest of the block means the same, at the loop head or at one of the three labels |
| Decoder.SafeRound | Fobl/src/main/cpp/lz4/lib/lz4.c:1929-2151 | one round of the main loop keeps what the rest of the block means |
| Decoder.SafeDecode | Fobl/src/main/cpp/lz4/lib/lz4.c:1925-2165 | from each of those entries the main loop ends with the reference result or refuses |
| Decoder.DecompressGeneric | Fobl/src/main/cpp/lz4/lib/lz4.c:1737-2165 | for every input of at most 16 MiB, every capacity, prefix or external dictionary, full or partial: a success is the reference decoding, a refusal never meets an encoded block that fits; only dst[start..] is written |
| Emit.MatchMeaning | Fobl/src/main/cpp/lz4/lib/lz4.c:1021-1140 | literals and match read as copies give back the source |
| Emit.EmitSequence | Fobl/src/main/cpp/lz4/lib/lz4.c:1021-1140 | one more sequence with a real match extends what the written bytes mean |
| Emit.EmitLast | Fobl/src/main/cpp/lz4/lib/lz4.c:1204-1231 | with the last literals the written bytes are a block that decodes to the source, when MFLIMIT and LASTLITERALS were kept |
| Emit.PutLiterals | Fobl/src/main/cpp/lz4/lib/lz4.c:1021-1046 | token, length and wild-copied literals are the encoded head, with 7 spare bytes behind |
| Emit.PutMatchRun | Fobl/src/main/cpp/lz4/lib/lz4.c:1125-1136 | storing 0xFFFFFFFF ahead of the length bytes gives exactly those bytes, with 4 spare bytes behind |
| Emit.PutLast | Fobl/src/main/cpp/lz4/lib/lz4.c:1219-1230 | token, length and literals of the last run, copied exactly and nothing beyond |
| MatchFinding.FindMatch | Fobl/src/main/cpp/lz4/lib/lz4.c:954-1015 | with any hash function and any table of old entries: the first probe, at the growing strides, whose table entry agrees in four bytes inside source or dictionary and within 65535 is taken; not found only when none of the probes hits; the table holds the newest probe under each hash |
| MatchFinding.Test | Fobl/src/main/cpp/lz4/lib/lz4.c:1001-1013 | an entry is accepted if and only if it is inside source or dictionary, near enough, and agrees in four bytes |
| MatchFinding.CatchUp | Fobl/src/main/cpp/lz4/lib/lz4.c:1017-1019 | going backward the match stays real and inside its segment, and stops only at a limit or where the bytes differ |
| MatchFinding.CommonBytes | Fobl/src/main/cpp/lz4/lib/lz4.c:513-598 | the number of equal bytes of two words is the length of their common beginning |
| MatchFinding.Count | Fobl/src/main/cpp/lz4/lib/lz4.c:603-626 | LZ4_count, word by word, is the longest agreement up to the limit |
| MatchFinding.MatchCode | Fobl/src/main/cpp/lz4/lib/lz4.c:1078-1095 | the counted match is real, also across the end of the dictionary, leaves five literals, and could not be longer |
| Encoder.LimitMatch | Fobl/src/main/cpp/lz4/lib/lz4.c:1097-1122 | a match is shortened only under fillOutput, and then fits; limitedOutput gives up only where literals alone would not fit |
| Encoder.EncodeMatch | Fobl/src/main/cpp/lz4/lib/lz4.c:1048-1140 | after offset and length the written bytes mean the source up to the end of the match, which is as far as it goes unless fillOutput cut it; rewound positions leave the table |
| Encoder.TestNext | Fobl/src/main/cpp/lz4/lib/lz4.c:1145-1200 | the immediate match at the next position is taken if and only if it is one; two positions entered the table |
| Encoder.LastLiterals | Fobl/src/main/cpp/lz4/lib/lz4.c:1204-1231 | the block is closed: it decodes to the consumed prefix, is never larger than literals alone, 0 only when they would not fit; under fillOutput the last run reaches as far as literals alone would |
| Encoder.FilledUp | Fobl/src/main/cpp/lz4/lib/lz4.c:1206-1214 | while no more than anchor + anchor / 255 bytes are written, filling up with literals reaches as far as literals alone |
| Encoder.FillRunMost | Fobl/src/main/cpp/lz4/lib/lz4.c:1212-1213 | no longer run of literals fits the rest of the output |
| Encoder.Round | Fobl/src/main/cpp/lz4/lib/lz4.c:928-1202 | one round is one step of the greedy parse, or the parse is over |
| Greedy.OneTurn | Fobl/src/main/cpp/lz4/lib/lz4.c:928-1202 | a step of the greedy parse has one outcome: which probe, where the match begins and ends, and what enters the table |
| Greedy.OverIsOver | Fobl/src/main/cpp/lz4/lib/lz4.c:928-1202 | the parse goes on exactly as long as a probe hits |
| Greedy.GreedyIsUnique | Fobl/src/main/cpp/lz4/lib/lz4.c:851-1240 | a source, a table and an acceleration have one greedy block |
| Encoder.CompressValidated | Fobl/src/main/cpp/lz4/lib/lz4.c:851-1240 | for all outputs, tables, dictionary modes and accelerations: a result decodes strictly to the consumed source, is never larger than literals alone, and comes wherever they would fit; without fillOutput it is the block of the greedy parse; under fillOutput as much is consumed as would fit as literals |
| Block.CompressFast | Fobl/src/main/cpp/lz4/lib/lz4.c:1284-1370 | LZ4_compress_fast, on a state of its own: the block of the greedy parse; result > 0 exactly for supported sizes when compressBound fits, and wherever literals alone would fit; never larger than they are |
| Block.CompressDestSize | Fobl/src/main/cpp/lz4/lib/lz4.c:1382-1415 | what is consumed is what the block restores, and is all of the source or no less than would fit the target as literals; any target of one byte or more succeeds |
| Block.DecompressSafe | Fobl/src/main/cpp/lz4/lib/lz4.c:2171-2176 | success only with the bytes of the reference decoder (or a zero offset), certain success for an encoded block in a buffer of its size |
| Block.DecompressSafePartial | Fobl/src/main/cpp/lz4/lib/lz4.c:2179-2185 | min(target, capacity, N) bytes, a prefix of the content |
| Block.DecompressSafeUsingDict | Fobl/src/main/cpp/lz4/lib/lz4.c:2404-2417 | the same after a dictionary in front of the output or elsewhere |
| Block.RoundTrip | Fobl/src/main/cpp/lz4/lib/lz4.c:1354-1370 | compress and decompress into exactly |src| bytes, and partially into any buffer, for every source, acceleration, hash and output size |
| Block.DestSizeRoundTrip | Fobl/src/main/cpp/lz4/lib/lz4.c:1382-1396 | destSize output decodes, in a buffer of exactly the consumed size, to that prefix of the source; no shorter than what would fit the target as literals |
| InPlace.Excess | Fobl/src/main/cpp/lz4/lib/lz4.h:519-554 | how far the encoding of any run of sequences may exceed its content |
| InPlace.WriteNeverPassesRead | Fobl/src/main/cpp/lz4/lib/lz4.h:519-554 | at every sequence boundary of every block smaller than its content, placed at the end of LZ4_DECOMPRESS_INPLACE_BUFFER_SIZE bytes, write <= read |
| Stream.NoDictIssueIsSafe | Fobl/src/main/cpp/lz4/lib/lz4.c:1599-1632 | noDictIssue is chosen only where the skipped check could not fail |
| Stream.EarlierRejected | Fobl/src/main/cpp/lz4/lib/lz4.c:1001-1006 | no entry of an earlier call is taken for a match: in 16 bits the limit of dictSmall turns it down, in 32 bits the distance |
| Stream.WrapsExactly | Fobl/src/main/cpp/lz4/lib/lz4.c:1545-1562 | an offset is smaller after a block than before if and only if it reaches 2^32, and exactly then the 32-bit test of LZ4_renormDictT misses a sum above 2^31 |
| Stream.FarAccepted | Fobl/src/main/cpp/lz4/lib/lz4.c:1003-1006 | what a wrap does: the distance test passes a match that is too far if and only if it stands more than 65535 bytes before the wrap and is looked up behind it |
| Stream.ResetsAfterTinyDict | Fobl/src/main/cpp/lz4/lib/lz4.c:1455-1515 | a state that is reached by calls: after a dictionary of fewer than 8 bytes and n fast resets the offset is (n + 1) * 64 KB, in range if and only if n < 33279 |
| Stream.FastStream.PrepareTable | Fobl/src/main/cpp/lz4/lib/lz4.c:806-843 | exactly when the table is zeroed, and the offset afterwards; the indexes of a source then fit into 16 bits if and only if the table was not left with an offset by a tiny dictionary |
| Stream.NothingFound | Fobl/src/main/cpp/lz4/lib/lz4.c:736-746 | with such an offset, the low bits that are stored are turned down: nothing is found, and nothing goes wrong |
| Stream.FastStream.CompressPrepared | Fobl/src/main/cpp/lz4/lib/lz4.c:851-1281 | on a prepared table that holds entries of earlier calls the block is that of the greedy parse and decodes after nothing; entries stay positions before the new offset, and 16-bit ones stay below 2^16 |
| Stream.FastStream.FastReset | Fobl/src/main/cpp/lz4/lib/lz4.c:1316-1351 | LZ4_compress_fast_extState_fastReset after any calls on the same state: the block decodes after nothing, success wherever literals alone would fit, and the state can be used again |
| Stream.FastStream.ResetFast | Fobl/src/main/cpp/lz4/lib/lz4.c:806-843 | the history is forgotten, what is left of it lies below the gap; a table that was used comes back into range, and one that was never filled stays in range if and only if its offset is not within a block and a gap of 2^32 |
| Stream.FastStream.LoadDict | Fobl/src/main/cpp/lz4/lib/lz4.c:1475-1515 | the dictionary is the last 64 KB, or nothing when tiny, and then the table counts as never filled; else every slot holds the newest of every third position with that hash |
| Stream.FastStream.Renorm | Fobl/src/main/cpp/lz4/lib/lz4.c:1545-1562 | after it the next block cannot overflow the offset; when it fires every index is moved down or dropped, and the dictionary keeps its end; else nothing changes |
| Stream.FastStream.Declare | Fobl/src/main/cpp/lz4/lib/lz4.c:1580-1597 | tiny dictionaries are dropped, an overwritten one keeps its end, any other stays as it is |
| Stream.FastStream.SaveDict | Fobl/src/main/cpp/lz4/lib/lz4.c:1668-1684 | the saved dictionary is an end of the old one, also when source and target overlap |
| Stream.FastStream.CompressFastContinue | Fobl/src/main/cpp/lz4/lib/lz4.c:1565-1637 | every block decodes after an end of the declared dictionary and, where indexes need not be scaled down, is the one of the greedy parse after it; never larger than literals alone, successful wherever they fit; the next dictionary ends with the block; indexes never wrap, over any run of calls |
| Stream.DictionaryGrows | Fobl/src/main/cpp/lz4/lib/lz4.c:1599-1605 | after a block the dictionary is an end of the history with the block behind it |
| StreamDecoder.Decoder.SafeContinue | Fobl/src/main/cpp/lz4/lib/lz4.c:2322-2359 | a block made with a compatible history is restored in prefix, rolling or external mode, and then remembered |
| StreamDecoder.Decoder.Roll | Fobl/src/main/cpp/lz4/lib/lz4.c:2334-2346 | a block that continues the segment is restored with prefix and external dictionary as history, and extends the prefix |
| StreamDecoder.Decoder.Switch | Fobl/src/main/cpp/lz4/lib/lz4.c:2327-2356 | the first block, or one in a new place, is restored from the external dictionary and becomes the prefix |
| StreamRun.Follows | Fobl/src/main/cpp/lz4/lib/lz4.c:1565-1637 | the history the encoder used is compatible with everything the decoder has restored |
| StreamRun.StreamRoundTrip | Fobl/src/main/cpp/lz4/lib/lz4.c:1565-2359 | any cutting of the data into blocks, compressed and decompressed one after the other, gives back the data |
| StreamRun.UsedAgain | Fobl/src/main/cpp/lz4/lib/lz4frame.c:766-791 | one-shot calls of both kinds on the same two states, in any order of sources, sizes, levels and room: each block decodes after nothing, none is larger than literals alone, and none fails where they fit |
| StreamLink.Overwritten | Fobl/src/main/cpp/lz4/lib/lz4.c:1589-1597 | where a block is put over the front of the dictionary, what the encoder still uses of it is intact |
| StreamLink.BothEnds | Fobl/src/main/cpp/lz4/lib/lz4.c:2322-2359 | two ends of the same past are compatible when the decoder has a window of it, or as much as the encoder |
| StreamLink.Link.Send | Fobl/src/main/cpp/lz4/lib/lz4.c:1565-2359 | whatever was sent, saved, loaded and reset before, a block from anywhere in memory is restored, behind the last one or in a new buffer, exactly when the dictionary is not overwritten and the decoder remembers enough |
| StreamLink.Link.Save | Fobl/src/main/cpp/lz4/lib/lz4.c:1668-1684 | LZ4_saveDict in between keeps the ends together |
| StreamLink.Link.Load | Fobl/src/main/cpp/lz4/lib/lz4.c:1475-1515 | LZ4_loadDict and LZ4_setStreamDecode with the same bytes |
| StreamLink.Link.Reset | Fobl/src/main/cpp/lz4/lib/lz4.c:1461-1463 | LZ4_resetStream_fast of the encoder alone |
| StreamLink.Run | Fobl/src/main/cpp/lz4/lib/lz4.c:1475-2359 | any schedule of these steps: every block that may be sent comes back |
| HcFinder.CountPattern | Fobl/src/main/cpp/lz4/lib/lz4hc.c:172-200 | the count is the longest repetition of a 4-byte pattern up to the limit |
| HcFinder.ReverseCountPattern | Fobl/src/main/cpp/lz4/lib/lz4hc.c:206-220 | the same backward, down to the limit |
| HcFinder.CountBack | Fobl/src/main/cpp/lz4/lib/lz4hc.c:141-153 | the stretch that agrees in front of a match, within both limits |
| HcFinder.TryCandidate | Fobl/src/main/cpp/lz4/lib/lz4hc.c:280-294 | afterwards the best match is as long as any that the candidate makes, in both directions inside the limits, and a raise is real; the two-byte test leaves nothing out |
| HcFinder.Widest | Fobl/src/main/cpp/lz4/lib/lz4hc.c:287-289 | a stretch that can be extended on neither side is the longest of its candidate |
| HcFinder.NotPair | Fobl/src/main/cpp/lz4/lib/lz4hc.c:285 | where the two-byte test fails no match of the candidate is longer than the best one so far |
| HcFinder.RunsAreReal | Fobl/src/main/cpp/lz4/lib/lz4hc.c:384-399 | two runs of one byte are a match, without comparing them |
| HcFinder.Segment | Fobl/src/main/cpp/lz4/lib/lz4hc.c:356-371 | the run around a candidate, not below the lowest index |
| HcFinder.VisitLink | Fobl/src/main/cpp/lz4/lib/lz4hc.c:118-136 | following one stored delta, despite the cap and the 65536 wrap-around, is the step to the previous position with that hash |
| HcFinder.IndexedOne | Fobl/src/main/cpp/lz4/lib/lz4hc.c:123-133 | one insertion keeps table and chain exact |
| HcFinder.Context.Insert | Fobl/src/main/cpp/lz4/lib/lz4hc.c:118-136 | insertion up to ip keeps the index exact |
| HcFinder.Context.ChainIsScan | Fobl/src/main/cpp/lz4/lib/lz4hc.c:257-274 | for every hash and number of attempts, walking the chain visits the positions a linear scan finds in reach, newest first |
| HcFinder.Context.Restart | Fobl/src/main/cpp/lz4/lib/lz4hc.c:100-114 | a restarted context begins a segment above every index of the old one, or clears them, so that no old entry is in reach; indexes stay below 1 GB plus 64 KB |
| HcFinder.Context.Zero | Fobl/src/main/cpp/lz4/lib/lz4hc.c:1003-1018 | LZ4_initStreamHC on a used context: an exact index of nothing |
| HcFinder.Context.BestChain | Fobl/src/main/cpp/lz4/lib/lz4hc.c:313-335 | the chain chosen by chainSwap belongs to a byte inside the match |
| HcFinder.Context.PatternStep | Fobl/src/main/cpp/lz4/lib/lz4hc.c:371-404 | jumping inside a run goes down, and a length set without comparison is real |
| HcFinder.Context.Attempt | Fobl/src/main/cpp/lz4/lib/lz4hc.c:274-410 | every attempt, whichever branch it takes, keeps the best match sound, never shorter, and the next candidate below ip; a candidate that is compared is beaten, and without the shortcuts the next one is the next link |
| HcFinder.Context.InsertAndGetWiderMatch | Fobl/src/main/cpp/lz4/lib/lz4hc.c:236-439 | a raised `longest` comes with a start and a position that agree on that many bytes, inside the limits and within 65535; without pattern analysis, chain swap and favorDecSpeed no match of any of the first maxNbAttempts positions in reach with the same hash is longer, in either direction; in every mode the newest such position is beaten when it is compared; the search ends |
| HcFinder.Context.InsertAndFindBestMatch | Fobl/src/main/cpp/lz4/lib/lz4hc.c:446-457 | a result of four or more is a real match at ip itself, inside the limit; without pattern analysis no position that is looked at makes a longer one |
| HcParser.Wider | Fobl/src/main/cpp/lz4/lib/lz4hc.c:236-439 | the same in the source: a match is found if any position that has to be looked at makes a longer one, and it is then the longest |
| HcEmit.CheckFails | Fobl/src/main/cpp/lz4/lib/lz4hc.c:499-528 | the checks for space fail only where less is left than the source would take as literals |
| HcEmit.EncodeSequence | Fobl/src/main/cpp/lz4/lib/lz4hc.c:463-544 | a checked or unchecked sequence with a real match extends the block; a failed check has written only behind op |
| HcEmit.FillOverflow | Fobl/src/main/cpp/lz4/lib/lz4hc.c:762-781 | under fillOutput one more shortened sequence, if the end of the block stays valid |
| HcParser.Search2Keeps | Fobl/src/main/cpp/lz4/lib/lz4hc.c:595-621 | a better second match: ML1 restored, replaced or kept, the three matches stay usable |
| HcParser.CorrectKeeps | Fobl/src/main/cpp/lz4/lib/lz4hc.c:623-638 | moving the start of ML2 keeps it real, with its end |
| HcParser.CutKeeps | Fobl/src/main/cpp/lz4/lib/lz4hc.c:649-657 | ML1 cut at the start of ML2 is still a match of at least four bytes that ends before ML2 |
| HcParser.SavedKeeps | Fobl/src/main/cpp/lz4/lib/lz4hc.c:665-689 | when ML1 is written and ML3 taken, what is left of ML2, or ML3, is a usable match in front: the state is that of _Search2 |
| HcParser.DroppedKeeps | Fobl/src/main/cpp/lz4/lib/lz4hc.c:691-694 | when ML2 is replaced by ML3 the state is that of _Search3 |
| HcParser.PushedKeeps | Fobl/src/main/cpp/lz4/lib/lz4hc.c:697-727 | the final length of ML1 keeps it a match, and the moved ML2 with ML3 is a state of _Search3 behind it |
| HcParser.StepMain | Fobl/src/main/cpp/lz4/lib/lz4hc.c:588-593 | from the head of the loop to a state with one usable match, as long as any that was to be found there, or one byte further where there is none |
| HcParser.StepSearch2 | Fobl/src/main/cpp/lz4/lib/lz4hc.c:595-621 | from _Search2: the match is written as it is, and only when nothing longer was to be found two bytes before its end; what is written decodes, the next state is sound, and the parser gets on |
| HcParser.StepSearch3 | Fobl/src/main/cpp/lz4/lib/lz4hc.c:623-727 | from _Search3: what is written decodes, the next state is one of the three labels and sound, and the parser gets on; both matches are written only when nothing longer was to be found three bytes before the end of the second |
| HcParser.CompressHashChain | Fobl/src/main/cpp/lz4/lib/lz4hc.c:549-784 | the lazy parser, for every number of attempts, all three outputs and any prefix: the block decodes to the consumed source; never larger than literals alone and successful wherever they fit; an output that is filled holds no less than they would; a block without a match only when no position has one among its candidates |
| HcOptimal.PriceIsSize | Fobl/src/main/cpp/lz4/lib/lz4hc.c:1260-1283 | the price of a sequence, and of literals, is the number of bytes that encode them |
| HcOptimal.FindLongerMatch | Fobl/src/main/cpp/lz4/lib/lz4hc.c:1292-1311 | also when shortened for decoding speed, the match is real; the newest candidate is never better |
| HcOptimal.Init | Fobl/src/main/cpp/lz4/lib/lz4hc.c:1376-1410 | the table after the first match holds steps that exist |
| HcOptimal.ExtendLiterals | Fobl/src/main/cpp/lz4/lib/lz4hc.c:1448-1461 | so it does after cheaper literals |
| HcOptimal.ExtendMatch | Fobl/src/main/cpp/lz4/lib/lz4hc.c:1463-1506 | entries for a match of every shorter length, and trailing literals, stay steps that exist |
| HcOptimal.StepBack | Fobl/src/main/cpp/lz4/lib/lz4hc.c:1521-1532 | one round of the reversal in place: the steps written so far are a path, the entries below are untouched |
| HcOptimal.Consider | Fobl/src/main/cpp/lz4/lib/lz4hc.c:1413-1507 | one more position: taken at once, or the table grows |
| HcOptimal.Choose | Fobl/src/main/cpp/lz4/lib/lz4hc.c:1376-1512 | a filled table and a last step, from any match found on the way |
| HcOptimal.Reverse | Fobl/src/main/cpp/lz4/lib/lz4hc.c:1517-1532 | reversing in place turns the path read backward into steps that cover the stretch without gap or overlap |
| HcOptimal.Replay | Fobl/src/main/cpp/lz4/lib/lz4hc.c:1534-1548 | replaying the path writes sequences that decode |
| HcOptimal.CompressOptimal | Fobl/src/main/cpp/lz4/lib/lz4hc.c:1314-1615 | the optimal parser: the block decodes to the consumed source; never larger than literals alone and successful wherever they fit; an output that is filled holds no less than they would |
| HcBlock.CompressGeneric | Fobl/src/main/cpp/lz4/lib/lz4hc.c:796-857 | at every level the chosen parser, with the chosen number of attempts, keeps those promises; levels 1 to 8 give a block without a match only where there is none to be found |
| HcBlock.CompressHc | Fobl/src/main/cpp/lz4/lib/lz4hc.c:954-967 | LZ4_compress_HC: success exactly for supported sizes when compressBound fits, and wherever literals alone would fit; never larger than they are |
| HcBlock.StateHc.FastReset | Fobl/src/main/cpp/lz4/lib/lz4hc.c:935-945 | LZ4_compress_HC_extStateHC_fastReset after any calls on the same state, a failed one included: the block decodes after nothing, success and size as for LZ4_compress_HC, indexes below 2^32 |
| HcBlock.CompressHcDestSize | Fobl/src/main/cpp/lz4/lib/lz4hc.c:970-977 | LZ4_compress_HC_destSize: the consumed prefix is what the block restores, and no shorter than what would fit as literals; any target of one byte or more succeeds |
| HcBlock.RoundTripHc | Fobl/src/main/cpp/lz4/lib/lz4hc.c:954-967 | compress at any level and decompress into exactly |src| bytes: the source comes back, and success is certain when literals alone would fit |
| HcBlock.StreamHc.LoadDict | Fobl/src/main/cpp/lz4/lib/lz4hc.c:1056-1075 | the window is the last 64 KB |
| HcBlock.StreamHc.Continue | Fobl/src/main/cpp/lz4/lib/lz4hc.c:1102-1144 | blocks that follow each other in memory decode after the window, are never larger than literals alone and succeed wherever those fit; indexes are restarted in time |
| XxHash32.StripesAppend | Fobl/src/main/cpp/lz4/lib/xxhash.c:452-512 | the lanes after a concatenation are those after its second part, from where the first left them |
| XxHash32.Finalize | Fobl/src/main/cpp/lz4/lib/xxhash.c:291-348 | the fall-through switch is the word-then-byte loop |
| XxHash32.XXH32 | Fobl/src/main/cpp/lz4/lib/xxhash.c:352-416 | the one-shot function is the hash, whatever the length |
| XxHash32.State.Update | Fobl/src/main/cpp/lz4/lib/xxhash.c:452-512 | lanes, buffer and memsize are those of everything fed so far |
| XxHash32.State.Digest | Fobl/src/main/cpp/lz4/lib/xxhash.c:527-554 | the digest is the one-shot hash of everything fed, with the length modulo 2^32 |
| XxHash32.Streamed | Fobl/src/main/cpp/lz4/lib/xxhash.c:437-554 | any splitting gives the one-shot hash |
| XxHash32Answers.Empty | Fobl/src/main/cpp/lz4/lib/xxhash.c:352-416 | nothing, seed 0: 0x02CC5D05 |
| XxHash32Answers.Abc | Fobl/src/main/cpp/lz4/lib/xxhash.c:352-416 | "abc", seed 0: 0x32D153FF |
| XxHash32Answers.AbcSeed1 | Fobl/src/main/cpp/lz4/lib/xxhash.c:352-416 | "abc", seed 1, as a number |
| XxHash32Answers.Zeros | Fobl/src/main/cpp/lz4/lib/xxhash.c:352-416 | 16 zero bytes: 0x8E022B3A |
| XxHash32Answers.Long | Fobl/src/main/cpp/lz4/lib/xxhash.c:352-416 | 39 distinct bytes, two stripes, a word and three bytes: every constant and rotation is used |
| XxHash64.Finalize | Fobl/src/main/cpp/lz4/lib/xxhash.c:702-808 | the 32-case switch is the word-then-byte loop |
| XxHash64.XXH64 | Fobl/src/main/cpp/lz4/lib/xxhash.c:811-879 | the one-shot function is the hash, whatever the length |
| XxHash64.State.Update | Fobl/src/main/cpp/lz4/lib/xxhash.c:912-979 | lanes, buffer and memsize are those of everything fed so far |
| XxHash64.State.Digest | Fobl/src/main/cpp/lz4/lib/xxhash.c:981-1013 | the digest is the one-shot hash, for every size that 64 bits hold |
| XxHash64.Streamed | Fobl/src/main/cpp/lz4/lib/xxhash.c:898-1013 | any splitting gives the one-shot hash |
| XxHash64Answers.Empty | Fobl/src/main/cpp/lz4/lib/xxhash.c:811-879 | nothing, seed 0: 0xEF46DB3751D8E999 |
| XxHash64Answers.Abc | Fobl/src/main/cpp/lz4/lib/xxhash.c:811-879 | "abc", seed 0, as a number |
| XxHash64Answers.AbcSeed1 | Fobl/src/main/cpp/lz4/lib/xxhash.c:811-879 | the same with seed 1 |
| XxHash64Answers.Zeros | Fobl/src/main/cpp/lz4/lib/xxhash.c:811-879 | 32 zero bytes |
| XxHash64Answers.Long | Fobl/src/main/cpp/lz4/lib/xxhash.c:811-879 | 47 distinct bytes: a stripe, a double word, a word and three bytes |
| FrameFormat.HeaderRoundTrip | Fobl/src/main/cpp/lz4/lib/lz4frame.c:1113-1205 | the header that LZ4F_compressBegin writes is parsed back to the same description, whatever follows it |
| FrameFormat.HeaderBegun | Fobl/src/main/cpp/lz4/lib/lz4frame.c:1151-1163 | seven bytes of it are enough to know its size |
| FrameHeader.AcceptsExactly | Fobl/src/main/cpp/lz4/lib/lz4frame.c:1113-1205 | a header is accepted, with this description and size, if and only if the bytes begin with a header of that description, in which the size and the dictID may be there to say zero: magic number, version, reserved bits, block size and checksum all follow |
| FrameHeader.AsksExactly | Fobl/src/main/cpp/lz4/lib/lz4frame.c:1164-1172 | more bytes are asked for if and only if magic number and flags are those of a longer header |
| FrameHeader.RefusesExactly | Fobl/src/main/cpp/lz4/lib/lz4frame.c:1113-1205 | everything else is refused |
| FrameHeader.AcceptedIsWritten | Fobl/src/main/cpp/lz4/lib/lz4frame.c:1199-1201 | an accepted header is the one that LZ4F_compressBegin writes if and only if neither field is there to say zero; it is longer by those that are |
| FrameHeader.DamagedChecksum | Fobl/src/main/cpp/lz4/lib/lz4frame.c:1181-1188 | a header with any other checksum byte is refused |
| FrameHeader.SmallestHeader | Fobl/src/main/cpp/lz4/lib/lz4frame.c:669-696 | the smallest header with a content checksum, byte for byte |
| FrameHeader.FullHeader | Fobl/src/main/cpp/lz4/lib/lz4frame.c:669-696 | and one with every field and flag |
| FrameHeader.SmallestBlocks | Fobl/src/main/cpp/lz4/lib/lz4frame.c:740-763 | raw and compressed blocks and the end mark, byte for byte |
| FrameBounds.BoundIsTotal | Fobl/src/main/cpp/lz4/lib/lz4frame.c:324-348 | LZ4F_compressBound_internal is the size of the blocks and of the end of the frame, as long as the blocks can be counted in 32 bits |
| FrameBounds.BoundExact | Fobl/src/main/cpp/lz4/lib/lz4frame.c:324-348 | it is never more than that size, and equal to it if and only if there are fewer than 2^32 blocks |
| FrameBounds.BoundMonotone | Fobl/src/main/cpp/lz4/lib/lz4frame.c:324-348 | more buffered bytes never give a smaller bound |
| FrameBounds.BoundOverflows | Fobl/src/main/cpp/lz4/lib/lz4frame.c:340-347 | where they cannot be counted it is no bound: 2^48 bytes are promised to fit into four |
| FrameBounds.RoomForFull | Fobl/src/main/cpp/lz4/lib/lz4frame.c:873-882 | the bound has room for every full block |
| FrameBounds.RoomForLast | Fobl/src/main/cpp/lz4/lib/lz4frame.c:884-893 | and for the rest, when it is flushed |
| FrameBounds.OptimalBSID | Fobl/src/main/cpp/lz4/lib/lz4frame.c:304-316 | the smallest block size that holds the source, or the requested one |
| FrameBounds.FrameBoundSuffices | Fobl/src/main/cpp/lz4/lib/lz4frame.c:351-393 | LZ4F_compressFrameBound of the preferences of the caller covers the bound of the reduced ones |
| FrameEncoder.WriteHeader | Fobl/src/main/cpp/lz4/lib/lz4frame.c:669-696 | the stores, in order, are the bytes of the frame descriptor with its checksum |
| FrameEncoder.Context.Begin | Fobl/src/main/cpp/lz4/lib/lz4frame.c:598-700 | a context that holds no input and a header; fails exactly below 19 bytes |
| FrameEncoder.Context.SelectState | Fobl/src/main/cpp/lz4/lib/lz4frame.c:613-637 | whatever level the last frame had, the state for this one can be used |
| FrameEncoder.Context.Compress | Fobl/src/main/cpp/lz4/lib/lz4frame.c:766-807 | on the states of the context, used from block to block and frame to frame, each block compressor yields a block that decodes after all the content so far, or after nothing |
| FrameEncoder.Context.MakeBlock | Fobl/src/main/cpp/lz4/lib/lz4frame.c:740-763 | one good block, compressed if that is smaller than the piece, else raw; raw ones are history too |
| FrameEncoder.Context.LocalSaveDict | Fobl/src/main/cpp/lz4/lib/lz4frame.c:809-814 | the history, at most 64 KB of it, is moved to the start of the internal buffer and still ends the content |
| FrameEncoder.Context.Preserve | Fobl/src/main/cpp/lz4/lib/lz4frame.c:895-912 | after blocks out of the source the history is in the internal buffer, unless the source is stable, and the next pending block has room behind it |
| FrameEncoder.Context.Blocked | Fobl/src/main/cpp/lz4/lib/lz4frame.c:847-893 | pending and new input go into blocks as far as they fill them, within the bound |
| FrameEncoder.Context.Update | Fobl/src/main/cpp/lz4/lib/lz4frame.c:825-927 | succeeds exactly when the bound for what is buffered fits, writes no more than it, and accounts for all input; less than a block stays pending; a refused call changes nothing |
| FrameEncoder.Context.Flush | Fobl/src/main/cpp/lz4/lib/lz4frame.c:938-974 | succeeds exactly when the pending bytes, a header and a checksum fit; then nothing stays pending and the bytes of its block were written; a refused call changes nothing |
| FrameEncoder.Context.CallerWrites | Fobl/src/main/cpp/lz4/lib/lz4frame.c:895-904 | between calls the caller may overwrite everything outside the internal buffer, its old input included |
| FrameEncoder.Context.End | Fobl/src/main/cpp/lz4/lib/lz4frame.c:986-1022 | blocks, end mark and checksum complete a good frame whose content is the input; refused when the announced size differs |
| FrameRun.Encode | Fobl/src/main/cpp/lz4/lib/lz4frame.c:598-1022 | every schedule of updates and flushes, with reused input memory, ends in a frame whose content is the concatenated input |
| FrameRun.AdjustedPrefs | Fobl/src/main/cpp/lz4/lib/lz4frame.c:351-393 | the adjusted preferences need no more capacity than the original ones, and at most 64 KB of buffer |
| FrameRun.CompressFrame | Fobl/src/main/cpp/lz4/lib/lz4frame.c:373-419 | the one-shot frame, on a context used before: LZ4F_compressFrameBound of the original preferences always suffices, and the result is a frame of the source |
| FrameDictionary.DictServes | Fobl/src/main/cpp/lz4/lib/lz4frame.c:1666-1684 | wherever the dictionary stands, trimmed or not, it replaces all of the content so far |
| FrameDictionary.DictGrows | Fobl/src/main/cpp/lz4/lib/lz4frame.c:1305-1308 | prefix mode of LZ4F_updateDict: the longer dictionary ends with the last 64 KB of the longer content |
| FrameDictionary.DictMoves | Fobl/src/main/cpp/lz4/lib/lz4frame.c:1310-1315 | so does the output alone, once it is 64 KB long |
| FrameDictionary.FlushInTmp | Fobl/src/main/cpp/lz4/lib/lz4frame.c:1322-1327 | so does the part of the internal buffer up to what was handed out |
| FrameDictionary.DictTrimmed | Fobl/src/main/cpp/lz4/lib/lz4frame.c:1343-1351 | so does a full internal buffer cut to 64 KB, with the output behind |
| FrameDictionary.Relocated | Fobl/src/main/cpp/lz4/lib/lz4frame.c:1864-1873 | so do the last 64 KB moved into the internal buffer at the end of a call |
| FrameDictionary.RelocatedFlush | Fobl/src/main/cpp/lz4/lib/lz4frame.c:1851-1862 | and, in the middle of a decoded block, the history moved in front of tmpOut together with the part handed out |
| FrameDecoder.Dctx.DecodeHeader | Fobl/src/main/cpp/lz4/lib/lz4frame.c:1113-1205 | for any bytes: what FrameHeader says is accepted sets description, limits and stage, a begun header tells how many bytes it has, anything else is refused |
| FrameDecoder.Dctx.StepHeader | Fobl/src/main/cpp/lz4/lib/lz4frame.c:1417-1446 | headers in pieces of any size are read as the whole header is; it waits only with the input used up |
| FrameDecoder.Dctx.StepInit | Fobl/src/main/cpp/lz4/lib/lz4frame.c:1448-1473 | afterwards the buffers hold a block and, for linked blocks, 128 KB of history, whatever frame came before |
| FrameDecoder.Dctx.StepBlockHeader | Fobl/src/main/cpp/lz4/lib/lz4frame.c:1475-1532 | block headers, whole or in pieces, and the end mark; a block larger than the limit is refused |
| FrameDecoder.Dctx.StepCopyDirect | Fobl/src/main/cpp/lz4/lib/lz4frame.c:1534-1572 | raw blocks, bounded by input, output and block: what is copied is what comes next in the content, and is hashed, counted and remembered |
| FrameDecoder.Dctx.StepBlockChecksum | Fobl/src/main/cpp/lz4/lib/lz4frame.c:1575-1608 | the checksum of a raw block, in pieces: refused only when the frame is damaged |
| FrameDecoder.Dctx.StepCBlock | Fobl/src/main/cpp/lz4/lib/lz4frame.c:1610-1722 | a compressed block that is all there; its checksum is compared before it is decoded |
| FrameDecoder.Dctx.KeepCBlock | Fobl/src/main/cpp/lz4/lib/lz4frame.c:1622-1722 | one that arrives in pieces of any size; it waits only with the input used up |
| FrameDecoder.Dctx.UpdateDict | Fobl/src/main/cpp/lz4/lib/lz4frame.c:1295-1362 | LZ4F_updateDict: the dictionary still ends with the last 64 KB of output |
| FrameDecoder.Dctx.DecodeToDst | Fobl/src/main/cpp/lz4/lib/lz4frame.c:1660-1683 | a block decoded straight into the output is the next piece of the content, wherever the dictionary stands; checksum, size counter and dictionary follow |
| FrameDecoder.Dctx.PlaceTmp | Fobl/src/main/cpp/lz4/lib/lz4frame.c:1685-1697 | tmpOut plus maxBlockSize stays inside tmpOutBuffer, behind the history |
| FrameDecoder.Dctx.DecodeToTmp | Fobl/src/main/cpp/lz4/lib/lz4frame.c:1685-1722 | with less room in the output the block is decoded behind the history in the internal buffer, and is the next piece of the content |
| FrameDecoder.Dctx.StepFlush | Fobl/src/main/cpp/lz4/lib/lz4frame.c:1724-1744 | each part of a decoded block that is handed out continues the content; the dictionary keeps up; it stops only with the output full |
| FrameDecoder.Dctx.StepSuffix | Fobl/src/main/cpp/lz4/lib/lz4frame.c:1746-1793 | size and content checksum: complete, and ready for another frame, only if the frame is clean; refused only if it is not |
| FrameDecoder.Dctx.Preserve | Fobl/src/main/cpp/lz4/lib/lz4frame.c:1844-1874 | after a call the context is valid without its output buffer, whatever the stage: history is moved into the internal buffer in time |
| FrameDecoder.Dctx.LinkedHistory | Fobl/src/main/cpp/lz4/lib/lz4frame.c:1295-1362 | whenever a linked block is decoded, the dictionary ends with the last min(64 KB, all) bytes of the output of all calls |
| FrameDecoder.Dctx.FlushRoom | Fobl/src/main/cpp/lz4/lib/lz4frame.c:1685-1722 | a block that waits in the internal buffer is whole, and so is the room for one behind the history |
| FrameDecoder.Dctx.Expect | Fobl/src/main/cpp/lz4/lib/lz4frame.c:1097-1102 | a finished context takes another frame |
| FrameDecoder.Dctx.Decompress | Fobl/src/main/cpp/lz4/lib/lz4frame.c:1384-1879 | each call consumes and produces the next bytes; 0 exactly when the frame is complete; an error only for a damaged frame; else all input was taken, or the output is full with more to come, and the result is the hint for the position in the frame, which differs only at the first byte of a block between the call that read its header and a later one; between calls nothing depends on the last output buffer |
| FrameHint.Located | Fobl/src/main/cpp/lz4/lib/lz4frame.h:440-460 | which item of a frame each position belongs to: header, block header, block, end mark, checksum |
| FrameHint.HintIsRest | Fobl/src/main/cpp/lz4/lib/lz4frame.c:1426-1772 | the hint is what is left of the item at hand, with the next block header: in a header if and only if a byte of it was read and its size is known, or it has the smallest size; in a raw block if and only if not in its checksum, where it is 1; in a compressed block if and only if it has no checksum, which is counted twice, or this call has just read its header; everywhere else always |
| FrameHint.RestArrives | Fobl/src/main/cpp/lz4/lib/lz4frame.h:450-451 | a reader that follows it arrives behind the header of the next block |
| FrameDecoder.Dctx.CheckSuffix | Fobl/src/main/cpp/lz4/lib/lz4frame.c:1779-1793 | behind the end mark, complete if and only if the frame is clean |
| FrameFormat.GoodFrameArrives | Fobl/src/main/cpp/lz4/lib/lz4frame.c:740-1022 | what the encoder writes is readable and undamaged |
| FrameRun.DecodeStored | Fobl/src/main/cpp/lz4/lib/lz4frame.c:1384-1879 | with any stored checksums, content size and block lengths, and any splitting: completed only if all of them are right, and then with exactly the content; refused only if one is wrong; enough useful calls decide |
| FrameRun.Decode | Fobl/src/main/cpp/lz4/lib/lz4frame.c:1384-1879 | any splitting of input and output of what the encoder wrote: the outputs make up the content, consumption is exactly the frame whatever follows it, 0 on the completing call only; useful calls complete the frame in at most as many as it has bytes in and out; never an error |
| FrameRun.WriteAndRead | Fobl/src/main/cpp/lz4/lib/lz4frame.c:598-1879 | what any schedule of writing was given comes out of any schedule of reading, completely once the useful calls are as many as bytes go in and out |

## Left out

Contracts that say less than the whole:

- Decoder.DecompressGeneric: for an input of more than 16 MiB the 32-bit sum of length bytes may wrap, and the contract then asks for an encoded block; an offset of 0 and the exact negative codes are unspecified.
- Block.DecompressSafe: as above.
- Block.DecompressSafePartial: of a block that no encoder wrote only the bounds are stated; the output buffer is the part that the call may fill, the minimum of target and capacity.
- HcFinder.Context.InsertAndGetWiderMatch: one segment; the branches for an external dictionary and for dictCtx are not part of this model. The tables start zeroed, as LZ4_initStreamHC leaves them; LZ4HC_clearTables, which fills the chain with 0xFFFF, is used by Restart only. With pattern analysis or chain swap, which leave candidates out by design, only the newest one is promised to be beaten.
- HcParser.CompressHashChain: beyond 128 attempts, where pattern analysis is on, nothing is stated about matches that are left out.
- HcOptimal.CompressOptimal: how small the block is beyond that is not stated.
- Encoder.CompressValidated: under fillOutput the parse is greedy until the output is nearly full; that is not stated.
- Stream.FastStream.FastReset: that the block is that of the greedy parse is stated for the prepared table, in CompressPrepared.
- FrameRun.Encode: stableSrc is 0, since pieces may be put over one another; with 1 it is CompressFrame, and any call of Update that leaves the history in place.
- StreamLink.Link.Send: a block for which the caller's conditions do not hold is not sent.
- HcBlock.StreamHc.Continue: blocks that stand one after the other in memory; LZ4HC_setExternalDict and LZ4_saveDictHC are not part of this model.
- Stream.FastStream.CompressFastContinue: no attached dictionary context (dictCtx).
- StreamDecoder.Decoder.SafeContinue: the segments before the current one must be in other arrays, so that ring buffers within one array are not covered; a prefix of at least 65535 bytes counts as 64 KB.
- XxHash32.State.Update: null input, big-endian machines and aligned reads are not modelled.
- XxHash64.State.Digest: for 2^64 bytes and more in one stream, which no one-shot call can take, nothing is stated.
- FrameEncoder.Context.Begin: linked blocks at the levels of lz4hc.c are not covered; independent blocks are, at every level. Allocation always succeeds. The two kinds of state behind lz4CtxPtr are objects of their own, and one is initialised whenever the other was in use.
- FrameRun.CompressFrame: the parts of the output that update and end write are buffers of their own, copied behind what is there.
- FrameDecoder.Dctx.Decompress: the frame has a good header; its blocks may have any length, checksum and content, but a compressed block whose checksum is right, or that has none, decodes. Which error a damaged frame gives is not stated, nor what the context is good for after it. stableDst is 0.
- FrameEncoder.Context.Update: memory of less than 2^47 bytes, so that blocks can be counted, and a source apart from the internal buffer.
- FrameEncoder.Context.End: after LZ4F_compressBegin only.
- FrameDecoder.Dctx.DecodeHeader: skippable frames are a bad header here.

Not modelled:

- LZ4_decompress_fast and its variants, obsolete wrappers, the byPtr table mode, big-endian paths, alignment, allocation failure: they add cases without adding properties.
- Attached dictionary contexts, LZ4F_CDict, LZ4F_decompress_usingDict, LZ4F_getFrameInfo, skippable frames.
- LZ4_decoderRingBufferSize: it depends on how far a build over-copies.
- Compression ratio and optimality of prices: heuristics, beyond what literals alone would take.
- The bit tricks of LZ4_NbCommonBytes: its result is modelled as the length of the common beginning of two words.
- The command-line programs, examples, tests, fuzzers, and everything outside the library: input and output, timing, demonstrations.
