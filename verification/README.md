# Verified model of ESPCompressor

A Dafny model of the `.esc` pipeline of ESPCompressor, with proofs of what the pipeline promises.
`dafny verify dfyconfig.toml` checks the whole project.

The model follows the program's layers; each layer is proved against a specification that the
layer above uses.

| file | models |
|---|---|
| `Types.dfy` | bytes, words and error codes |
| `MemoryBuffer.dfy` | the growable staging buffer over an allocator that may refuse |
| `LzFormat.dfy` | the LZ-lite block format: layout, parser, meaning of a block |
| `LzDecoder.dfy` | the block decompressor, in place over an array, with sums that wrap |
| `LzEncoder.dfy` | the greedy block compressor with its hash table |
| `LzTheorems.dfy` | round trip, choice of matches, sizes, runs of one byte |
| `LzLayout.dfy` | the bytes of a block, spelled out |
| `LzWordSize.dfy` | the decoder's arithmetic where `size_t` wraps, and when that makes no difference |
| `Crc32.dfy` | the bitwise CRC-32, its table form, burst detection |
| `CrcDivision.dfy` | the checksum as the remainder of a polynomial division |
| `EscFormat.dfy` | header and block header coding |
| `Container.dfy` | the container as a grammar, and a reference reader |
| `Written.dfy` | what compression writes, and that reading inverts it |
| `Layout.dfy` | the container byte by byte: which inputs are containers, and what is written |
| `Streams.dfy` | contracts of sources and sinks; buffer and stream implementations |
| `Session.dfy` | cancellation, exact reads, the order of calls on a sink |
| `Decompressing.dfy`, `Compressing.dfy` | `runDecompress` and `runCompress` |
| `Pipeline.dfy` | both runs in sequence, and runs over containers cut short or damaged |
| `FileSink.dfy` | the file sink over a file system on which anything may fail |
| `Jobs.dfy` | the compressor object under any number of threads, as a state machine |
| `JobTheorems.dfy` | what holds in every interleaving: exclusive runs, lives of jobs, deinit |
| `JobProgress.dfy` | that no job and no deinit can get stuck; deinit and the completion callback |
| `JobRecords.dfy` | job numbers, and where the last result comes from |
| `JobResults.dfy` | exactly when the last result is the latest run's |
| `JobHistory.dfy` | configuration, answers and results, told by the events alone |

How to read it:

- A loop or an object of the source is a method or a class here. Each is proved against a function
  (`Decoded`, `Compressed`, `Crc`, `ReadContainer`, `WrittenContainer`, …), and the lemmas are about
  those functions.
- What lies outside the code is nondeterministic: the allocator may refuse, a read may be short,
  fail or stall and may notice the end one read late, a sink call may fail (`failure` keeps its
  error), a cancel flag may be raised at any moment, a file operation may fail. Ghost fields
  (`faulted`, `refusals`, `failed`) and the ghost result `trouble` record that such a thing
  happened. So theorems say both what holds in every case, and that nothing but such a thing makes a
  run fail. A `Platform` gives the largest `size_t` and says whether its allocator may refuse at
  all.
- The constants and predicates that writer and reader share are pinned from outside, by statements in
  plain numbers that do not use them: `CrcDivision` for the checksum, `LzLayout` and
  `LzTheorems.CompressedIsChosen` for blocks, `Layout` for containers, `JobHistory` for the object.
- `Greedy` takes what the hash table answers as an arbitrary function, so `GreedyRoundTrip` does not
  depend on the table. `Compressed` fixes it to the table's real answers, positions stored as
  `int32_t` with wrap-around, and `Compress` is proved to write exactly that.
- In `Jobs.dfy` a step of the machine is one mutex section or one atomic store. Calls that return
  without changing anything (a synchronous call on a busy or uninitialised instance) are no steps.

Things the code does that one might not expect, kept as they are:

- After a commit, buffer sinks have released their staging, so `runCompress` reports
  `outputBytes == 0` for them (`RunCompress`, field `releases`).
- A source that claims a size it does not deliver is compressed without complaint; reading the
  container back is then rejected. `ContainerRoundTrip` states the exact condition.
- The library's README (line 122) says that the old destination survives a failed final rename. It
  does unless moving it back fails as well; then the path is empty and the later `abort` removes the
  backup too. That is the only way, and it happens exactly when two renames of the session fail
  (`FileSinks.RunSession`, result `lost`; `FileSinks.LoseFile`).
- The decoder adds lengths in `size_t`, and the methods here wrap as the program does. On a 32-bit
  target the sums can let a block pass that is the layout of nothing, or a copy go beyond a buffer.
  The limits are exact: inputs of up to 16 777 216 bytes are safe whatever size is expected of them
  (`LzWordSize.LimitExact`); blocks, which are stored in no more bytes than they hold, are safe up to
  16 843 012 bytes (`LzWordSize.BlockLimitExact`), and containers up to that block size
  (`Container.ReaderLimitExact`). `Container.WordContainer` is the reader of such a target, and
  `RunDecompress` is proved to be that reader on every target. It reads every container that was
  written as `ReadContainer` does, whatever the word. `Undefined` and the error `InternalError`, which
  the decoder uses for nothing else, stand for a copy beyond a buffer: the program does not define
  what happens then.
- `finishAsyncJob` frees the instance before it calls `onComplete`, so `deinit` may return before
  that call: it can do so exactly as long as the call has not been made
  (`JobProgress.DeinitPrecedesCallback`).
- A synchronous call frees the instance before it stores its result, so `lastResult` may end up with
  the result of an earlier run. It does exactly when the call was overtaken in between
  (`JobResults.ReportsLatestExactly`, `JobResults.OrderDecides`).

## Model

| member | source | states |
|---|---|---|
| Memory.MemoryBuffer.NextCapacity | src/esp_compressor/util/memory_buffer.cpp:82-90 | growth terminates, stays within `size_t`, at least doubles unless it has to fall back to the exact size above half of `size_t` |
| Memory.DoublingIs | src/esp_compressor/util/memory_buffer.cpp:82-90 | the new capacity is the old one times the least power of two that suffices, or the required size itself when that doubling would leave `size_t` |
| Memory.MemoryBuffer.Grow | src/esp_compressor/util/memory_buffer.cpp:82-101 | contents survive growth; failed growth changes nothing; the capacities given up since the last release sum to less than the current one |
| Memory.MemoryBuffer.Resize | src/esp_compressor/util/memory_buffer.cpp:44-50 | the common prefix of the contents survives a resize, a refused resize leaves the sequence alone, a fitting one never fails |
| Memory.MemoryBuffer.Append | src/esp_compressor/util/memory_buffer.cpp:52-67 | appends exactly the bytes or leaves the sequence unchanged |
| Memory.WrapsOnlyBelow | src/esp_compressor/util/memory_buffer.cpp:59-61 | the wrap-around test of append detects exactly the sums that do not fit |
| LzFormat.ParseSerialize | src/esp_compressor/codec/codec.cpp:17-60 | parsing the layout of any block, lenient endings included, gives that block |
| LzFormat.SerializeParse | src/esp_compressor/codec/codec.cpp:180-220 | an input that parses is the layout of exactly the block it parses to |
| LzFormat.DecodedExactly | src/esp_compressor/codec/codec.cpp:180-231 | the reference decoder accepts an input if and only if it is the layout of a valid block of the expected length, and then gives its expansion |
| LzLayout.BlockIs | src/esp_compressor/codec/codec.cpp:17-60 | a back-reference is a token of two nibbles, the literals behind their length, the offset low byte first, and the match length less three; lengths from 15 on go on in bytes of 255 and one byte less; literals that end a block come behind a token whose lower nibble is free |
| LzLayout.CopyBackAt | src/esp_compressor/codec/codec.cpp:225-228 | each byte that a match adds is the one `offset` places before it |
| LzLayout.EndsAnywhere | src/esp_compressor/codec/codec.cpp:200-231 | a block may be empty, end in literals behind any lower nibble, or end in a match |
| LzDecoder.ReadExtendedLength | src/esp_compressor/codec/codec.cpp:75-90 | the extension bytes of a length, added with wrap-around, or CorruptData exactly when they run out |
| LzDecoder.CopyMatch | src/esp_compressor/codec/codec.cpp:225-228 | the in-place copy equals copying back byte by byte, overlapping copies included |
| LzFormat.ResumeToken | src/esp_compressor/codec/codec.cpp:182-229 | each exit of the loop body is exactly what the meaning of the remaining input demands |
| LzDecoder.DecodeLoop | src/esp_compressor/codec/codec.cpp:180-231 | on every input, expected size and word the loop terminates and ends as the wrapping decoder does, with its bytes |
| LzDecoder.Decompress | src/esp_compressor/codec/codec.cpp:169-232 | CorruptData only for what the reference decoder rejects; where the sizes fit the word, Ok with the decoded bytes exactly when there are any; NoMemory only when memory was refused |
| LzEncoder.AppendLength | src/esp_compressor/codec/codec.cpp:17-25 | writes the extension bytes of a length |
| LzEncoder.EmitSequence | src/esp_compressor/codec/codec.cpp:27-60 | writes exactly the layout of one sequence |
| LzEncoder.ComputeMatchLength | src/esp_compressor/codec/codec.cpp:62-73 | computes the common length of two positions |
| LzEncoder.CommonMaximal | src/esp_compressor/codec/codec.cpp:62-73 | the bytes within that length agree and the next ones differ or do not exist |
| LzEncoder.FindMatch | src/esp_compressor/codec/codec.cpp:115-131 | the table's answer is the latest position with the same hash, used only inside the window and 16 bits |
| LzEncoder.RememberMatch | src/esp_compressor/codec/codec.cpp:146-151 | after a match the table again answers every slot with the latest position |
| LzEncoder.TakeStep | src/esp_compressor/codec/codec.cpp:112-159 | one round of the loop writes exactly the next sequence of the greedy block, or nothing, and keeps the table answering with latest positions |
| LzEncoder.Compress | src/esp_compressor/codec/codec.cpp:94-167 | writes exactly the layout of the greedy block, for inputs of any size; it fails only when memory is refused or the size does not fit |
| LzTheorems.GreedyRoundTrip | src/esp_compressor/codec/codec.cpp:94-232 | whatever the hash table answers, decoding the emitted block gives the input back |
| LzTheorems.BlockRoundTrip | src/esp_compressor/codec/codec.cpp:94-232 | decompressing a compressed block gives the block back, for every input and window |
| LzTheorems.RememberedIsLatest | src/esp_compressor/codec/codec.cpp:109-121 | below 2^31 bytes the table holds, for each slot, the greatest earlier position with that hash, or -1 |
| LzTheorems.SlotIs | src/esp_compressor/codec/codec.cpp:11-15 | the slot of three bytes is the upper ten bits of their big-endian value times 2654435761, modulo 2^32 |
| LzTheorems.Int32Is | src/esp_compressor/codec/codec.cpp:114-120 | a position stored as `int32_t` is the same modulo 2^32 and within its range |
| LzTheorems.UsableMeans | src/esp_compressor/codec/codec.cpp:122-126 | a candidate is used if and only if it exists, is at most `window` and at most 65535 bytes back, and the three bytes agree |
| LzTheorems.CompressedIsChosen | src/esp_compressor/codec/codec.cpp:109-159 | the output is the layout of the one block that scanning backwards determines: most recent same-hash candidates, right-maximal matches of three bytes or more, offsets up to the smaller of window and 65535, and literals exactly where the latest candidate is too far back or one of three bytes differs |
| LzTheorems.SerializedSize | src/esp_compressor/codec/codec.cpp:17-60 | every block is laid out in at most 16/15 of its expansion plus one byte and at least a 255th of it |
| LzTheorems.CompressedSize | src/esp_compressor/codec/codec.cpp:94-167 | n bytes compress to at most n + n/15 + 1 |
| LzTheorems.DecodedSize | src/esp_compressor/codec/codec.cpp:180-231 | an accepted input expands to at most 255 times its size |
| LzTheorems.ConstantRun | src/esp_compressor/codec/codec.cpp:112-164 | at least four copies of one byte compress to one literal and one overlapping match: 5 bytes, plus (n-19)/255 + 1 from 19 on |
| LzWordSize.WordLengthIs | src/esp_compressor/codec/codec.cpp:75-90 | a length is read modulo the word, and is less than 255 for each of its bytes |
| LzWordSize.WordDecodeComplete | src/esp_compressor/codec/codec.cpp:180-231 | what the reference decoder accepts, the wrapping decoder accepts with the same bytes, for any word that holds the two sizes |
| LzWordSize.WordDecodeExact | src/esp_compressor/codec/codec.cpp:180-231 | where sizes fit the word, the decoder with wrapping sums equals the unbounded one on every input |
| LzWordSize.NoWrapAround | src/esp_compressor/codec/codec.cpp:75-90 | so it does on 32 bits up to 16 777 216 bytes of input for every expected size, and on 64 bits for all sizes a block header can hold |
| LzWordSize.LimitExact | src/esp_compressor/codec/codec.cpp:75-90 | on 32 bits the two decoders agree on all inputs of up to n bytes, for every expected size, if and only if n is at most 16 777 216 |
| LzWordSize.BlockExact | src/esp_compressor/codec/codec.cpp:180-231 | on 32 bits they agree on every block of up to 16 843 012 bytes that is stored in no more bytes than it holds |
| LzWordSize.BlockLimitExact | src/esp_compressor/codec/codec.cpp:180-231 | and on all such blocks of up to n bytes if and only if n is at most 16 843 012 |
| LzWordSize.WrapMisleads | src/esp_compressor/codec/codec.cpp:190-192 | a stored block, smaller than what it claims to hold, that the wrapping decoder accepts and the reference rejects |
| Crc32.ComputeCrc | src/esp_compressor/format/esc_format.cpp:35-48 | the bitwise loop computes the checksum function |
| CrcDivision.CrcIsRemainder | src/esp_compressor/format/esc_format.cpp:35-48 | for every string the checksum is the inverted, reflected remainder of long division by the generator with exponents 32, 26, 23, 22, 16, 12, 11, 10, 8, 7, 5, 4, 2, 1, 0 |
| Crc32.CrcByTable | src/esp_compressor/format/esc_format.cpp:35-48 | the bitwise checksum equals the table-driven one of section 8 of RFC 1952 on every input |
| Crc32.StepsLinear | src/esp_compressor/format/esc_format.cpp:39-45 | the register step is linear over exclusive or |
| Crc32.StepsInjective | src/esp_compressor/format/esc_format.cpp:39-45 | the register step loses no information |
| Crc32.BurstDetected | src/esp_compressor/format/esc_format.cpp:35-48 | strings of equal length that differ only inside four consecutive bytes have different checksums |
| Crc32.ResidueConstant | src/esp_compressor/format/esc_format.cpp:35-48 | going on over its own checksum leaves the same register for every string |
| Crc32.BurstDetectedWithTrailer | src/esp_compressor/format/esc_format.cpp:35-48 | a burst is detected as well where it reaches into the checksum behind the string |
| EscFormat.WriteLe32 | src/esp_compressor/format/esc_format.cpp:7-12 | writes the little-endian bytes and nothing else |
| EscFormat.WriteLe64 | src/esp_compressor/format/esc_format.cpp:14-18 | writes the little-endian bytes and nothing else |
| EscFormat.ReadLeBytes | src/esp_compressor/format/esc_format.cpp:7-31 | reading written numbers gives them back |
| EscFormat.LeBytesRead | src/esp_compressor/format/esc_format.cpp:7-31 | writing read numbers gives the bytes back |
| EscFormat.EncodeHeader | src/esp_compressor/format/esc_format.cpp:50-70 | fills the buffer with exactly the 24 header bytes, checksum included |
| EscFormat.DecodeHeader | src/esp_compressor/format/esc_format.cpp:72-97 | accepts exactly magic, length and checksum in order and gives the fields |
| EscFormat.HeaderRoundTrip | src/esp_compressor/format/esc_format.cpp:50-97 | decoding an encoded header gives it back, whatever follows |
| EscFormat.HeaderExact | src/esp_compressor/format/esc_format.cpp:72-97 | bytes that decode are the encoding of what they decode to |
| EscFormat.HeaderBurst | src/esp_compressor/format/esc_format.cpp:72-97 | a header changed inside any four consecutive of its 24 bytes, its checksum included, is rejected |
| EscFormat.EncodeBlockHeader | src/esp_compressor/format/esc_format.cpp:99-108 | fills the array with exactly the 13 bytes, or reports that it is too short |
| EscFormat.BlockHeaderRoundTrip | src/esp_compressor/format/esc_format.cpp:99-119 | decoding an encoded block header gives it back |
| EscFormat.BlockHeaderExact | src/esp_compressor/format/esc_format.cpp:110-119 | any 13 bytes are the encoding of what they decode to |
| Container.ReaderIsGrammar | src/esp_compressor/async/compressor.cpp:349-470 | the reader accepts exactly: a valid header, non-final records, one final record, each within bounds, decoding and matching its checksum, with the promised total |
| Layout.LanguageExact | src/esp_compressor/async/compressor.cpp:349-470 | the reader accepts an input if and only if it is, byte by byte, an intact header of version 1 and algorithm 1 with a block size, and blocks each of which holds at most that, is stored in no more bytes than it holds, decodes to what its checksum belongs to, and is not empty unless it is the last |
| Layout.HeaderFields | src/esp_compressor/format/esc_format.cpp:72-97 | magic "ESC1", length 24 and the checksum of the first twenty bytes make a header; its fields are at bytes 4, 5, 6, 8 to 15 and 16 to 19 |
| Layout.HeaderReported | src/esp_compressor/async/compressor.cpp:355-372 | a damaged header is CorruptData, then a version other than 1 is UnsupportedVersion, then an algorithm other than 1 UnsupportedAlgorithm, and all else is CorruptData |
| Layout.BlocksBounded | src/esp_compressor/async/compressor.cpp:106-109 | an accepted container has at most one block more than it holds bytes |
| Container.SameFront | src/esp_compressor/async/compressor.cpp:385-465 | nothing behind the final block has any influence |
| Container.Truncated | src/esp_compressor/async/compressor.cpp:385-465 | every proper prefix of what the reader would consume is CorruptData |
| Container.HeaderBurstDetected | src/esp_compressor/async/compressor.cpp:355-358 | a header changed inside any four consecutive bytes makes the container corrupt |
| Container.ContainerSame | src/esp_compressor/async/compressor.cpp:385-450 | the wrapping reader is the reference reader unless the data leads to a block without content that it does not reject |
| Container.NeverAstray | src/esp_compressor/async/compressor.cpp:385-450 | nothing does on a 64-bit target, nor on a 32-bit target in block sizes of up to 16 843 012 bytes |
| Container.ReaderLimitExact | src/esp_compressor/async/compressor.cpp:385-450 | on a 32-bit target the two readers agree on all containers of block sizes up to n if and only if n is at most 16 843 012 |
| Container.Misread | src/esp_compressor/async/compressor.cpp:421-450 | a container that the wrapping reader accepts, checksum included, and the reference reader rejects |
| Container.UndefinedFrom | src/esp_compressor/async/compressor.cpp:421-450 | for every block size from 16 843 013 on a container on which the program is undefined and the reference reader rejects |
| Container.StraysRejected | src/esp_compressor/async/compressor.cpp:385-450 | whatever leads a reader astray is corrupt for the reference reader |
| Container.BadRecord | src/esp_compressor/async/compressor.cpp:425-450 | a framed record with bad content makes the container corrupt, whatever surrounds it |
| Container.RawBurstDetected | src/esp_compressor/async/compressor.cpp:425-433 | a raw payload changed inside four consecutive bytes makes the container corrupt |
| Written.ChunkRecordGood | src/esp_compressor/async/compressor.cpp:248-270 | the record written for a chunk is well formed, holds exactly the chunk, and is never longer than it |
| Written.ContainerRoundTrip | src/esp_compressor/async/compressor.cpp:169-486 | for every split into chunks, block size, window and trailing bytes, reading what was written gives the data back if and only if the claimed size was true |
| Written.WrittenTruncated | src/esp_compressor/async/compressor.cpp:293-306 | every proper prefix of a written container is CorruptData |
| Written.WrittenNeverAstray | src/esp_compressor/async/compressor.cpp:169-486 | no word leads a reader astray in a written container, cut short or with anything behind it |
| Written.ContainerSize | src/esp_compressor/async/compressor.cpp:226-306 | from a source that fills its reads: one block per started block size, at least one, and at most 24 + n + 13 bytes a block |
| Layout.ChunkStored | src/esp_compressor/async/compressor.cpp:258-270 | a chunk is stored as its compressed form exactly when that is shorter, else as it is, with the flags of that |
| Layout.WrittenLaidOut | src/esp_compressor/async/compressor.cpp:204-306 | what is written, byte by byte: the header with size and flags, a block for each chunk stored the shorter way, and an empty raw final block when no chunk was flagged |
| Layout.RunStored | src/esp_compressor/async/compressor.cpp:248-270 | six or more equal bytes in one block are stored in 24 + 13 + 5 bytes, and (n-19)/255 + 1 more from 19 on |
| Streams.BufferSource.Read | src/esp_compressor/io/compression_io.cpp:18-36 | keeps the source contract, fills every read it can and knows its end at once |
| Streams.StreamSource.Read | src/esp_compressor/io/compression_io.cpp:55-74 | keeps the source contract, noticing the end only by an empty read |
| Streams.DynamicBufferSink.Write | src/esp_compressor/io/compression_io.cpp:135-140 | stages exactly the bytes; the destination does not change |
| Streams.DynamicBufferSink.Commit | src/esp_compressor/io/compression_io.cpp:142-154 | the destination becomes the staged bytes, which are then released, or does not change |
| Streams.FixedBufferSink.Write | src/esp_compressor/io/compression_io.cpp:178-186 | stages exactly the bytes or nothing, and nothing beyond the capacity: what does not fit overflows, or is refused where the sum wraps; the buffer does not change |
| Streams.FixedBufferSink.Commit | src/esp_compressor/io/compression_io.cpp:188-200 | the front of the buffer becomes the staged bytes and the rest stays, or nothing changes |
| Session.ReadExact | src/esp_compressor/async/compressor.cpp:147-167 | delivers exactly the next bytes however reads are split; without a fault it fails only when too few are left |
| Session.CommitUnlessCancelled | src/esp_compressor/async/compressor.cpp:308-316 | a cancel seen by the last check prevents the commit; the destination changes only in a commit that succeeds |
| Session.EndSession | src/esp_compressor/async/compressor.cpp:27-37 | abort unless committed, then close, and the destination is left alone |
| Session.WholeSessionMeans | src/esp_compressor/async/compressor.cpp:21-38 | the sink of a session sees an open first and a close last, before it a commit that succeeded or an abort, and before that only successful writes, apart from one call that failed |
| Decompressing.TakeFrame | src/esp_compressor/async/compressor.cpp:391-420 | the next header and payload within bounds, or the failure of the target's reader |
| Decompressing.TakeRecord | src/esp_compressor/async/compressor.cpp:391-450 | one iteration delivers the next record of the target's reader, or fails as that reader does |
| Decompressing.TakeRecords | src/esp_compressor/async/compressor.cpp:385-465 | what has been delivered, followed by what the target's reader makes of the rest, is what it makes of the whole |
| Decompressing.RunDecompress | src/esp_compressor/async/compressor.cpp:324-486 | for every schedule of reads and every target: Ok exactly when the target's reader accepts the input, with its bytes published and counted and nothing read behind it; otherwise the reader's error, or the error of the call that failed, and, for a transactional sink, an untouched destination; never Ok when a cancel was raised; the cancel flag is looked at once a block and once before the commit; the sink sees open, one write a block, commit or abort, close |
| Compressing.TakeChunk | src/esp_compressor/async/compressor.cpp:231-284 | one read becomes the record of exactly the bytes it delivered, flagged final exactly when the end is known; nothing is written at the end |
| Compressing.WriteChunk | src/esp_compressor/async/compressor.cpp:248-284 | writes exactly the record of the chunk |
| Compressing.OneMoreChunk | src/esp_compressor/async/compressor.cpp:231-246 | a read extends the split of the data, and the full split when it was full |
| Compressing.TakeRound | src/esp_compressor/async/compressor.cpp:227-284 | one round: the cancel flag, then one read and its record; a cancel already raised ends it |
| Compressing.WriteChunks | src/esp_compressor/async/compressor.cpp:226-291 | the loop writes one record per read, covers all data, and flags the last one exactly when the end was known |
| Compressing.WriteRecords | src/esp_compressor/async/compressor.cpp:226-306 | what is staged is the records of all data, closed by an empty final one exactly when no chunk was flagged |
| Compressing.RunCompress | src/esp_compressor/async/compressor.cpp:169-322 | for every schedule of reads: Ok leaves a written container of exactly the source's data, laid out as `Layout.LaidOut` spells out, which reading turns back; anything else leaves a transactional destination untouched; never Ok when a cancel was raised; the cancel flag is looked at before every read and before the commit; without outside trouble and with valid arguments it is Ok; otherwise the error is that of the call that failed, ReadFailed for a read that stalled |
| Pipeline.CompressThenDecompress | src/esp_compressor/async/compressor.cpp:169-486 | compressing and then decompressing, with anything behind the container, publishes the original bytes; both runs succeed when nothing goes wrong outside and the claimed size is true; from a buffer the container stays within its size bound |
| Pipeline.CompressRun | src/esp_compressor/async/compressor.cpp:169-322 | a run over a buffer of six or more equal bytes that fit one block publishes 42 bytes, and (n-19)/255 + 1 more from 19 on |
| Pipeline.DecompressTruncated | src/esp_compressor/async/compressor.cpp:385-465 | a run over a written container that was cut short anywhere ends in CorruptData and publishes nothing, however the reads are split |
| Pipeline.DecompressDamaged | src/esp_compressor/async/compressor.cpp:425-433 | so does a run over a container whose raw payload was changed inside four consecutive bytes |
| FileSinks.FileSink.Open | src/esp_compressor/io/compression_io.cpp:264-283 | starts an empty temporary file; the destination and all other files stay; it fails only for an empty path, an existing file that must not be replaced, or a failed file operation |
| FileSinks.FileSink.Write | src/esp_compressor/io/compression_io.cpp:285-298 | the temporary file holds exactly the successful writes, unless one stopped half way |
| FileSinks.FileSink.Commit | src/esp_compressor/io/compression_io.cpp:300-321 | Ok publishes the temporary contents; failure, which takes a failed rename, restores the path unless the roll-back rename failed too, which is exactly when two renames fail; in every intermediate state the old contents are at the path or the backup or replaced |
| FileSinks.FileSink.Abort | src/esp_compressor/io/compression_io.cpp:323-329 | removes the temporary names, as far as removing succeeds, and nothing else |
| FileSinks.RunSession | src/esp_compressor/async/compressor.cpp:21-38 | over a whole session with any failures: Ok means exactly the written bytes at the path, failure means the path as before except exactly when two renames failed; no other file is touched, no temporary one stays unless a removal failed, and only a failed operation makes it fail |
| FileSinks.LoseFile | src/esp_compressor/io/compression_io.cpp:312-328 | a session in which two renames fail and the file is gone, old contents and new |
| JobTheorems.ReachableKeeps | src/esp_compressor/async/compressor.cpp:585-882 | the invariant of instance, jobs and deinit calls holds in every reachable state |
| JobTheorems.ExclusiveRuns | src/esp_compressor/async/compressor.cpp:647-668 | at most one run owns the instance, `_busy` says whether one does, and `_activeJob` is that run exactly when it is asynchronous |
| JobTheorems.ConfigStable | src/esp_compressor/async/compressor.cpp:591-596 | the configuration changes only in an init while no run owns the instance |
| JobHistory.ConfigIsLatest | src/esp_compressor/async/compressor.cpp:585-602 | over every run, the configuration is that of the latest valid init that met an instance owned by nobody, and the instance is initialized if no deinit has begun since |
| JobTheorems.ApplyMoves | src/esp_compressor/async/compressor.cpp:736-763 | a step moves job states only from Running to a terminal one, and new jobs are Running or Rejected |
| JobHistory.SubmissionAnswered | src/esp_compressor/async/compressor.cpp:736-763 | a submission is accepted and owns the instance exactly when it is initialized, the endpoints are there and nobody owns it; otherwise it is refused with NotInitialized, InvalidArgument or Busy, the first that applies |
| JobHistory.SynchronousAnswered | src/esp_compressor/async/compressor.cpp:647-655 | a synchronous call starts exactly on an initialized instance that nobody owns, and then owns it |
| JobHistory.SetupMayFail | src/esp_compressor/async/compressor.cpp:765-818 | an accepted job gets a worker, or is rejected with NoMemory or InternalError; nothing else comes between |
| JobHistory.CancelReaches | src/esp_compressor/async/compressor.cpp:555-561 | a cancel is possible exactly with the handle, and sets the request and nothing else |
| JobHistory.ResultIsVerdict | src/esp_compressor/async/compressor.cpp:790-859 | over every run, a job that is done holds the result of its run, the error of its failed set-up or the reason of its refusal, and its state tells which |
| JobTheorems.DoneIsFinal | src/esp_compressor/async/compressor.cpp:546-575 | over any further run a terminal state stays, and with the handle out the result is final and agrees with the state |
| JobTheorems.CompletesOnce | src/esp_compressor/async/compressor.cpp:861-882 | onComplete is called at most once per job, with its stored result, and always before the job's path ends |
| JobTheorems.DeinitStopsOwner | src/esp_compressor/async/compressor.cpp:600-620 | deinit takes as its target the job that owns the instance, asks it to stop, and does not return before it is terminal |
| JobTheorems.DeinitQuiesces | src/esp_compressor/async/compressor.cpp:600-634 | when deinit returns no run is in flight and every job is terminal; without an init since it began, that stays so until the next init |
| JobProgress.NeverStuck | src/esp_compressor/async/compressor.cpp:790-841 | an unfinished job can always take its next step towards its end |
| JobProgress.JobCanFinish | src/esp_compressor/async/compressor.cpp:790-882 | from every reachable state every job can reach its end, with its callback made |
| JobProgress.DeinitCanReturn | src/esp_compressor/async/compressor.cpp:600-634 | from every reachable state every deinit call can still return |
| JobProgress.CallbacksAtReturn | src/esp_compressor/async/compressor.cpp:600-634 | when deinit returns, a callback has been made or is the only thing its job has left to do; that of a rejected job whose caller has the handle has been made |
| JobProgress.DeinitPrecedesCallback | src/esp_compressor/async/compressor.cpp:861-882 | a run in which deinit returns before a job's callback exists if and only if the callback has not been made |
| JobRecords.NumbersDistinct | src/esp_compressor/async/compressor.cpp:736-738 | jobs are numbered from 1 on modulo 2^32, and two share an identifier exactly when a multiple of 2^32 submissions lies between them |
| JobRecords.LastResultWritten | src/esp_compressor/async/compressor.cpp:861-882 | the last result is written by exactly three steps, each time with the stored result of the run it ends |
| JobRecords.LastResultEnded | src/esp_compressor/async/compressor.cpp:666-668 | the last result is never that of a run in flight |
| JobRecords.LastResultMayBeStale | src/esp_compressor/async/compressor.cpp:666-668 | an interleaving of two synchronous calls after which the last result is the earlier one's |
| JobResults.OrderlyReportsLatest | src/esp_compressor/async/compressor.cpp:666-668 | over every run in which no run ends while a synchronous call is between freeing the instance and storing, the last result is the latest run's |
| JobResults.ReportsLatestExactly | src/esp_compressor/async/compressor.cpp:666-668 | over every run, the last result is the latest run's if and only if the result written last was not overtaken by a run that ended with a different one |
| JobResults.OrderDecides | src/esp_compressor/async/compressor.cpp:666-668 | by order alone: whatever the results of synchronous calls, the last result is the latest run's if and only if the run that wrote last is the run that ended last |
| JobRecords.DeinitMayPrecedeCallback | src/esp_compressor/async/compressor.cpp:861-882 | one such interleaving, step by step |

## Left out

- Progress events and their floating-point percentage: they change no state of a run.
- Null data pointers and the checks for them; a byte sequence is never null. Null configuration, source and sink are modelled.
- 64-bit counters are unbounded integers.
- LzEncoder.Compress: does not model the wrap-around of `index + 3`, which needs an input within two bytes of the largest `size_t`, that is a block size of 2^32 - 3 or more on a 32-bit target.
- Compressing.RunCompress: of a run that does not end in Ok it gives the input count, not the block and output counts; `Decompressing.RunDecompress` gives only the bounds `Counted`.
- `FileSource`, `PrintSink`: `Streams.Source` and `Streams.Sink` cover what runs rely on; bytes already handed on by a sink that is not transactional are not modelled.
- `Streams.Source` and `Streams.Sink` stand for the abstract interfaces. The concrete sources and the dynamic buffer sink are proved to keep the same read, write and commit relations; the fixed buffer sink is proved against its own contract, since a commit replaces only the front of its buffer. They are not passed to the runs themselves.
- Decompressing.RunDecompress: says of data on which the target's reader is `Undefined` only that the model stops with `InternalError`; the program promises nothing there.
- `Streams.Sink` never loses its destination when a commit fails, so the two run theorems do not speak of `FileSink` in the double failure; what holds there is `FileSinks.RunSession`.
- The file sink's session is driven by `FileSinks.RunSession`, which has the shape that `WholeSession` prescribes, not by the runs themselves; directories are an operation that may fail.
- The field by field checks of a configuration in `init` are the flag `valid` of its event; those that a run repeats are `Compressing.ValidConfig`.
- Threads, tasks, sleeping and memory ordering: mutex sections and atomic accesses are sequentially consistent steps.
- That deinit eventually returns: this needs a fair scheduler; `DeinitCanReturn` says that it always can. It takes each deinit for a thread of its own; one called from a progress callback, on the thread of the job it waits for, waits for itself.
- Corruption inside an LZ-coded payload: a changed payload can decode differently, so no width is detected for certain.
- Reading 32-bit and 64-bit numbers by shifts is written as sums of multiples of 256.
- `fs_utils.cpp`, error names, getters, default values, move operations and the test hook that simulates a setup failure: nothing deep to say about them.
