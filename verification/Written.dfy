/** What the compressing side writes, and that the reading side turns it back. */
module Written {
  import opened Types
  import opened LzFormat
  import opened LzEncoder
  import opened LzTheorems
  import opened Crc32
  import opened EscFormat
  import opened Container

  // The header: an unknown size is flagged and filled with ones.
  function WrittenHeader(blockSize: uint32, known: Option<uint64>): Header {
    match known
    case None => Header(FORMAT_VERSION, UNKNOWN_SIZE_FLAG, ALGORITHM_LZ_LITE, UNKNOWN_ORIGINAL_SIZE, blockSize)
    case Some(size) => Header(FORMAT_VERSION, 0, ALGORITHM_LZ_LITE, size, blockSize)
  }

  // One chunk of input as a record: stored raw unless compression makes it smaller.
  ghost function ChunkRecord(chunk: seq<byte>, window: nat, final: bool): Record
    requires |chunk| < 0x1_0000_0000
  {
    var encoded := Compressed(chunk, window);
    var raw := |encoded| >= |chunk|;
    var payload := if raw then chunk else encoded;
    Record(BlockHeader((if raw then RAW_FLAG else 0) + (if final then FINAL_FLAG else 0),
                       |chunk|, |payload|, Crc(chunk)),
           payload)
  }

  // The empty raw record that ends a container whose last chunk could not be flagged as final.
  function TrailingRecord(): Record {
    Record(BlockHeader(RAW_FLAG + FINAL_FLAG, 0, 0, 0), [])
  }

  // The chunks that reads delivered: none empty, none above the block size.
  ghost predicate Chunks(chunks: seq<seq<byte>>, blockSize: uint32) {
    forall i | 0 <= i < |chunks| :: 0 < |chunks[i]| <= blockSize
  }

  function Flatten(chunks: seq<seq<byte>>): seq<byte> {
    if chunks == [] then [] else Flatten(chunks[..|chunks| - 1]) + chunks[|chunks| - 1]
  }

  ghost function PlainRecords(chunks: seq<seq<byte>>, blockSize: uint32, window: nat): (records: seq<Record>)
    requires Chunks(chunks, blockSize)
    ensures |records| == |chunks|
  {
    if chunks == [] then []
    else
      var n := |chunks| - 1;
      PlainRecords(chunks[..n], blockSize, window) + [ChunkRecord(chunks[n], window, false)]
  }

  // `flagged` says that the end of the input was known when the last chunk was written.
  ghost function WrittenRecords(chunks: seq<seq<byte>>, flagged: bool, blockSize: uint32, window: nat): seq<Record>
    requires Chunks(chunks, blockSize) && (flagged ==> chunks != [])
  {
    if flagged then
      var n := |chunks| - 1;
      PlainRecords(chunks[..n], blockSize, window) + [ChunkRecord(chunks[n], window, true)]
    else PlainRecords(chunks, blockSize, window) + [TrailingRecord()]
  }

  ghost function WrittenContainer(chunks: seq<seq<byte>>, flagged: bool, blockSize: uint32, window: nat,
                                  known: Option<uint64>): seq<byte>
    requires Chunks(chunks, blockSize) && (flagged ==> chunks != [])
  {
    HeaderBytes(WrittenHeader(blockSize, known)) +
    RecordsBytes(WrittenRecords(chunks, flagged, blockSize, window))
  }

  /* ---- round trip ---- */

  lemma ChunkRecordGood(chunk: seq<byte>, window: nat, final: bool, h: Header)
    requires 0 < |chunk| <= h.blockSize
    ensures var r := ChunkRecord(chunk, window, final);
            && WellFormed(h, r) && Content(r.header, r.payload) == Some(chunk)
            && r.header.Final() == final && |r.payload| <= |chunk|
  {
    hide Compressed, Decoded, Crc;
    BlockRoundTrip(chunk, window);
    assert 3 / 2 % 2 == 1 && 2 / 2 % 2 == 1;
  }

  lemma TrailingRecordGood(h: Header)
    ensures var r := TrailingRecord();
            WellFormed(h, r) && Content(r.header, r.payload) == Some([]) && r.header.Final()
  {
    assert Crc([]) == 0 by {
      assert Update(ALL_ONES, []) == ALL_ONES;
    }
  }

  lemma {:induction false} ContentsConcat(h: Header, a: seq<Record>, b: seq<Record>)
    requires forall i | 0 <= i < |a| :: WellFormed(h, a[i])
    requires forall i | 0 <= i < |b| :: WellFormed(h, b[i])
    ensures forall i | 0 <= i < |a + b| :: WellFormed(h, (a + b)[i])
    ensures Contents(h, a + b) == Contents(h, a) + Contents(h, b)
  {
    hide WellFormed, Content;
    if a == [] {
      assert a + b == b;
    } else {
      assert (a + b)[1..] == a[1..] + b;
      ContentsConcat(h, a[1..], b);
    }
  }

  lemma ContentsOne(h: Header, r: Record)
    requires WellFormed(h, r)
    ensures Contents(h, [r]) == Content(r.header, r.payload).value
  {
    assert [r][1..] == [];
  }

  lemma {:induction false} PlainRecordsGood(chunks: seq<seq<byte>>, window: nat, h: Header)
    requires Chunks(chunks, h.blockSize)
    ensures var records := PlainRecords(chunks, h.blockSize, window);
            && (forall i | 0 <= i < |records| :: WellFormed(h, records[i]) && !records[i].header.Final())
            && Contents(h, records) == Flatten(chunks)
            && |RecordsBytes(records)| <= |Flatten(chunks)| + BLOCK_HEADER_SIZE * |chunks|
  {
    hide WellFormed, Content, ChunkRecord, RecordBytes;
    if chunks != [] {
      var n := |chunks| - 1;
      PlainRecordsGood(chunks[..n], window, h);
      AppendGood(PlainRecords(chunks[..n], h.blockSize, window), chunks[n], window, false, h);
    }
  }

  lemma AppendGood(records: seq<Record>, chunk: seq<byte>, window: nat, final: bool, h: Header)
    requires forall i | 0 <= i < |records| :: WellFormed(h, records[i])
    requires 0 < |chunk| <= h.blockSize
    ensures var r := ChunkRecord(chunk, window, final);
            && WellFormed(h, r) && r.header.Final() == final
            && (forall i | 0 <= i < |records + [r]| :: WellFormed(h, (records + [r])[i]))
            && Contents(h, records + [r]) == Contents(h, records) + chunk
            && |RecordsBytes(records + [r])| <= |RecordsBytes(records)| + BLOCK_HEADER_SIZE + |chunk|
  {
    hide WellFormed, Content, ChunkRecord, Contents, RecordBytes;
    var r := ChunkRecord(chunk, window, final);
    ChunkRecordGood(chunk, window, final, h);
    ContentsConcat(h, records, [r]);
    ContentsOne(h, r);
    RecordsConcat(records, [r]);
    RecordsOne(r);
    RecordSize(r);
  }

  lemma RecordsOne(r: Record)
    ensures RecordsBytes([r]) == RecordBytes(r)
  {
    assert [r][1..] == [];
    assert RecordsBytes([]) == [];
  }

  lemma WrittenRecordsGood(chunks: seq<seq<byte>>, flagged: bool, window: nat, h: Header)
    requires Chunks(chunks, h.blockSize) && (flagged ==> chunks != [])
    ensures var records := WrittenRecords(chunks, flagged, h.blockSize, window);
            && ValidRecords(h, records) && Contents(h, records) == Flatten(chunks)
            && |records| == |chunks| + (if flagged then 0 else 1)
            && |RecordsBytes(records)| <= |Flatten(chunks)| + BLOCK_HEADER_SIZE * |records|
  {
    hide WellFormed, Content, ChunkRecord, Contents, RecordBytes, TrailingRecord;
    if flagged {
      var n := |chunks| - 1;
      PlainRecordsGood(chunks[..n], window, h);
      AppendGood(PlainRecords(chunks[..n], h.blockSize, window), chunks[n], window, true, h);
    } else {
      var plain, last := PlainRecords(chunks, h.blockSize, window), TrailingRecord();
      PlainRecordsGood(chunks, window, h);
      TrailingRecordGood(h);
      ContentsConcat(h, plain, [last]);
      ContentsOne(h, last);
      RecordsConcat(plain, [last]);
      RecordsOne(last);
      TrailingSize();
    }
  }

  lemma TrailingSize()
    ensures |RecordBytes(TrailingRecord())| == BLOCK_HEADER_SIZE
  {
  }

  // Reading a written container, with anything behind it, gives the chunks back, unless the
  // source claimed a size that it did not deliver.
  lemma ContainerRoundTrip(chunks: seq<seq<byte>>, flagged: bool, blockSize: uint32, window: nat,
                           known: Option<uint64>, rest: seq<byte>)
    requires 0 < blockSize && Chunks(chunks, blockSize) && (flagged ==> chunks != [])
    ensures var written := WrittenContainer(chunks, flagged, blockSize, window, known);
            ReadContainer(written + rest) ==
            if known == None || known.value == |Flatten(chunks)|
            then Accept(Flatten(chunks), |written|, |chunks| + (if flagged then 0 else 1))
            else Reject(CorruptData)
  {
    hide Contents, RecordsBytes, HeaderBytes, DecodedHeader, ValidRecords, ReadBlocks, WrittenRecords;
    var h := WrittenHeader(blockSize, known);
    var records := WrittenRecords(chunks, flagged, blockSize, window);
    WrittenRecordsGood(chunks, flagged, window, h);
    var input := WrittenContainer(chunks, flagged, blockSize, window, known) + rest;
    assert input == HeaderBytes(h) + (RecordsBytes(records) + rest);
    HeaderRoundTrip(h, RecordsBytes(records) + rest);
    assert input[HEADER_SIZE..] == RecordsBytes(records) + rest;
    ReadRecords(h, records, rest);
    assert [] + Flatten(chunks) == Flatten(chunks);
  }

  // Cutting a written container short anywhere makes it corrupt.
  lemma WrittenTruncated(chunks: seq<seq<byte>>, flagged: bool, blockSize: uint32, window: nat,
                         known: Option<uint64>, n: nat)
    requires 0 < blockSize && Chunks(chunks, blockSize) && (flagged ==> chunks != [])
    requires n < |WrittenContainer(chunks, flagged, blockSize, window, known)|
    ensures ReadContainer(WrittenContainer(chunks, flagged, blockSize, window, known)[..n]) == Reject(CorruptData)
  {
    hide Contents, RecordsBytes, HeaderBytes, DecodedHeader, ValidRecords, ReadBlocks, WrittenRecords;
    var h := WrittenHeader(blockSize, known);
    var records := WrittenRecords(chunks, flagged, blockSize, window);
    var written := WrittenContainer(chunks, flagged, blockSize, window, known);
    WrittenRecordsGood(chunks, flagged, window, h);
    HeaderRoundTrip(h, RecordsBytes(records));
    assert written[HEADER_SIZE..] == RecordsBytes(records) == RecordsBytes(records) + [];
    ReadRecords(h, records, []);
    Truncated(written, h, n);
  }

  // Whatever the word, a written container leads no reader astray, cut short or not.
  lemma WrittenNeverAstray(chunks: seq<seq<byte>>, flagged: bool, blockSize: uint32, window: nat,
                           known: Option<uint64>, rest: seq<byte>, n: nat, word: nat)
    requires 0 < blockSize && Chunks(chunks, blockSize) && (flagged ==> chunks != []) && word > 0
    requires n <= |WrittenContainer(chunks, flagged, blockSize, window, known) + rest|
    ensures !Astray((WrittenContainer(chunks, flagged, blockSize, window, known) + rest)[..n], word)
  {
    hide Contents, RecordsBytes, HeaderBytes, DecodedHeader, ValidRecords, ReadBlocks, WrittenRecords, Strays;
    var h := WrittenHeader(blockSize, known);
    var records := WrittenRecords(chunks, flagged, blockSize, window);
    var input := WrittenContainer(chunks, flagged, blockSize, window, known) + rest;
    WrittenRecordsGood(chunks, flagged, window, h);
    assert input == HeaderBytes(h) + (RecordsBytes(records) + rest);
    HeaderRoundTrip(h, RecordsBytes(records) + rest);
    var body := input[HEADER_SIZE..];
    assert body == RecordsBytes(records) + rest;
    ReadRecords(h, records, rest);
    HeaderTooShort(input[..n]);
    if n >= HEADER_SIZE && Strays(h, body[..n - HEADER_SIZE], word) {
      StraysExtends(h, body, n - HEADER_SIZE, word);
      StraysRejected(h, body, word);
    }
    if n >= HEADER_SIZE {
      SameHeader(input, n);
      assert input[..n][HEADER_SIZE..] == body[..n - HEADER_SIZE];
    }
  }

  /* ---- sizes ---- */

  // How a source that fills every read splits its data.
  function FullChunks(data: seq<byte>, blockSize: nat): (chunks: seq<seq<byte>>)
    requires blockSize > 0
    decreases |data|
  {
    if data == [] then []
    else if |data| <= blockSize then [data]
    else [data[..blockSize]] + FullChunks(data[blockSize..], blockSize)
  }

  lemma {:induction false} FlattenFront(chunk: seq<byte>, chunks: seq<seq<byte>>)
    ensures Flatten([chunk] + chunks) == chunk + Flatten(chunks)
  {
    if chunks == [] {
      assert ([chunk] + chunks)[..0] == [];
    } else {
      var n := |chunks| - 1;
      assert ([chunk] + chunks)[..n + 1] == [chunk] + chunks[..n];
      FlattenFront(chunk, chunks[..n]);
    }
  }

  // As many chunks as the block size goes into the data, rounded up.
  ghost predicate RoundedUp(count: nat, size: nat, blockSize: nat) {
    size <= count * blockSize < size + blockSize
  }

  lemma {:induction false} FullChunksGood(data: seq<byte>, blockSize: uint32)
    requires blockSize > 0
    ensures var chunks := FullChunks(data, blockSize);
            Chunks(chunks, blockSize) && Flatten(chunks) == data && RoundedUp(|chunks|, |data|, blockSize)
    decreases |data|
  {
    if data != [] && |data| <= blockSize {
      FlattenFront(data, []);
      assert [data] + [] == [data];
    } else if data != [] {
      var first, others := data[..blockSize], FullChunks(data[blockSize..], blockSize);
      FullChunksGood(data[blockSize..], blockSize);
      FlattenFront(first, others);
      OneMore(|others|, blockSize);
    }
  }

  lemma OneMore(n: nat, b: nat)
    ensures (n + 1) * b == n * b + b
  {
  }

  // A source that fills every read and knows its end gives one block for every started
  // `blockSize` bytes, at least one, and never expands by more than the headers.
  lemma ContainerSize(data: seq<byte>, blockSize: uint32, window: nat, known: Option<uint64>)
    requires blockSize > 0
    ensures var chunks := FullChunks(data, blockSize);
            && Chunks(chunks, blockSize) && (data != [] ==> chunks != [])
            && var blocks := |WrittenRecords(chunks, data != [], blockSize, window)|;
               && (if data == [] then blocks == 1 else RoundedUp(blocks, |data|, blockSize))
               && |WrittenContainer(chunks, data != [], blockSize, window, known)| <=
                  HEADER_SIZE + |data| + BLOCK_HEADER_SIZE * blocks
  {
    hide RecordsBytes, HeaderBytes, ValidRecords, WrittenRecords;
    FullChunksGood(data, blockSize);
    WrittenRecordsGood(FullChunks(data, blockSize), data != [], window, WrittenHeader(blockSize, known));
  }
}
