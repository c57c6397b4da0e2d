/** The container byte by byte, in plain numbers: which inputs are containers, and what is written. */
module Layout {
  import opened Types
  import opened LzFormat
  import opened LzEncoder
  import opened LzTheorems
  import opened Crc32
  import opened EscFormat
  import opened Container
  import opened Written

  /* ---- numbers ---- */

  ghost function Le4(input: seq<byte>, at: nat): nat
    requires at + 4 <= |input|
  {
    input[at] as int + 256 * input[at + 1] as int + 65536 * input[at + 2] as int + 16777216 * input[at + 3] as int
  }

  ghost function Le8(input: seq<byte>, at: nat): nat
    requires at + 8 <= |input|
  {
    Le4(input, at) + 4294967296 * Le4(input, at + 4)
  }

  lemma ReadOne(s: seq<byte>)
    requires s != []
    ensures ReadLe(s) == s[0] as int + 256 * ReadLe(s[1..])
  {
  }

  lemma FourRead(s: seq<byte>)
    requires |s| >= 4
    ensures ReadLe(s) == s[0] as int + 256 * s[1] as int + 65536 * s[2] as int + 16777216 * s[3] as int
                         + 4294967296 * ReadLe(s[4..])
  {
    hide ReadLe;
    ReadOne(s);
    ReadOne(s[1..]);
    ReadOne(s[2..]);
    ReadOne(s[3..]);
    assert s[1..][1..] == s[2..] && s[2..][1..] == s[3..] && s[3..][1..] == s[4..];
  }

  lemma Le4Is(input: seq<byte>, at: nat)
    requires at + 4 <= |input|
    ensures ReadLe32(input[at..at + 4]) == Le4(input, at)
  {
    FourRead(input[at..at + 4]);
    assert ReadLe(input[at..at + 4][4..]) == 0;
  }

  lemma Le8Is(input: seq<byte>, at: nat)
    requires at + 8 <= |input|
    ensures ReadLe64(input[at..at + 8]) == Le8(input, at)
  {
    hide ReadLe;
    var s := input[at..at + 8];
    FourRead(s);
    assert s[4..] == input[at + 4..at + 8];
    Le4Is(input, at + 4);
  }

  /* ---- the header ---- */

  // "ESC1", version, flags, algorithm, length, size, block size, checksum of the twenty bytes before.
  ghost predicate IntactHeader(input: seq<byte>) {
    && |input| >= 24
    && input[0] == 69 && input[1] == 83 && input[2] == 67 && input[3] == 49 && input[7] == 24
    && Le4(input, 20) == Crc(input[..20])
  }

  lemma HeaderFields(input: seq<byte>)
    ensures IntactHeader(input) <==> DecodedHeader(input).Some?
    ensures IntactHeader(input) ==>
              && DecodedHeader(input) == Some(Header(input[4], input[5], input[6], Le8(input, 8), Le4(input, 16)))
  {
    hide Crc, ReadLe, Le4, Le8;
    if |input| >= 24 {
      Le4Is(input, 20);
      Le8Is(input, 8);
      Le4Is(input, 16);
      assert input[..4] == [input[0], input[1], input[2], input[3]];
    }
  }

  // What is reported of a header: damage first, then version, algorithm and block size, in this order.
  lemma HeaderReported(input: seq<byte>)
    ensures !IntactHeader(input) ==> ReadContainer(input) == Reject(CorruptData)
    ensures IntactHeader(input) ==>
              && (input[4] != 1 ==> ReadContainer(input) == Reject(UnsupportedVersion))
              && (input[4] == 1 && input[6] != 1 ==> ReadContainer(input) == Reject(UnsupportedAlgorithm))
              && (input[4] == 1 && input[6] == 1 && Le4(input, 16) == 0 ==> ReadContainer(input) == Reject(CorruptData))
              && (input[4] == 1 && input[6] == 1 && Le4(input, 16) > 0 ==>
                    ReadContainer(input).Accept? || ReadContainer(input) == Reject(CorruptData))
  {
    hide DecodedHeader, Le4, Le8, ReadBlocks;
    HeaderFields(input);
    if IntactHeader(input) {
      BlocksReject(DecodedHeader(input).value, input[24..]);
    }
  }

  lemma {:induction false} BlocksReject(h: Header, input: seq<byte>)
    ensures ReadBlocks(h, input).Accept? || ReadBlocks(h, input) == Reject(CorruptData)
    decreases |input|
  {
    hide Content, Bounded, DecodedBlockHeader;
    if |input| >= 13 {
      var size: nat := 13 + DecodedBlockHeader(input).storedSize;
      if |input| >= size {
        BlocksReject(h, input[size..]);
      }
    }
  }

  /* ---- blocks ---- */

  datatype Part = Part(flags: byte, stored: seq<byte>, content: seq<byte>)

  // One block at a place of the input: thirteen bytes, then what is stored. Bit 0 of the flags says
  // that it is stored as it is, bit 1 that it is the last; only the last may be empty.
  ghost predicate PartAt(input: seq<byte>, at: nat, part: Part, blockSize: nat, last: bool) {
    && at + 13 + |part.stored| <= |input|
    && input[at] == part.flags
    && Le4(input, at + 1) == |part.content| && Le4(input, at + 5) == |part.stored|
    && Le4(input, at + 9) == Crc(part.content)
    && input[at + 13..at + 13 + |part.stored|] == part.stored
    && |part.content| <= blockSize && |part.stored| <= |part.content|
    && (if part.flags % 2 == 1 then part.stored == part.content
        else Decoded(part.stored, |part.content|) == Some(part.content))
    && (part.flags / 2 % 2 == 1 <==> last)
    && (part.content == [] ==> last)
  }

  ghost predicate PartsAt(input: seq<byte>, at: nat, parts: seq<Part>, blockSize: nat, end: nat)
    decreases |parts|
  {
    && parts != []
    && PartAt(input, at, parts[0], blockSize, |parts| == 1)
    && var next := at + 13 + |parts[0].stored|;
       if |parts| == 1 then end == next else PartsAt(input, next, parts[1..], blockSize, end)
  }

  ghost function Joined(parts: seq<Part>): seq<byte> {
    if parts == [] then [] else parts[0].content + Joined(parts[1..])
  }

  // The fields of a block header in place.
  lemma FieldsAt(input: seq<byte>, at: nat)
    requires at + 13 <= |input|
    ensures DecodedBlockHeader(input[at..]) ==
            BlockHeader(input[at], Le4(input, at + 1), Le4(input, at + 5), Le4(input, at + 9))
  {
    hide ReadLe, Le4;
    Le4Is(input, at + 1);
    Le4Is(input, at + 5);
    Le4Is(input, at + 9);
    var s := input[at..];
    assert s[1..5] == input[at + 1..at + 5] && s[5..9] == input[at + 5..at + 9] && s[9..13] == input[at + 9..at + 13];
  }

  // The reference reader on a block in place.
  lemma BlockInPlace(h: Header, input: seq<byte>, at: nat, part: Part, last: bool)
    requires PartAt(input, at, part, h.blockSize, last)
    ensures var next := at + 13 + |part.stored|;
            ReadBlocks(h, input[at..]) ==
            if last then Accept(part.content, 13 + |part.stored|, 1)
            else After(part.content, 13 + |part.stored|, 1, ReadBlocks(h, input[next..]))
  {
    hide Decoded, Crc, Le4, DecodedBlockHeader, After;
    FieldsAt(input, at);
    var s, size: nat := input[at..], 13 + |part.stored|;
    assert s[13..size] == part.stored;
    assert s[size..] == input[at + size..];
  }

  lemma {:induction false} PartsAccepted(h: Header, input: seq<byte>, at: nat, parts: seq<Part>, end: nat)
    requires PartsAt(input, at, parts, h.blockSize, end)
    ensures at <= end <= |input|
    ensures ReadBlocks(h, input[at..]) == Accept(Joined(parts), end - at, |parts|)
    decreases |parts|
  {
    hide PartAt, ReadBlocks;
    PartInside(input, at, parts[0], h.blockSize, |parts| == 1);
    BlockInPlace(h, input, at, parts[0], |parts| == 1);
    if |parts| > 1 {
      PartsAccepted(h, input, at + 13 + |parts[0].stored|, parts[1..], end);
    } else {
      assert Joined(parts[1..]) == [];
    }
  }

  lemma PartInside(input: seq<byte>, at: nat, part: Part, blockSize: nat, last: bool)
    requires PartAt(input, at, part, blockSize, last)
    ensures at + 13 + |part.stored| <= |input|
  {
  }

  // What stands at a place where the reader accepts.
  lemma AcceptedPart(h: Header, input: seq<byte>, at: nat) returns (part: Part, last: bool)
    requires at <= |input| && ReadBlocks(h, input[at..]).Accept?
    ensures PartAt(input, at, part, h.blockSize, last)
  {
    hide Decoded, Crc, Le4, DecodedBlockHeader, After;
    FieldsAt(input, at);
    var s := input[at..];
    var b := DecodedBlockHeader(s);
    var size: nat := 13 + b.storedSize;
    assert s[13..size] == input[at + 13..at + size];
    part := Part(b.flags, s[13..size], Content(b, s[13..size]).value);
    last := b.Final();
    ContentLength(b, s[13..size]);
  }

  lemma ContentLength(b: BlockHeader, payload: seq<byte>)
    requires Content(b, payload).Some? && |payload| == b.storedSize && (b.Raw() ==> b.storedSize == b.originalSize)
    ensures |Content(b, payload).value| == b.originalSize
  {
    hide Crc;
  }

  lemma {:induction false} PartsFound(h: Header, input: seq<byte>, at: nat) returns (parts: seq<Part>)
    requires at <= |input| && ReadBlocks(h, input[at..]).Accept?
    ensures var r := ReadBlocks(h, input[at..]);
            PartsAt(input, at, parts, h.blockSize, at + r.consumed) && Joined(parts) == r.output && |parts| == r.blocks
    decreases |input| - at
  {
    hide PartAt, ReadBlocks;
    var part, last := AcceptedPart(h, input, at);
    PartInside(input, at, part, h.blockSize, last);
    BlockInPlace(h, input, at, part, last);
    if last {
      parts := [part];
      assert Joined(parts[1..]) == [];
    } else {
      var rest := PartsFound(h, input, at + 13 + |part.stored|);
      parts := [part] + rest;
      assert parts[1..] == rest;
    }
  }

  // The inputs that are containers, and what is in them.
  ghost predicate IsEsc(input: seq<byte>, parts: seq<Part>, output: seq<byte>, consumed: nat) {
    && IntactHeader(input) && input[4] == 1 && input[6] == 1 && Le4(input, 16) > 0
    && PartsAt(input, 24, parts, Le4(input, 16), consumed)
    && output == Joined(parts)
    && (input[5] % 2 == 0 ==> |output| == Le8(input, 8))
  }

  // The reader accepts exactly these.
  lemma LanguageExact(input: seq<byte>, output: seq<byte>, consumed: nat, blocks: nat)
    ensures ReadContainer(input) == Accept(output, consumed, blocks) <==>
            exists parts :: IsEsc(input, parts, output, consumed) && |parts| == blocks
  {
    hide PartsAt, Joined, ReadBlocks, DecodedHeader, Le4, Le8, IntactHeader;
    HeaderFields(input);
    if ReadContainer(input) == Accept(output, consumed, blocks) {
      var h := DecodedHeader(input).value;
      LongEnough(input);
      var parts := PartsFound(h, input, 24);
      assert [] + Joined(parts) == Joined(parts);
      assert IsEsc(input, parts, output, consumed) && |parts| == blocks;
    }
    forall parts | IsEsc(input, parts, output, consumed) && |parts| == blocks
      ensures ReadContainer(input) == Accept(output, consumed, blocks)
    {
      LongEnough(input);
      PartsAccepted(DecodedHeader(input).value, input, 24, parts, consumed);
      assert [] + output == output;
    }
  }

  lemma LongEnough(input: seq<byte>)
    ensures IntactHeader(input) ==> |input| >= 24
  {
  }

  lemma PartNotEmpty(input: seq<byte>, at: nat, part: Part, blockSize: nat, last: bool)
    requires PartAt(input, at, part, blockSize, last)
    ensures last || |part.content| > 0
  {
  }

  // Only the last block may be empty, so a container never has many blocks of nothing.
  lemma {:induction false} FewBlocks(input: seq<byte>, at: nat, parts: seq<Part>, blockSize: nat, end: nat)
    requires PartsAt(input, at, parts, blockSize, end)
    ensures |parts| <= |Joined(parts)| + 1
    decreases |parts|
  {
    hide PartAt;
    PartNotEmpty(input, at, parts[0], blockSize, |parts| == 1);
    if |parts| > 1 {
      FewBlocks(input, at + 13 + |parts[0].stored|, parts[1..], blockSize, end);
    }
  }

  lemma BlocksBounded(input: seq<byte>, output: seq<byte>, consumed: nat, blocks: nat)
    requires ReadContainer(input) == Accept(output, consumed, blocks)
    ensures blocks <= |output| + 1
  {
    hide ReadContainer, PartsAt, Joined;
    LanguageExact(input, output, consumed, blocks);
    var parts :| IsEsc(input, parts, output, consumed) && |parts| == blocks;
    FewBlocks(input, 24, parts, Le4(input, 16), consumed);
  }

  /* ---- what is written ---- */

  // How a chunk is stored: compressed where that is shorter, else as it is.
  ghost predicate StoredAs(part: Part, chunk: seq<byte>, window: nat, final: bool) {
    && part.content == chunk
    && if |Compressed(chunk, window)| < |chunk|
       then part.stored == Compressed(chunk, window) && part.flags == (if final then 2 else 0)
       else part.stored == chunk && part.flags == (if final then 3 else 1)
  }

  // One block for each chunk, and an empty one behind them when the last chunk was not flagged.
  ghost predicate BlocksFor(parts: seq<Part>, chunks: seq<seq<byte>>, flagged: bool, window: nat) {
    && |parts| == |chunks| + (if flagged then 0 else 1)
    && (forall i | 0 <= i < |chunks| :: StoredAs(parts[i], chunks[i], window, flagged && i == |chunks| - 1))
    && (!flagged ==> parts[|chunks|] == Part(3, [], []))
  }

  ghost predicate LaidOut(output: seq<byte>, chunks: seq<seq<byte>>, flagged: bool, blockSize: nat, window: nat,
                          known: Option<uint64>)
  {
    && IntactHeader(output) && output[4] == 1 && output[6] == 1 && Le4(output, 16) == blockSize
    && (known.Some? ==> output[5] == 0 && Le8(output, 8) == known.value)
    && (known.None? ==> output[5] == 1 && Le8(output, 8) == 18446744073709551615)
    && exists parts :: PartsAt(output, 24, parts, blockSize, |output|) && BlocksFor(parts, chunks, flagged, window)
  }

  ghost function PartOf(r: Record): Part {
    var content := match Content(r.header, r.payload) case None => [] case Some(c) => c;
    Part(r.header.flags, r.payload, content)
  }

  ghost function PartsOf(records: seq<Record>): (parts: seq<Part>)
    ensures |parts| == |records|
  {
    seq(|records|, i requires 0 <= i < |records| => PartOf(records[i]))
  }

  lemma RecordInPlace(h: Header, input: seq<byte>, at: nat, r: Record, rest: seq<byte>)
    requires at <= |input| && input[at..] == RecordBytes(r) + rest && WellFormed(h, r)
    ensures PartAt(input, at, PartOf(r), h.blockSize, r.header.Final())
    ensures input[at + 13 + |r.payload|..] == rest
  {
    hide Decoded, Crc, Le4, DecodedBlockHeader, BlockHeaderBytes;
    assert input[at..] == BlockHeaderBytes(r.header) + (r.payload + rest);
    BlockHeaderRoundTrip(r.header, r.payload + rest);
    FieldsAt(input, at);
    var s, size: nat := input[at..], 13 + |r.payload|;
    assert s[13..size] == r.payload && s[size..] == rest;
    assert s[13..size] == input[at + 13..at + size] && s[size..] == input[at + size..];
    ContentLength(r.header, r.payload);
  }

  // Records one by one.
  lemma RecordsApart(h: Header, records: seq<Record>)
    requires ValidRecords(h, records)
    ensures WellFormed(h, records[0]) && (records[0].header.Final() <==> |records| == 1)
    ensures RecordsBytes(records) == RecordBytes(records[0]) + RecordsBytes(records[1..])
    ensures |records| > 1 ==> ValidRecords(h, records[1..])
    ensures |records| == 1 ==> RecordsBytes(records[1..]) == []
  {
    hide WellFormed, RecordBytes;
  }

  lemma PartsApart(records: seq<Record>)
    requires records != []
    ensures PartsOf(records)[0] == PartOf(records[0]) && PartsOf(records)[1..] == PartsOf(records[1..])
  {
    hide PartOf;
  }

  lemma {:induction false} RecordsInPlace(h: Header, input: seq<byte>, at: nat, records: seq<Record>)
    requires at <= |input| && input[at..] == RecordsBytes(records) && ValidRecords(h, records)
    ensures PartsAt(input, at, PartsOf(records), h.blockSize, |input|)
    decreases |records|
  {
    hide WellFormed, PartAt, PartOf, PartsOf, RecordBytes, RecordsBytes, ValidRecords;
    NotEmpty(h, records);
    RecordsApart(h, records);
    PartsApart(records);
    RecordInPlace(h, input, at, records[0], RecordsBytes(records[1..]));
    PartInside(input, at, PartOf(records[0]), h.blockSize, |records| == 1);
    PartStored(records[0]);
    if |records| > 1 {
      RecordsInPlace(h, input, at + 13 + |records[0].payload|, records[1..]);
    }
  }

  lemma NotEmpty(h: Header, records: seq<Record>)
    requires ValidRecords(h, records)
    ensures records != []
  {
  }

  lemma PartStored(r: Record)
    ensures PartOf(r).stored == r.payload
  {
  }

  lemma {:induction false} PlainRecordAt(chunks: seq<seq<byte>>, blockSize: uint32, window: nat, i: nat)
    requires Chunks(chunks, blockSize) && i < |chunks|
    ensures PlainRecords(chunks, blockSize, window)[i] == ChunkRecord(chunks[i], window, false)
  {
    hide ChunkRecord;
    var n := |chunks| - 1;
    if i < n {
      PlainRecordAt(chunks[..n], blockSize, window, i);
    }
  }

  lemma WrittenRecordAt(chunks: seq<seq<byte>>, flagged: bool, blockSize: uint32, window: nat, i: nat)
    requires Chunks(chunks, blockSize) && i < |chunks|
    ensures WrittenRecords(chunks, flagged, blockSize, window)[i] ==
            ChunkRecord(chunks[i], window, flagged && i == |chunks| - 1)
  {
    hide ChunkRecord;
    var n := |chunks| - 1;
    if !flagged {
      PlainRecordAt(chunks, blockSize, window, i);
    } else if i < n {
      PlainRecordAt(chunks[..n], blockSize, window, i);
    }
  }

  lemma ChunkStored(chunk: seq<byte>, window: nat, final: bool, h: Header)
    requires 0 < |chunk| <= h.blockSize
    ensures var r := ChunkRecord(chunk, window, final);
            WellFormed(h, r) && StoredAs(PartOf(r), chunk, window, final)
  {
    hide WellFormed, Content, Compressed;
    ChunkRecordGood(chunk, window, final, h);
  }

  // A written container, byte by byte.
  lemma WrittenLaidOut(chunks: seq<seq<byte>>, flagged: bool, blockSize: uint32, window: nat, known: Option<uint64>)
    requires 0 < blockSize && Chunks(chunks, blockSize) && (flagged ==> chunks != [])
    ensures LaidOut(WrittenContainer(chunks, flagged, blockSize, window, known), chunks, flagged, blockSize, window,
                    known)
  {
    hide RecordsBytes, HeaderBytes, DecodedHeader, ValidRecords, WrittenRecords, PartsAt, Le4, Le8, IntactHeader,
         WellFormed, Contents, ChunkRecord, StoredAs, PartOf;
    var h := WrittenHeader(blockSize, known);
    var records := WrittenRecords(chunks, flagged, blockSize, window);
    var output := WrittenContainer(chunks, flagged, blockSize, window, known);
    WrittenRecordsGood(chunks, flagged, window, h);
    HeaderRoundTrip(h, RecordsBytes(records));
    HeaderFields(output);
    assert output[24..] == RecordsBytes(records);
    RecordsInPlace(h, output, 24, records);
    var parts := PartsOf(records);
    forall i | 0 <= i < |chunks|
      ensures StoredAs(parts[i], chunks[i], window, flagged && i == |chunks| - 1)
    {
      WrittenRecordAt(chunks, flagged, blockSize, window, i);
      ChunkStored(chunks[i], window, flagged && i == |chunks| - 1, h);
    }
    if !flagged {
      TrailingPart(chunks, blockSize, window, h);
    }
    assert BlocksFor(parts, chunks, flagged, window);
  }

  lemma TrailingPart(chunks: seq<seq<byte>>, blockSize: uint32, window: nat, h: Header)
    requires Chunks(chunks, blockSize)
    ensures PartOf(WrittenRecords(chunks, false, blockSize, window)[|chunks|]) == Part(3, [], [])
  {
    hide Content;
    TrailingRecordGood(h);
  }

  // A run of one byte, in one block, is stored in five bytes, and one more for every 255 from the
  // nineteenth on.
  lemma RunStored(data: seq<byte>, blockSize: uint32, window: nat, known: Option<uint64>)
    requires 6 <= |data| <= blockSize && window >= 1 && forall i | 0 <= i < |data| :: data[i] == data[0]
    ensures Chunks([data], blockSize)
    ensures |WrittenContainer([data], true, blockSize, window, known)| ==
            24 + 13 + 5 + (if |data| < 19 then 0 else (|data| - 19) / 255 + 1)
  {
    hide WrittenContainer, Compressed;
    ConstantRun(data, window);
    WrittenLaidOut([data], true, blockSize, window, known);
    var output := WrittenContainer([data], true, blockSize, window, known);
    var parts :| PartsAt(output, 24, parts, blockSize, |output|) && BlocksFor(parts, [data], true, window);
    assert StoredAs(parts[0], [data][0], window, true);
    ShorterRun(|data|);
  }

  lemma ShorterRun(n: nat)
    requires n >= 6
    ensures 5 + (if n < 19 then 0 else (n - 19) / 255 + 1) < n
  {
  }
}
