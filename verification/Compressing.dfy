/** The writing side of the pipeline: a loop over reads, refining the written container. */
module Compressing {
  import opened Types
  import opened Memory
  import opened LzEncoder
  import opened LzTheorems
  import opened Crc32
  import opened EscFormat
  import opened Container
  import opened Streams
  import opened Session
  import opened Written
  import opened Layout

  // The calls behind one record: its header, then its payload, as far as it got.
  ghost predicate RecordCalls(calls: seq<Call>, ok: bool) {
    if ok then calls == [WriteCall(true), WriteCall(true)]
    else calls in {[], [WriteCall(false)], [WriteCall(true), WriteCall(false)]}
  }

  lemma MoreRecordCalls(work: seq<Call>, calls: seq<Call>, ok: bool)
    requires AllWritten(work) && RecordCalls(calls, ok)
    ensures if ok then AllWritten(work + calls) else Stopped(work + calls)
    ensures ok ==> |work + calls| == |work| + 2
  {
    OneMoreCall(work, true);
    OneMoreCall(work, false);
    var one := work + [WriteCall(true)];
    OneMoreCall(one, ok);
    if calls == [] {
      assert work + calls == work;
    } else if |calls| == 2 {
      assert work + calls == one + [WriteCall(ok)];
    }
  }

  // A block header and the payload behind it.
  method WriteRecord(b: BlockHeader, payload: seq<byte>, sink: Sink) returns (err: Error, ghost calls: seq<Call>)
    requires sink.isOpen
    modifies sink
    ensures sink.isOpen && (old(sink.faulted) ==> sink.faulted) && sink.destination == old(sink.destination)
    ensures sink.calls == old(sink.calls) + calls && RecordCalls(calls, err == Ok)
    ensures err == Ok ==>
              && sink.staged == old(sink.staged) + RecordBytes(Record(b, payload))
              && sink.written == old(sink.written) + |RecordBytes(Record(b, payload))|
    ensures err != Ok ==> sink.Blames(err)
  {
    hide BlockHeaderBytes;
    calls := [];
    var head := new byte[BLOCK_HEADER_SIZE];
    err := EncodeBlockHeader(b, head);
    assert head[..] == head[..BLOCK_HEADER_SIZE];
    err := sink.Write(head[..]);
    calls := [WriteCall(err == Ok)];
    if err != Ok {
      return;
    }
    err := sink.Write(payload);
    calls := [WriteCall(true), WriteCall(err == Ok)];
  }

  // Memory is never refused, and sizes are such that a compressed chunk always has one that fits.
  predicate Roomy(platform: Platform, blockSize: nat) {
    platform.plentiful && blockSize + blockSize / 15 + 1 <= platform.sizeMax
  }

  // One chunk: compressed, then stored whichever way is shorter.
  method WriteChunk(chunk: seq<byte>, window: nat, final: bool, encoded: MemoryBuffer, sink: Sink)
    returns (err: Error, ghost calls: seq<Call>)
    requires sink.isOpen && encoded.Valid() && 0 < |chunk| < 0x1_0000_0000 && |chunk| <= encoded.sizeMax
    modifies encoded.Repr(), sink
    ensures sink.isOpen && (old(sink.faulted) ==> sink.faulted) && sink.destination == old(sink.destination)
    ensures encoded.Valid() && fresh(encoded.Repr() - old(encoded.Repr()))
    ensures sink.calls == old(sink.calls) + calls && RecordCalls(calls, err == Ok)
    ensures err == Ok ==>
              && sink.staged == old(sink.staged) + RecordBytes(ChunkRecord(chunk, window, final))
              && sink.written == old(sink.written) + |RecordBytes(ChunkRecord(chunk, window, final))|
    ensures err != Ok ==> sink.Blames(err) || (err == NoMemory && !Roomy(encoded.platform, |chunk|))
  {
    hide MemoryBuffer.Valid, MemoryBuffer.Contents, Compressed, Crc, RecordBytes;
    calls := [];
    CompressedSize(chunk, window);
    err := Compress(chunk, window, encoded);
    if err != Ok {
      return;
    }
    var payload := encoded.Snapshot();
    var raw := encoded.size >= |chunk|;
    if raw {
      payload := chunk;
    }
    var flags: byte := if raw then RAW_FLAG else 0;
    if final {
      flags := flags + FINAL_FLAG;
    }
    var crc := ComputeCrc(chunk);
    var b := BlockHeader(flags, |chunk|, |payload|, crc);
    err, calls := WriteRecord(b, payload, sink);
  }

  // The records written so far: all plain, or the last one flagged final.
  ghost function RecordsSoFar(chunks: seq<seq<byte>>, flagged: bool, blockSize: uint32, window: nat): seq<Record>
    requires Chunks(chunks, blockSize) && (flagged ==> chunks != [])
  {
    if flagged then WrittenRecords(chunks, true, blockSize, window) else PlainRecords(chunks, blockSize, window)
  }

  lemma OneMoreRecord(chunks: seq<seq<byte>>, chunk: seq<byte>, final: bool, blockSize: uint32, window: nat)
    requires Chunks(chunks, blockSize) && 0 < |chunk| <= blockSize
    ensures Chunks(chunks + [chunk], blockSize) && Flatten(chunks + [chunk]) == Flatten(chunks) + chunk
    ensures RecordsBytes(RecordsSoFar(chunks + [chunk], final, blockSize, window)) ==
            RecordsBytes(RecordsSoFar(chunks, false, blockSize, window)) +
            RecordBytes(ChunkRecord(chunk, window, final))
  {
    hide ChunkRecord, RecordBytes;
    assert (chunks + [chunk])[..|chunks|] == chunks;
    var r := ChunkRecord(chunk, window, final);
    RecordsConcat(PlainRecords(chunks, blockSize, window), [r]);
    RecordsOne(r);
  }

  lemma TrailingRecordEnds(before: seq<byte>, chunks: seq<seq<byte>>, blockSize: uint32, window: nat)
    requires Chunks(chunks, blockSize)
    ensures before + RecordsBytes(WrittenRecords(chunks, false, blockSize, window)) ==
            before + RecordsBytes(RecordsSoFar(chunks, false, blockSize, window)) + RecordBytes(TrailingRecord())
  {
    hide RecordBytes, TrailingRecord;
    RecordsConcat(PlainRecords(chunks, blockSize, window), [TrailingRecord()]);
    RecordsOne(TrailingRecord());
  }

  method WriteHeader(h: Header, sink: Sink, platform: Platform) returns (err: Error, ghost calls: seq<Call>)
    requires sink.isOpen && INITIAL_CAPACITY <= platform.sizeMax
    modifies sink
    ensures sink.isOpen && (old(sink.faulted) ==> sink.faulted) && sink.destination == old(sink.destination)
    ensures sink.calls == old(sink.calls) + calls
    ensures calls == if err == Ok then [WriteCall(true)] else calls
    ensures err != Ok ==>
              && calls in {[], [WriteCall(false)]}
              && (sink.Blames(err) || (err == NoMemory && !platform.plentiful))
    ensures err == Ok ==>
              sink.staged == old(sink.staged) + HeaderBytes(h) && sink.written == old(sink.written) + HEADER_SIZE
  {
    hide HeaderBytes;
    calls := [];
    var headerBuffer := new MemoryBuffer(platform);
    err := EncodeHeader(h, headerBuffer);
    if err != Ok {
      return;
    }
    var bytes := headerBuffer.Snapshot();
    err := sink.Write(bytes);
    calls := [WriteCall(err == Ok)];
  }

  /* ---- the run ---- */

  // What the loop has done with the data up to the source's position.
  ghost predicate SoFar(data: seq<byte>, position: nat, atEnd: bool, steady: bool, chunks: seq<seq<byte>>,
                        flagged: bool, blockSize: uint32)
  {
    && 0 < blockSize && position <= |data| && (atEnd ==> position == |data|)
    && Chunks(chunks, blockSize) && Flatten(chunks) == data[..position]
    && (flagged ==> atEnd && chunks != [])
    && (steady ==>
          && (flagged <==> atEnd && chunks != [])
          && FullChunks(data, blockSize) == chunks + FullChunks(data[position..], blockSize))
  }

  lemma OneMoreChunk(data: seq<byte>, position: nat, position': nat, chunks: seq<seq<byte>>, blockSize: uint32)
    requires 0 < blockSize && position < position' <= |data| && position' <= position + blockSize
    requires Chunks(chunks, blockSize) && Flatten(chunks) == data[..position]
    ensures var chunk := data[position..position'];
            && Chunks(chunks + [chunk], blockSize) && Flatten(chunks + [chunk]) == data[..position']
            && (position' - position == Min(blockSize, |data| - position)
                && FullChunks(data, blockSize) == chunks + FullChunks(data[position..], blockSize) ==>
                FullChunks(data, blockSize) == chunks + [chunk] + FullChunks(data[position'..], blockSize))
  {
    var chunk := data[position..position'];
    assert (chunks + [chunk])[..|chunks|] == chunks;
    assert data[..position'] == data[..position] + chunk;
    var rest := data[position..];
    if position' - position == Min(blockSize, |data| - position) {
      if |rest| <= blockSize {
        assert chunk == rest && data[position'..] == [];
        assert FullChunks(rest, blockSize) == [chunk] + FullChunks([], blockSize);
      } else {
        assert chunk == rest[..blockSize] && data[position'..] == rest[blockSize..];
      }
      assert FullChunks(rest, blockSize) == [chunk] + FullChunks(data[position'..], blockSize);
    }
  }

  lemma MoreSoFar(data: seq<byte>, position: nat, atEnd: bool, position': nat, atEnd': bool, steady: bool,
                  chunks: seq<seq<byte>>, flagged: bool, blockSize: uint32)
    requires SoFar(data, position, atEnd, steady, chunks, flagged, blockSize)
    requires position < position' <= |data| && position' <= position + blockSize && (atEnd' ==> position' == |data|)
    requires steady ==> position' - position == Min(blockSize, |data| - position)
    ensures !flagged
    ensures SoFar(data, position', atEnd', steady, chunks + [data[position..position']], atEnd', blockSize)
  {
    hide Flatten, FullChunks, Chunks;
    OneMoreChunk(data, position, position', chunks, blockSize);
  }

  lemma NothingYet(data: seq<byte>, atEnd: bool, steady: bool, blockSize: uint32, window: nat)
    requires blockSize > 0 && (atEnd ==> data == [])
    ensures SoFar(data, 0, atEnd, steady, [], false, blockSize) && Chunks([], blockSize) && AllWritten([])
    ensures RecordsBytes(RecordsSoFar([], false, blockSize, window)) == []
  {
    assert data[0..] == data;
  }

  lemma Everything(data: seq<byte>, position: nat, atEnd: bool, steady: bool, chunks: seq<seq<byte>>,
                   flagged: bool, blockSize: uint32)
    requires SoFar(data, position, atEnd, steady, chunks, flagged, blockSize)
    requires position == |data| && (steady ==> atEnd)
    ensures AllTaken(data, steady, chunks, flagged, blockSize, position, |chunks|)
  {
    assert data[..|data|] == data && data[|data|..] == [];
    if chunks != [] {
      assert |Flatten(chunks)| >= |chunks[|chunks| - 1]| > 0;
    }
  }

  // What a run that has reached the end has done with the data, and what it has counted.
  ghost predicate AllTaken(data: seq<byte>, steady: bool, chunks: seq<seq<byte>>, flagged: bool, blockSize: uint32,
                           taken: nat, blocks: nat)
  {
    && Flatten(chunks) == data && taken == |data| && blocks == |chunks|
    && (steady && blockSize > 0 ==> chunks == FullChunks(data, blockSize) && flagged == (data != []))
  }

  // One read, and the record of what it delivered; nothing at the end of the source.
  method TakeChunk(blockSize: uint32, window: nat, source: Source, sink: Sink, buffer: array<byte>,
                   encoded: MemoryBuffer)
    returns (err: Error, n: nat, final: bool, ghost chunk: seq<byte>, ghost calls: seq<Call>)
    requires source.Valid() && source.isOpen && sink.isOpen
    requires 0 < blockSize <= buffer.Length && blockSize <= encoded.sizeMax
    requires encoded.Valid() && buffer !in encoded.Repr()
    modifies source, sink, buffer, encoded.Repr()
    ensures source.Valid() && source.isOpen && sink.isOpen
    ensures (old(source.faulted) ==> source.faulted) && (old(sink.faulted) ==> sink.faulted)
    ensures encoded.Valid() && fresh(encoded.Repr() - old(encoded.Repr()))
    ensures sink.destination == old(sink.destination) && sink.calls == old(sink.calls) + calls
    ensures old(source.position) <= source.position <= |source.data| && n <= blockSize
    ensures source.position == old(source.position) + n && final == source.atEnd
    ensures chunk == source.data[old(source.position)..source.position]
    ensures source.steady ==> n == Min(blockSize, |source.data| - old(source.position))
    ensures source.atEnd ==> source.position == |source.data|
    ensures err == Ok && n == 0 ==>
              && source.atEnd && calls == [] && sink.staged == old(sink.staged) && sink.written == old(sink.written)
    ensures err == Ok && n > 0 ==>
              && RecordCalls(calls, true)
              && sink.staged == old(sink.staged) + RecordBytes(ChunkRecord(chunk, window, final))
              && sink.written == old(sink.written) + |RecordBytes(ChunkRecord(chunk, window, final))|
    ensures err != Ok ==>
              && RecordCalls(calls, false)
              && (source.Blames(err, ReadFailed) || sink.Blames(err)
                  || (err == NoMemory && !Roomy(encoded.platform, blockSize)))
  {
    hide MemoryBuffer.Valid, MemoryBuffer.Contents, RecordBytes, ChunkRecord;
    calls, chunk := [], [];
    ghost var position := source.position;
    n, err := source.Read(buffer, 0, blockSize);
    final := source.atEnd;
    chunk := buffer[..n];
    assert chunk == buffer[0..n];
    if err != Ok {
      return;
    }
    if n == 0 {
      err := if source.atEnd then Ok else ReadFailed;
      return;
    }
    err, calls := WriteChunk(buffer[..n], window, final, encoded, sink);
  }

  // One round of the loop: a look at the cancel flag, then one read and its record.
  method TakeRound(blockSize: uint32, window: nat, source: Source, sink: Sink, flag: CancelFlag?,
                   buffer: array<byte>, encoded: MemoryBuffer, ghost before: seq<Call>)
    returns (err: Error, n: nat, final: bool, ghost chunk: seq<byte>, ghost work: seq<Call>, ghost cancelled: bool)
    requires source.Valid() && source.isOpen && sink.isOpen && AllWritten(before)
    requires 0 < blockSize <= buffer.Length && blockSize <= encoded.sizeMax
    requires encoded.Valid() && buffer !in encoded.Repr()
    modifies source, sink, flag, buffer, encoded.Repr()
    ensures source.Valid() && source.isOpen && sink.isOpen
    ensures (old(source.faulted) ==> source.faulted) && (old(sink.faulted) ==> sink.faulted)
    ensures encoded.Valid() && fresh(encoded.Repr() - old(encoded.Repr()))
    ensures sink.destination == old(sink.destination)
    ensures before <= work && sink.calls == old(sink.calls) + work[|before|..]
    ensures if err == Ok then AllWritten(work) else Stopped(work)
    ensures source.position == old(source.position) + n
    ensures err == Ok ==>
              && old(source.position) <= source.position <= |source.data| && n <= blockSize && final == source.atEnd
              && chunk == source.data[old(source.position)..source.position]
              && (source.steady ==> n == Min(blockSize, |source.data| - old(source.position)))
              && (source.atEnd ==> source.position == |source.data|)
    ensures err == Ok && n == 0 ==>
              && source.atEnd && work == before && sink.staged == old(sink.staged) && sink.written == old(sink.written)
    ensures err == Ok && n > 0 ==>
              && |work| == |before| + 2
              && sink.staged == old(sink.staged) + RecordBytes(ChunkRecord(chunk, window, final))
              && sink.written == old(sink.written) + |RecordBytes(ChunkRecord(chunk, window, final))|
    ensures cancelled ==> err == Cancelled && flag != null && flag.requested
    ensures flag != null ==> flag.checks == old(flag.checks) + 1 && (old(flag.requested) ==> err != Ok)
    ensures err != Ok && !source.Blames(err, ReadFailed) && !sink.Blames(err) && !cancelled ==>
              err == NoMemory && !Roomy(encoded.platform, blockSize)
  {
    hide AllWritten, Stopped, MemoryBuffer.Valid, MemoryBuffer.Contents, RecordBytes, ChunkRecord, RecordCalls, Roomy;
    n, final, chunk, work, cancelled := 0, false, [], before, false;
    OneMoreCall(before, true);
    var stop := IsCancelled(flag);
    if stop {
      cancelled := true;
      return Cancelled, n, final, chunk, work, cancelled;
    }
    ghost var calls;
    err, n, final, chunk, calls := TakeChunk(blockSize, window, source, sink, buffer, encoded);
    if err == Ok && n == 0 {
      return;
    }
    MoreRecordCalls(before, calls, err == Ok);
    work := before + calls;
  }

  // The loop over reads: every chunk that arrives becomes one record.
  method WriteChunks(blockSize: uint32, window: nat, source: Source, sink: Sink, flag: CancelFlag?,
                     buffer: array<byte>, encoded: MemoryBuffer)
    returns (run: Run, ghost chunks: seq<seq<byte>>, flagged: bool, ghost work: seq<Call>, ghost cancelled: bool)
    requires source.Valid() && source.isOpen && source.position == 0 && sink.isOpen
    requires 0 < blockSize <= buffer.Length && blockSize <= encoded.sizeMax
    requires source.steady ==> (source.atEnd <==> source.data == [])
    requires encoded.Valid() && buffer !in encoded.Repr()
    modifies source, sink, flag, buffer, encoded.Repr()
    ensures source.Valid() && sink.isOpen
    ensures (old(source.faulted) ==> source.faulted) && (old(sink.faulted) ==> sink.faulted)
    ensures sink.destination == old(sink.destination) && sink.calls == old(sink.calls) + work
    ensures if run.error == Ok then AllWritten(work) else Stopped(work)
    ensures run.error == Ok ==>
              && Chunks(chunks, blockSize) && (flagged ==> chunks != [])
              && AllTaken(source.data, source.steady, chunks, flagged, blockSize, run.inputBytes, run.blocks)
              && sink.staged == old(sink.staged) + RecordsBytes(RecordsSoFar(chunks, flagged, blockSize, window))
              && sink.written - old(sink.written) == |sink.staged| - |old(sink.staged)|
    ensures cancelled ==> run.error == Cancelled && flag != null && flag.requested
    ensures run.inputBytes == source.position
    ensures run.error == Ok ==>
              |work| == 2 * |chunks| && (flag != null ==> flag.checks == old(flag.checks) + |chunks| + 1)
    ensures flag != null && old(flag.requested) ==> run.error != Ok
    ensures run.error != Ok && !source.Blames(run.error, ReadFailed) && !sink.Blames(run.error) && !cancelled ==>
              run.error == NoMemory && !Roomy(encoded.platform, blockSize)
  {
    hide AllWritten, Stopped, Chunks, RecordsBytes, RecordsSoFar, MemoryBuffer.Valid, MemoryBuffer.Contents,
         FullChunks, Flatten, RecordBytes, ChunkRecord, SoFar, AllTaken, Roomy;
    run, chunks, flagged, work, cancelled := Run(Ok, 0, 0, 0), [], false, [], false;
    NothingYet(source.data, source.atEnd, source.steady, blockSize, window);
    while true
      invariant source.Valid() && source.isOpen && sink.isOpen
      invariant (old(source.faulted) ==> source.faulted) && (old(sink.faulted) ==> sink.faulted)
      invariant encoded.Valid() && fresh(encoded.Repr() - old(encoded.Repr())) && buffer !in encoded.Repr()
      invariant SoFar(source.data, source.position, source.atEnd, source.steady, chunks, flagged, blockSize)
      invariant Chunks(chunks, blockSize) && (flagged ==> chunks != []) && source.position <= |source.data|
      invariant sink.destination == old(sink.destination)
      invariant sink.calls == old(sink.calls) + work && AllWritten(work)
      invariant run.error == Ok && !cancelled && run.inputBytes == source.position && run.blocks == |chunks|
      invariant sink.staged == old(sink.staged) + RecordsBytes(RecordsSoFar(chunks, flagged, blockSize, window))
      invariant sink.written - old(sink.written) == |sink.staged| - |old(sink.staged)|
      invariant flag != null && old(flag.requested) ==> flag.requested
      invariant |work| == 2 * |chunks| && (flag != null ==> flag.checks == old(flag.checks) + |chunks|)
      decreases |source.data| - source.position
    {
      ghost var position, atEnd, before := source.position, source.atEnd, work;
      var err, n, final;
      ghost var chunk;
      err, n, final, chunk, work, cancelled :=
        TakeRound(blockSize, window, source, sink, flag, buffer, encoded, work);
      assert work == before + work[|before|..];
      if err != Ok {
        run := run.(error := err, inputBytes := run.inputBytes + n);
        return;
      }
      if n == 0 {
        Everything(source.data, position, atEnd, source.steady, chunks, flagged, blockSize);
        break;
      }
      MoreSoFar(source.data, position, atEnd, source.position, source.atEnd, source.steady, chunks, flagged, blockSize);
      OneMoreRecord(chunks, chunk, final, blockSize, window);
      chunks, flagged := chunks + [chunk], final;
      run := Run(Ok, run.inputBytes + n, sink.written, run.blocks + 1);
    }
  }

  // The empty final record behind the records of the chunks.
  method WriteTrailing(before: Run, ghost chunks: seq<seq<byte>>, blockSize: uint32, window: nat,
                       ghost front: seq<byte>, ghost work: seq<Call>, sink: Sink)
    returns (run: Run, ghost work': seq<Call>)
    requires sink.isOpen && Chunks(chunks, blockSize) && AllWritten(work) && before.error == Ok
    requires sink.staged == front + RecordsBytes(RecordsSoFar(chunks, false, blockSize, window))
    modifies sink
    ensures sink.isOpen && (old(sink.faulted) ==> sink.faulted) && sink.destination == old(sink.destination)
    ensures sink.calls == old(sink.calls) + [WriteCall(run.error == Ok)]
    ensures work' == work + [WriteCall(run.error == Ok)]
    ensures if run.error == Ok then AllWritten(work') else Stopped(work')
    ensures run.error == Ok ==>
              && sink.staged == front + RecordsBytes(WrittenRecords(chunks, false, blockSize, window))
              && sink.written - old(sink.written) == |sink.staged| - |old(sink.staged)|
    ensures run == before.(error := run.error, outputBytes := sink.written)
    ensures run.error != Ok ==> sink.Blames(run.error)
  {
    hide BlockHeaderBytes, Chunks, AllWritten, Stopped, RecordsSoFar, WrittenRecords, RecordsBytes;
    TrailingRecordEnds(front, chunks, blockSize, window);
    var head := new byte[BLOCK_HEADER_SIZE];
    var err := EncodeBlockHeader(BlockHeader(RAW_FLAG + FINAL_FLAG, 0, 0, 0), head);
    assert head[..] == head[..BLOCK_HEADER_SIZE];
    assert head[..] == RecordBytes(TrailingRecord());
    err := sink.Write(head[..]);
    OneMoreCall(work, err == Ok);
    run, work' := before.(error := err, outputBytes := sink.written), work + [WriteCall(err == Ok)];
  }

  // All records: one a chunk, and the empty final one when the last chunk was not flagged.
  method WriteRecords(blockSize: uint32, window: nat, source: Source, sink: Sink, flag: CancelFlag?,
                      buffer: array<byte>, encoded: MemoryBuffer)
    returns (run: Run, ghost chunks: seq<seq<byte>>, ghost flagged: bool, ghost work: seq<Call>, ghost cancelled: bool)
    requires source.Valid() && source.isOpen && source.position == 0 && sink.isOpen
    requires 0 < blockSize <= buffer.Length && blockSize <= encoded.sizeMax
    requires source.steady ==> (source.atEnd <==> source.data == [])
    requires encoded.Valid() && buffer !in encoded.Repr()
    modifies source, sink, flag, buffer, encoded.Repr()
    ensures source.Valid() && sink.isOpen
    ensures (old(source.faulted) ==> source.faulted) && (old(sink.faulted) ==> sink.faulted)
    ensures sink.destination == old(sink.destination) && sink.calls == old(sink.calls) + work
    ensures if run.error == Ok then AllWritten(work) else Stopped(work)
    ensures run.error == Ok ==>
              && Chunks(chunks, blockSize) && (flagged ==> chunks != [])
              && AllTaken(source.data, source.steady, chunks, flagged, blockSize, run.inputBytes, run.blocks)
              && sink.staged == old(sink.staged) + RecordsBytes(WrittenRecords(chunks, flagged, blockSize, window))
              && sink.written - old(sink.written) == |sink.staged| - |old(sink.staged)|
    ensures cancelled ==> run.error == Cancelled && flag != null && flag.requested
    ensures run.inputBytes == source.position
    ensures run.error == Ok ==>
              && |work| == 2 * |chunks| + (if flagged then 0 else 1)
              && (flag != null ==> flag.checks == old(flag.checks) + |chunks| + 1)
    ensures flag != null && old(flag.requested) ==> run.error != Ok
    ensures run.error != Ok && !source.Blames(run.error, ReadFailed) && !sink.Blames(run.error) && !cancelled ==>
              run.error == NoMemory && !Roomy(encoded.platform, blockSize)
  {
    hide AllWritten, Stopped, Chunks, RecordsBytes, RecordsSoFar, MemoryBuffer.Valid, MemoryBuffer.Contents,
         MemoryBuffer.Repr, FullChunks, Flatten, RecordBytes, TrailingRecord, WrittenRecords, Source.Valid,
         AllTaken, Roomy;
    var final;
    run, chunks, final, work, cancelled := WriteChunks(blockSize, window, source, sink, flag, buffer, encoded);
    flagged := final;
    if run.error != Ok {
      return;
    }
    if final {
      AllRecords(chunks, blockSize, window);
    } else {
      run, work := WriteTrailing(run, chunks, blockSize, window, old(sink.staged), work, sink);
    }
  }

  // The header and the records behind it.
  method WriteAll(blockSize: uint32, window: nat, source: Source, sink: Sink, flag: CancelFlag?, platform: Platform)
    returns (run: Run, ghost chunks: seq<seq<byte>>, ghost flagged: bool, ghost work: seq<Call>, ghost cancelled: bool)
    requires source.Valid() && source.isOpen && source.position == 0 && sink.isOpen && sink.staged == []
    requires source.steady ==> (source.atEnd <==> source.data == [])
    requires 0 < blockSize <= platform.sizeMax && INITIAL_CAPACITY <= platform.sizeMax && sink.written == 0
    modifies source, sink, flag
    ensures source.Valid() && sink.isOpen
    ensures (old(source.faulted) ==> source.faulted) && (old(sink.faulted) ==> sink.faulted)
    ensures sink.destination == old(sink.destination) && sink.calls == old(sink.calls) + work
    ensures if run.error == Ok then AllWritten(work) else Stopped(work)
    ensures run.error == Ok ==>
              && Chunks(chunks, blockSize) && (flagged ==> chunks != [])
              && AllTaken(source.data, source.steady, chunks, flagged, blockSize, run.inputBytes, run.blocks)
              && sink.staged == WrittenContainer(chunks, flagged, blockSize, window, source.known)
              && sink.written == |sink.staged|
    ensures cancelled ==> run.error == Cancelled && flag != null && flag.requested
    ensures run.inputBytes == source.position
    ensures run.error == Ok ==>
              && |work| == 1 + 2 * |chunks| + (if flagged then 0 else 1)
              && (flag != null ==> flag.checks == old(flag.checks) + |chunks| + 1)
    ensures flag != null && old(flag.requested) ==> run.error != Ok
    ensures run.error != Ok && !source.Blames(run.error, ReadFailed) && !sink.Blames(run.error) && !cancelled ==>
              run.error == NoMemory && !Roomy(platform, blockSize)
  {
    hide AllWritten, Stopped, Chunks, RecordsBytes, MemoryBuffer.Valid, MemoryBuffer.Contents, MemoryBuffer.Repr,
         FullChunks, Flatten, HeaderBytes, WrittenRecords, Source.Valid, AllTaken;
    chunks, flagged, work, cancelled := [], false, [], false;
    NoCallsYet();
    var blockBuffer, encodedBlock := AllocateBlocks(blockSize, platform);
    if blockBuffer == null {
      run := EmptyRun(NoMemory);
      return;
    }
    var err;
    err, work := WriteHeader(WrittenHeader(blockSize, source.known), sink, platform);
    HeaderCalls(work, err == Ok);
    if err != Ok {
      run := EmptyRun(err);
      return;
    }
    ghost var more;
    run, chunks, flagged, more, cancelled :=
      WriteRecords(blockSize, window, source, sink, flag, blockBuffer, encodedBlock);
    WrittenThen(more);
    work := work + more;
  }

  lemma NoCallsYet()
    ensures AllWritten([]) && Stopped([])
  {
  }

  lemma HeaderCalls(work: seq<Call>, ok: bool)
    requires if ok then work == [WriteCall(true)] else work in {[], [WriteCall(false)]}
    ensures if ok then AllWritten(work) else Stopped(work)
  {
  }

  lemma WrittenThen(more: seq<Call>)
    ensures AllWritten(more) ==> AllWritten([WriteCall(true)] + more)
    ensures Stopped(more) ==> Stopped([WriteCall(true)] + more)
  {
    if more != [] {
      var whole := [WriteCall(true)] + more;
      assert whole[..|whole| - 1] == [WriteCall(true)] + more[..|more| - 1];
    }
  }

  lemma AllRecords(chunks: seq<seq<byte>>, blockSize: uint32, window: nat)
    requires Chunks(chunks, blockSize) && chunks != []
    ensures RecordsSoFar(chunks, true, blockSize, window) == WrittenRecords(chunks, true, blockSize, window)
  {
  }

  method AllocateBlocks(blockSize: uint32, platform: Platform)
    returns (blockBuffer: array?<byte>, encodedBlock: MemoryBuffer)
    requires 0 < blockSize <= platform.sizeMax && INITIAL_CAPACITY <= platform.sizeMax
    ensures blockBuffer != null ==> blockBuffer.Length >= blockSize && fresh(blockBuffer)
    ensures encodedBlock.Valid() && fresh(encodedBlock.Repr()) && encodedBlock.platform == platform
    ensures blockBuffer != null ==> blockBuffer !in encodedBlock.Repr()
    ensures platform.plentiful ==> blockBuffer != null
  {
    var buffer := new MemoryBuffer(platform);
    encodedBlock := new MemoryBuffer(platform);
    var sized := buffer.Resize(blockSize);
    blockBuffer := if sized then buffer.data else null;
  }

  // Everything between opening the sink and ending the session.
  method CompressOpened(blockSize: uint32, window: nat, source: Source, sink: Sink, flag: CancelFlag?,
                        platform: Platform)
    returns (run: Run, ghost chunks: seq<seq<byte>>, ghost flagged: bool, ghost work: seq<Call>, ghost cancelled: bool)
    requires source.Valid() && source.isOpen && source.position == 0 && sink.isOpen && sink.staged == []
    requires source.steady ==> (source.atEnd <==> source.data == [])
    requires 0 < blockSize <= platform.sizeMax && INITIAL_CAPACITY <= platform.sizeMax && sink.written == 0
    modifies source, sink, flag
    ensures source.Valid()
    ensures (old(source.faulted) ==> source.faulted) && (old(sink.faulted) ==> sink.faulted)
    ensures sink.calls == old(sink.calls) + work
    ensures if run.error == Ok then Committed(work) else Stopped(work)
    ensures run.error != Ok ==> sink.destination == old(sink.destination)
    ensures run.error == Ok ==>
              && Chunks(chunks, blockSize) && (flagged ==> chunks != [])
              && AllTaken(source.data, source.steady, chunks, flagged, blockSize, run.inputBytes, run.blocks)
              && sink.destination == WrittenContainer(chunks, flagged, blockSize, window, source.known)
              && run.outputBytes == (if sink.releases then 0 else |sink.destination|)
    ensures cancelled ==> run.error == Cancelled && flag != null && flag.requested
    ensures run.inputBytes == source.position
    ensures run.error == Ok && flag != null ==> !flag.requested
    ensures run.error == Ok ==>
              && |work| == 2 + 2 * |chunks| + (if flagged then 0 else 1)
              && (flag != null ==> flag.checks == old(flag.checks) + |chunks| + 2)
    ensures flag != null && old(flag.requested) ==> run.error != Ok
    ensures run.error != Ok && !source.Blames(run.error, ReadFailed) && !sink.Blames(run.error) && !cancelled ==>
              run.error == NoMemory && !Roomy(platform, blockSize)
  {
    hide AllWritten, Committed, Stopped, Chunks, FullChunks, Flatten, WrittenContainer, AllTaken;
    run, chunks, flagged, work, cancelled := WriteAll(blockSize, window, source, sink, flag, platform);
    if run.error != Ok {
      return;
    }
    ghost var before := work;
    var err;
    err, work, cancelled := CommitUnlessCancelled(sink, flag, work);
    assert work == before + work[|before|..];
    run := run.(error := err, outputBytes := if err == Ok then sink.written else run.outputBytes);
  }

  function ValidConfig(config: Option<Config>): bool {
    config.Some? && 0 < config.value.blockSize <= 0xFFFF_FFFF && 0 < config.value.windowSize
  }

  // A compression from start to end. When it succeeds, the destination is a written container of
  // exactly the source's data, which reading turns back unless the source lied about its size;
  // otherwise the destination is untouched. Nothing but outside trouble makes it fail.
  method RunCompress(config: Option<Config>, source: Source?, sink: Sink?, allowPartialOutput: bool,
                     flag: CancelFlag?, platform: Platform)
    returns (run: Run, ghost chunks: seq<seq<byte>>, ghost flagged: bool, ghost active: bool,
             ghost work: seq<Call>, ghost trouble: bool)
    requires source != null ==> source.Valid() && !source.faulted
    requires sink != null ==> !sink.faulted
    requires 0xFFFF_FFFF <= platform.sizeMax
    modifies source, sink, flag
    ensures source != null ==> source.Valid()
    ensures active ==> source != null && sink != null && old(sink.calls) <= sink.calls
    ensures active ==> !source.isOpen && !sink.isOpen && run.inputBytes == source.position
    ensures !active ==> run == EmptyRun(run.error)
    ensures active ==> WholeSession(sink.calls[|old(sink.calls)|..], work) && (run.error == Ok <==> Committed(work))
    ensures !active ==> run.error != Ok && work == []
    ensures !active && source != null && sink != null ==>
              if !trouble then sink.calls == old(sink.calls)
              else
                && !source.isOpen && !sink.isOpen
                && (sink.calls == old(sink.calls) + [CloseCall]
                    || sink.calls == old(sink.calls) + [OpenCall(false), CloseCall])
    ensures sink != null && sink.transactional && run.error != Ok ==> sink.destination == old(sink.destination)
    ensures run.error == Ok ==>
              && ValidConfig(config)
              && Chunks(chunks, config.value.blockSize) && Flatten(chunks) == source.data && (flagged ==> chunks != [])
              && sink.destination ==
                 WrittenContainer(chunks, flagged, config.value.blockSize, config.value.windowSize, source.known)
              && run.inputBytes == |source.data| && run.blocks == |chunks|
              && run.outputBytes == (if sink.releases then 0 else |sink.destination|)
    ensures run.error == Ok ==>
              LaidOut(sink.destination, chunks, flagged, config.value.blockSize, config.value.windowSize, source.known)
    ensures run.error == Ok ==>
              ReadContainer(sink.destination) ==
              if source.known == None || source.known.value == |source.data|
              then Accept(source.data, |sink.destination|, |chunks| + (if flagged then 0 else 1))
              else Reject(CorruptData)
    ensures run.error == Ok && source.steady ==>
              chunks == FullChunks(source.data, config.value.blockSize) && flagged == (source.data != [])
    ensures !ValidConfig(config) || source == null || sink == null || !(sink.transactional || allowPartialOutput) ==>
              run.error == InvalidArgument
    ensures ValidConfig(config) && source != null && sink != null && (sink.transactional || allowPartialOutput)
            && !trouble ==>
              run.error == Ok
    ensures run.error == Ok && flag != null ==> !flag.requested
    ensures run.error == Ok ==>
              && |work| == 2 + 2 * |chunks| + (if flagged then 0 else 1)
              && (flag != null ==> flag.checks == old(flag.checks) + |chunks| + 2)
    ensures flag != null && old(flag.requested) ==> run.error != Ok
    ensures trouble ==>
              || (source != null && source.Blames(run.error, ReadFailed)) || (sink != null && sink.Blames(run.error))
              || (run.error == Cancelled && flag != null && flag.requested)
              || (run.error == NoMemory && config.Some? && !Roomy(platform, config.value.blockSize))
  {
    hide ReadContainer, Committed, Stopped, WrittenContainer, Chunks, Flatten, FullChunks, LaidOut;
    chunks, flagged, active, work, trouble := [], false, false, [], false;
    if config == None || source == null || sink == null || config.value.blockSize == 0
       || config.value.windowSize == 0 || config.value.blockSize > 0xFFFF_FFFF {
      run := EmptyRun(InvalidArgument);
      return;
    }
    if !sink.transactional && !allowPartialOutput {
      run := EmptyRun(InvalidArgument);
      return;
    }
    ghost var before := sink.calls;
    var err := source.Open();
    if err != Ok {
      EndSession(source, sink, false, false);
      run, trouble := EmptyRun(err), true;
      return;
    }
    err := sink.Open();
    if err != Ok {
      EndSession(source, sink, false, false);
      run, trouble := EmptyRun(err), true;
      return;
    }
    active := true;
    ghost var cancelled;
    run, chunks, flagged, work, cancelled :=
      CompressOpened(config.value.blockSize, config.value.windowSize, source, sink, flag, platform);
    trouble := run.error != Ok;
    ghost var calls := sink.calls;
    EndSession(source, sink, true, run.error == Ok);
    SessionEnds(before, work, calls, sink.calls, run.error == Ok);
    if run.error == Ok {
      ReadsBack(chunks, flagged, config.value.blockSize, config.value.windowSize, source.known);
      WrittenLaidOut(chunks, flagged, config.value.blockSize, config.value.windowSize, source.known);
    }
  }

  lemma ReadsBack(chunks: seq<seq<byte>>, flagged: bool, blockSize: uint32, window: nat, known: Option<uint64>)
    requires 0 < blockSize && Chunks(chunks, blockSize) && (flagged ==> chunks != [])
    ensures var written := WrittenContainer(chunks, flagged, blockSize, window, known);
            ReadContainer(written) ==
            if known == None || known.value == |Flatten(chunks)|
            then Accept(Flatten(chunks), |written|, |chunks| + (if flagged then 0 else 1))
            else Reject(CorruptData)
  {
    hide ReadContainer, WrittenContainer;
    var written := WrittenContainer(chunks, flagged, blockSize, window, known);
    ContainerRoundTrip(chunks, flagged, blockSize, window, known, []);
    assert written + [] == written;
  }
}
