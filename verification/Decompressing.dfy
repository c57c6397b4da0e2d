/** The reading side of the pipeline: a loop over records, refining the reader whose sums wrap at the
    target's word. */
module Decompressing {
  import opened Types
  import opened Memory
  import opened LzFormat
  import opened LzWordSize
  import opened LzDecoder
  import opened Crc32
  import opened EscFormat
  import opened Container
  import opened Streams
  import opened Session

  // Reads the payload of a block into the stored buffer.
  method TakePayload(source: Source, stored: MemoryBuffer, size: uint32) returns (err: Error)
    requires source.Valid() && source.isOpen && stored.Valid() && size <= stored.sizeMax
    modifies source, stored.Repr()
    ensures source.Valid() && source.isOpen && old(source.position) <= source.position
    ensures old(source.faulted) ==> source.faulted
    ensures stored.Valid() && fresh(stored.Repr() - old(stored.Repr()))
    ensures stored.refusals >= old(stored.refusals)
    ensures stored.refusals != old(stored.refusals) ==> err == NoMemory && !stored.platform.plentiful
    ensures err == Ok ==>
              && source.position == old(source.position) + size
              && stored.Contents() == source.data[old(source.position)..source.position]
    ensures err != Ok && !source.Blames(err, CorruptData) && stored.refusals == old(stored.refusals) ==>
              err == CorruptData && |source.data| < old(source.position) + size
  {
    var sized := stored.Resize(size);
    if !sized {
      return NoMemory;
    }
    if size != 0 {
      err := ReadExact(source, stored.data, size);
    } else {
      err := Ok;
    }
  }

  // What a failure says of a block. InternalError stands for a copy beyond a buffer, which only a
  // wrapped sum can bring about.
  ghost predicate GivenUp(err: Error, outcome: WordOutcome) {
    (err == CorruptData && outcome == Rejects) || (err == InternalError && outcome == OutOfBounds)
  }

  // The content of a block whose payload is in the stored buffer, checked and written out.
  method DeliverBlock(b: BlockHeader, stored: MemoryBuffer, output: MemoryBuffer, sink: Sink)
    returns (err: Error, size: nat, ghost content: seq<byte>)
    requires stored.Valid() && output.Valid() && stored.Repr() !! output.Repr() && sink.isOpen
    requires 0xFFFF_FFFF <= output.sizeMax && stored.size == b.storedSize
    requires b.Raw() ==> b.originalSize == b.storedSize
    modifies output.Repr(), sink
    ensures output.Valid() && fresh(output.Repr() - old(output.Repr())) && sink.isOpen
    ensures output.refusals >= old(output.refusals) && (old(sink.faulted) ==> sink.faulted)
    ensures output.refusals != old(output.refusals) ==> err == NoMemory && !output.platform.plentiful
    ensures sink.destination == old(sink.destination)
    ensures err == Ok ==>
              && WordContent(b, stored.Contents(), output.sizeMax + 1) == Accepts(content)
              && size == |content| && sink.staged == old(sink.staged) + content
              && sink.calls == old(sink.calls) + [WriteCall(true)]
    ensures err != Ok ==> sink.calls == old(sink.calls) || sink.calls == old(sink.calls) + [WriteCall(false)]
    ensures err != Ok && !sink.Blames(err) && output.refusals == old(output.refusals) ==>
              GivenUp(err, WordContent(b, stored.Contents(), output.sizeMax + 1))
  {
    hide MemoryBuffer.Valid, MemoryBuffer.Contents, Decoded, WordDecode, Crc;
    size, content := 0, [];
    if b.Raw() {
      if b.originalSize != b.storedSize {
        return CorruptData, size, content;
      }
      content := stored.Contents();
      err, size := DeliverBytes(b, stored, sink);
    } else {
      var bytes := stored.Snapshot();
      err := Decompress(bytes, b.originalSize, output);
      if err != Ok {
        return;
      }
      content := output.Contents();
      err, size := DeliverBytes(b, output, sink);
    }
  }

  // The checksum over the content, then the content itself.
  method DeliverBytes(b: BlockHeader, buffer: MemoryBuffer, sink: Sink) returns (err: Error, size: nat)
    requires buffer.Valid() && sink.isOpen
    modifies sink
    ensures sink.isOpen && (old(sink.faulted) ==> sink.faulted) && sink.destination == old(sink.destination)
    ensures err == Ok ==>
              && Crc(buffer.Contents()) == b.crc && size == |buffer.Contents()|
              && sink.staged == old(sink.staged) + buffer.Contents()
              && sink.calls == old(sink.calls) + [WriteCall(true)]
    ensures err != Ok ==> sink.calls == old(sink.calls) || sink.calls == old(sink.calls) + [WriteCall(false)]
    ensures err != Ok && !sink.Blames(err) ==> err == CorruptData && Crc(buffer.Contents()) != b.crc
  {
    var bytes := buffer.Snapshot();
    var crc := ComputeCrc(bytes);
    if crc != b.crc {
      return CorruptData, 0;
    }
    err := sink.Write(bytes);
    size := |bytes|;
  }

  method TakeBlockHeader(h: Header, source: Source) returns (err: Error, b: BlockHeader)
    requires source.Valid() && source.isOpen
    modifies source
    ensures source.Valid() && source.isOpen && old(source.position) <= source.position
    ensures old(source.faulted) ==> source.faulted
    ensures err == Ok ==>
              && source.position == old(source.position) + BLOCK_HEADER_SIZE
              && b == DecodedBlockHeader(source.data[old(source.position)..source.position])
              && Bounded(h, b)
              && b.storedSize <= b.originalSize && (b.Raw() ==> b.storedSize == b.originalSize)
    ensures err != Ok && !source.Blames(err, CorruptData) ==>
              && err == CorruptData
              && var start, body := old(source.position), old(source.position) + BLOCK_HEADER_SIZE;
                 |source.data| < body || !Bounded(h, DecodedBlockHeader(source.data[start..body]))
  {
    hide DecodedBlockHeader;
    var head := new byte[BLOCK_HEADER_SIZE];
    err := ReadExact(source, head, BLOCK_HEADER_SIZE);
    if err != Ok {
      b := BlockHeader(0, 0, 0, 0);
      return;
    }
    assert head[..] == head[..BLOCK_HEADER_SIZE];
    err, b := DecodeBlockHeader(head[..]);
    if !Bounded(h, b) {
      err := CorruptData;
    }
  }

  // The reader, from one position of the data on, accepts a record with this content and goes on
  // behind it unless the record is final.
  ghost predicate Passed(h: Header, data: seq<byte>, from: nat, to: nat, content: seq<byte>, final: bool, word: nat)
    requires from <= to <= |data| && word > 0
  {
    WordBlocks(h, data[from..], word) ==
    if final then Accept(content, to - from, 1)
    else After(content, to - from, 1, WordBlocks(h, data[to..], word))
  }

  ghost predicate Refused(h: Header, data: seq<byte>, from: nat, err: Error, word: nat)
    requires from <= |data| && word > 0
  {
    FailsAs(err, WordBlocks(h, data[from..], word))
  }

  ghost predicate FailsAs(err: Error, reading: Reading) {
    match reading
    case Accept(_, _, _) => false
    case Reject(error) => err == error
    case Undefined => err == InternalError
  }

  // A header and a payload that follow each other in the data, within bounds.
  ghost predicate FrameAt(h: Header, data: seq<byte>, from: nat, b: BlockHeader, payload: seq<byte>) {
    var body, end := from + BLOCK_HEADER_SIZE, from + BLOCK_HEADER_SIZE + |payload|;
    && end <= |data| && b == DecodedBlockHeader(data[from..body]) && Bounded(h, b)
    && payload == data[body..end] && |payload| == b.storedSize
  }

  // The frame of one record: header, bounds, payload. Without outside trouble it fails only where
  // the reader does.
  method TakeFrame(h: Header, source: Source, stored: MemoryBuffer)
    returns (err: Error, b: BlockHeader, ghost excused: bool)
    requires source.Valid() && source.isOpen && stored.Valid() && 0xFFFF_FFFF <= stored.sizeMax
    modifies source, stored.Repr()
    ensures source.Valid() && source.isOpen && old(source.position) <= source.position <= |source.data|
    ensures old(source.faulted) ==> source.faulted
    ensures stored.Valid() && fresh(stored.Repr() - old(stored.Repr()))
    ensures err == Ok ==>
              && FrameAt(h, source.data, old(source.position), b, stored.Contents())
              && source.position == old(source.position) + BLOCK_HEADER_SIZE + |stored.Contents()|
              && (b.Raw() ==> b.storedSize == b.originalSize)
    ensures excused ==> err == NoMemory && !stored.platform.plentiful
    ensures err != Ok && !source.Blames(err, CorruptData) && !excused ==>
              Refused(h, source.data, old(source.position), err, stored.sizeMax + 1)
  {
    hide MemoryBuffer.Valid, MemoryBuffer.Contents, DecodedBlockHeader, Bounded, Refused, BlockHeader.Raw;
    excused := false;
    ghost var start := source.position;
    err, b := TakeBlockHeader(h, source);
    if err != Ok {
      NoHeader(h, source.data, start, err, stored.sizeMax + 1);
      return;
    }
    err := TakePayload(source, stored, b.storedSize);
    if err != Ok {
      NoPayload(h, source.data, start, err, stored.sizeMax + 1);
      excused := stored.refusals != old(stored.refusals);
    }
  }

  // One record: its frame, then its content.
  method TakeRecord(h: Header, source: Source, sink: Sink, stored: MemoryBuffer, output: MemoryBuffer)
    returns (err: Error, final: bool, size: nat, ghost content: seq<byte>, ghost excused: bool)
    requires source.Valid() && source.isOpen && sink.isOpen
    requires stored.Valid() && output.Valid() && stored.Repr() !! output.Repr()
    requires stored.platform == output.platform && 0xFFFF_FFFF <= output.sizeMax
    modifies source, sink, stored.Repr(), output.Repr()
    ensures source.Valid() && source.isOpen && sink.isOpen && old(source.position) <= source.position <= |source.data|
    ensures (old(source.faulted) ==> source.faulted) && (old(sink.faulted) ==> sink.faulted)
    ensures stored.Valid() && output.Valid() && stored.Repr() !! output.Repr()
    ensures fresh(stored.Repr() - old(stored.Repr())) && fresh(output.Repr() - old(output.Repr()))
    ensures sink.destination == old(sink.destination)
    ensures err == Ok ==>
              && old(source.position) < source.position
              && sink.calls == old(sink.calls) + [WriteCall(true)]
              && sink.staged == old(sink.staged) + content && size == |content|
              && Passed(h, source.data, old(source.position), source.position, content, final, output.sizeMax + 1)
    ensures err != Ok ==> sink.calls == old(sink.calls) || sink.calls == old(sink.calls) + [WriteCall(false)]
    ensures excused ==> err == NoMemory && !output.platform.plentiful
    ensures err != Ok && !source.Blames(err, CorruptData) && !sink.Blames(err) && !excused ==>
              Refused(h, source.data, old(source.position), err, output.sizeMax + 1)
  {
    hide MemoryBuffer.Valid, MemoryBuffer.Contents, FrameAt, BlockHeader.Final, BlockHeader.Raw, Passed, Refused,
         GivenUp;
    ghost var start := source.position;
    size, content, final := 0, [], false;
    var b;
    err, b, excused := TakeFrame(h, source, stored);
    if err != Ok {
      return;
    }
    final := b.Final();
    ghost var payload := stored.Contents();
    FrameSize(h, source.data, start, b, payload);
    err, size, content := DeliverBlock(b, stored, output, sink);
    excused := output.refusals != old(output.refusals);
    RecordTaken(h, source.data, start, b, payload, content, err, output.sizeMax + 1);
  }

  lemma FrameSize(h: Header, data: seq<byte>, from: nat, b: BlockHeader, payload: seq<byte>)
    requires FrameAt(h, data, from, b, payload)
    ensures |payload| == b.storedSize && from <= |data|
  {
  }

  lemma NoHeader(h: Header, data: seq<byte>, start: nat, err: Error, word: nat)
    requires start <= |data| && word > 0
    ensures err == CorruptData
            && (|data| < start + BLOCK_HEADER_SIZE
                || !Bounded(h, DecodedBlockHeader(data[start..start + BLOCK_HEADER_SIZE]))) ==>
              Refused(h, data, start, err, word)
  {
    BlocksAt(h, data, start, word);
  }

  lemma NoPayload(h: Header, data: seq<byte>, start: nat, err: Error, word: nat)
    requires start + BLOCK_HEADER_SIZE <= |data| && word > 0
    ensures var body := start + BLOCK_HEADER_SIZE;
            err == CorruptData && |data| < body + DecodedBlockHeader(data[start..body]).storedSize ==>
              Refused(h, data, start, err, word)
  {
    BlocksAt(h, data, start, word);
  }

  lemma RecordTaken(h: Header, data: seq<byte>, start: nat, b: BlockHeader, payload: seq<byte>,
                    content: seq<byte>, err: Error, word: nat)
    requires FrameAt(h, data, start, b, payload) && start <= |data| && word > 0
    ensures var end := start + BLOCK_HEADER_SIZE + |payload|;
            && end <= |data|
            && (WordContent(b, payload, word) == Accepts(content) ==>
                  Passed(h, data, start, end, content, b.Final(), word))
            && (GivenUp(err, WordContent(b, payload, word)) ==> Refused(h, data, start, err, word))
  {
    hide WordContent, Bounded, DecodedBlockHeader, WordBlocks;
    BlocksAt(h, data, start, word);
  }

  // The reader at a position of the data, one record unfolded.
  lemma BlocksAt(h: Header, data: seq<byte>, start: nat, word: nat)
    requires start <= |data| && word > 0
    ensures WordBlocks(h, data[start..], word) ==
            var body := start + BLOCK_HEADER_SIZE;
            if |data| < body then Reject(CorruptData)
            else
              var b := DecodedBlockHeader(data[start..body]);
              var end := body + b.storedSize;
              if !Bounded(h, b) || |data| < end then Reject(CorruptData)
              else
                match WordContent(b, data[body..end], word)
                case Rejects => Reject(CorruptData)
                case OutOfBounds => Undefined
                case Accepts(content) =>
                  if b.Final() then Accept(content, end - start, 1)
                  else After(content, end - start, 1, WordBlocks(h, data[end..], word))
  {
    hide WordContent, Bounded, DecodedBlockHeader;
    var input := data[start..];
    if |input| >= BLOCK_HEADER_SIZE {
      SameBlockHeader(input, BLOCK_HEADER_SIZE);
      assert input[..BLOCK_HEADER_SIZE] == data[start..start + BLOCK_HEADER_SIZE];
      var b := DecodedBlockHeader(input);
      var size := BLOCK_HEADER_SIZE + b.storedSize;
      if |input| >= size {
        assert input[BLOCK_HEADER_SIZE..size] == data[start + BLOCK_HEADER_SIZE..start + size];
        assert input[size..] == data[start + size..];
      }
    }
  }

  /* ---- the run ---- */

  method TakeHeader(source: Source) returns (err: Error, h: Header)
    requires source.Valid() && source.isOpen && source.position == 0
    modifies source
    ensures source.Valid() && source.isOpen && (old(source.faulted) ==> source.faulted)
    ensures err == Ok ==>
              && source.position == HEADER_SIZE && HeaderError(h) == Ok
              && DecodedHeader(source.data) == Some(h)
    ensures err != Ok && !source.Blames(err, CorruptData) ==>
              forall word | word > 0 :: WordContainer(source.data, word) == Reject(err)
  {
    hide DecodedHeader;
    var head := new byte[HEADER_SIZE];
    err := ReadExact(source, head, HEADER_SIZE);
    if err != Ok {
      h := Header(0, 0, 0, 0, 0);
      HeaderTooShort(source.data);
      return;
    }
    assert head[..] == head[..HEADER_SIZE];
    SameHeader(source.data, HEADER_SIZE);
    err, h := DecodeHeader(head[..]);
    if err != Ok {
      return;
    }
    if h.version != FORMAT_VERSION {
      err := UnsupportedVersion;
    } else if h.algorithm != ALGORITHM_LZ_LITE {
      err := UnsupportedAlgorithm;
    } else if h.blockSize == 0 {
      err := CorruptData;
    }
  }

  lemma AfterTwice(a: seq<byte>, n: nat, k: nat, c: seq<byte>, m: nat, rest: Reading)
    ensures After(a, n, k, After(c, m, 1, rest)) == After(a + c, n + m, k + 1, rest)
  {
    if rest.Accept? {
      assert a + (c + rest.output) == a + c + rest.output;
    }
  }

  // What is still to come after the blocks delivered so far.
  ghost function Pending(h: Header, data: seq<byte>, position: nat, final: bool, word: nat): Reading
    requires position <= |data| && word > 0
  {
    if final then Accept([], 0, 0) else WordBlocks(h, data[position..], word)
  }

  // Everything delivered so far, followed by what the reader makes of the rest, is what it makes of
  // the whole.
  ghost predicate OnTrack(h: Header, data: seq<byte>, output: seq<byte>, position: nat, blocks: nat,
                          final: bool, word: nat)
    requires position <= |data| && word > 0
  {
    WordContainer(data, word) == Totalled(h, After(output, position, blocks, Pending(h, data, position, final, word)))
  }

  // What a run has counted, however it ended: whole blocks, and no input before the first of them.
  ghost predicate Counted(run: Run, work: seq<Call>, position: nat) {
    && run.blocks <= |work| <= run.blocks + 1 && run.inputBytes <= position
    && (run.blocks == 0 ==> run.inputBytes == 0 && run.outputBytes == 0)
  }

  // Why a run may fail although the reader does not reject: memory, a cancel, or data on which the
  // program is undefined.
  ghost predicate Excused(err: Error, platform: Platform, flag: CancelFlag?, data: seq<byte>)
    reads flag
  {
    || (err == NoMemory && !platform.plentiful)
    || (err == Cancelled && flag != null && flag.requested)
    || (err == InternalError && WordContainer(data, platform.sizeMax + 1) == Undefined)
  }

  // The calls behind one record.
  ghost predicate OneCall(calls: seq<Call>, ok: bool) {
    if ok then calls == [WriteCall(true)] else calls == [] || calls == [WriteCall(false)]
  }

  lemma MoreCalls(work: seq<Call>, calls: seq<Call>, ok: bool)
    requires AllWritten(work) && OneCall(calls, ok)
    ensures if ok then AllWritten(work + calls) else Stopped(work + calls)
    ensures |work| <= |work + calls| <= |work| + 1 && (ok ==> |work + calls| == |work| + 1)
  {
    OneMoreCall(work, ok);
    assert work + [] == work;
  }

  // One round of the loop: a record, unless the flag has been raised by now.
  method TakeNext(h: Header, source: Source, sink: Sink, flag: CancelFlag?, stored: MemoryBuffer, output: MemoryBuffer)
    returns (err: Error, final: bool, size: nat, ghost content: seq<byte>, ghost calls: seq<Call>, ghost excused: bool)
    requires source.Valid() && source.isOpen && sink.isOpen
    requires stored.Valid() && output.Valid() && stored.Repr() !! output.Repr()
    requires stored.platform == output.platform && 0xFFFF_FFFF <= output.sizeMax
    modifies source, sink, flag, stored.Repr(), output.Repr()
    ensures source.Valid() && source.isOpen && sink.isOpen && old(source.position) <= source.position <= |source.data|
    ensures (old(source.faulted) ==> source.faulted) && (old(sink.faulted) ==> sink.faulted)
    ensures stored.Valid() && output.Valid() && stored.Repr() !! output.Repr()
    ensures fresh(stored.Repr() - old(stored.Repr())) && fresh(output.Repr() - old(output.Repr()))
    ensures sink.destination == old(sink.destination)
    ensures sink.calls == old(sink.calls) + calls && OneCall(calls, err == Ok)
    ensures err == Ok ==>
              && old(source.position) < source.position
              && sink.staged == old(sink.staged) + content && size == |content|
              && Passed(h, source.data, old(source.position), source.position, content, final, output.sizeMax + 1)
    ensures flag != null && old(flag.requested) ==> err != Ok && flag.requested
    ensures flag != null ==> flag.checks == old(flag.checks) + 1
    ensures excused ==>
              || (err == NoMemory && !output.platform.plentiful)
              || (err == Cancelled && flag != null && flag.requested)
    ensures err != Ok && !source.Blames(err, CorruptData) && !sink.Blames(err) && !excused ==>
              Refused(h, source.data, old(source.position), err, output.sizeMax + 1)
  {
    hide MemoryBuffer.Valid, MemoryBuffer.Contents, Passed, Refused;
    final, size, content, calls := false, 0, [], [];
    var stop := IsCancelled(flag);
    if stop {
      err, excused := Cancelled, true;
      return;
    }
    err, final, size, content, excused := TakeRecord(h, source, sink, stored, output);
    calls := sink.calls[|old(sink.calls)|..];
  }

  // The loop over records.
  method TakeRecords(h: Header, source: Source, sink: Sink, flag: CancelFlag?, platform: Platform)
    returns (run: Run, ghost work: seq<Call>, ghost excused: bool)
    requires source.Valid() && source.isOpen && sink.isOpen && sink.staged == []
    requires source.position == HEADER_SIZE && 0xFFFF_FFFF <= platform.sizeMax
    requires DecodedHeader(source.data) == Some(h) && HeaderError(h) == Ok
    modifies source, sink, flag
    ensures source.Valid() && sink.isOpen
    ensures (old(source.faulted) ==> source.faulted) && (old(sink.faulted) ==> sink.faulted)
    ensures sink.destination == old(sink.destination) && sink.calls == old(sink.calls) + work
    ensures if run.error == Ok then AllWritten(work) else Stopped(work)
    ensures run.error == Ok ==>
              && WordContainer(source.data, platform.sizeMax + 1) ==
                 Totalled(h, Accept(sink.staged, run.inputBytes, run.blocks))
              && run.outputBytes == |sink.staged| && run.inputBytes == source.position
    ensures run.error == Ok ==> |work| == run.blocks && (flag != null ==> flag.checks == old(flag.checks) + run.blocks)
    ensures flag != null && old(flag.requested) ==> run.error != Ok
    ensures Counted(run, work, source.position)
    ensures excused ==> Excused(run.error, platform, flag, source.data)
    ensures run.error != Ok && !source.Blames(run.error, CorruptData) && !sink.Blames(run.error) && !excused ==>
              WordContainer(source.data, platform.sizeMax + 1) == Reject(run.error)
  {
    hide WordBlocks, DecodedHeader, MemoryBuffer.Valid, MemoryBuffer.Contents, HeaderError, WordContainer,
         After, Totalled, Pending, AllWritten, Stopped, Passed, Refused, OnTrack, OneCall;
    ghost var word := platform.sizeMax + 1;
    TrackStarts(h, source.data, word);
    var stored := new MemoryBuffer(platform);
    var output := new MemoryBuffer(platform);
    run, work, excused := EmptyRun(Ok), [], false;
    var final := false;
    while !final
      invariant source.Valid() && source.isOpen && sink.isOpen && source.position <= |source.data|
      invariant (old(source.faulted) ==> source.faulted) && (old(sink.faulted) ==> sink.faulted)
      invariant stored.Valid() && output.Valid() && stored.Repr() !! output.Repr()
      invariant fresh(stored) && (stored.data != null ==> fresh(stored.data))
      invariant fresh(output) && (output.data != null ==> fresh(output.data))
      invariant stored.platform == output.platform == platform
      invariant sink.destination == old(sink.destination)
      invariant sink.calls == old(sink.calls) + work && AllWritten(work)
      invariant !excused && run.error == Ok
      invariant flag != null && old(flag.requested) ==> flag.requested && !final
      invariant |work| == run.blocks && (flag != null ==> flag.checks == old(flag.checks) + run.blocks)
      invariant Counted(run, work, source.position) && run.outputBytes == |sink.staged|
      invariant final ==> run.inputBytes == source.position
      invariant OnTrack(h, source.data, sink.staged, source.position, run.blocks, final, word)
      decreases |source.data| - source.position, !final
    {
      ghost var staged, position := sink.staged, source.position;
      var err, last, size;
      ghost var content, calls;
      err, last, size, content, calls, excused := TakeNext(h, source, sink, flag, stored, output);
      MoreCalls(work, calls, err == Ok);
      work := work + calls;
      if err != Ok {
        TrackRefused(h, source.data, staged, position, run.blocks, err, word);
        excused := excused
                   || (Refused(h, source.data, position, err, word) && WordContainer(source.data, word) == Undefined);
        run := run.(error := err);
        return;
      }
      final := last;
      TrackGoesOn(h, source.data, staged, content, position, source.position, run.blocks, final, word);
      run := Run(Ok, source.position, run.outputBytes + size, run.blocks + 1);
    }
    TrackEnds(h, source.data, sink.staged, source.position, run.blocks, word);
  }

  lemma TrackStarts(h: Header, data: seq<byte>, word: nat)
    requires DecodedHeader(data) == Some(h) && HeaderError(h) == Ok && word > 0
    ensures |data| >= HEADER_SIZE && OnTrack(h, data, [], HEADER_SIZE, 0, false, word) && AllWritten([])
  {
    hide WordBlocks;
  }

  lemma TrackRefused(h: Header, data: seq<byte>, output: seq<byte>, position: nat, blocks: nat, err: Error, word: nat)
    requires position <= |data| && word > 0
    requires OnTrack(h, data, output, position, blocks, false, word)
    ensures Refused(h, data, position, err, word) ==>
              if WordContainer(data, word) == Undefined then err == InternalError
              else WordContainer(data, word) == Reject(err)
  {
    hide WordContainer, WordBlocks;
  }

  lemma TrackEnds(h: Header, data: seq<byte>, output: seq<byte>, position: nat, blocks: nat, word: nat)
    requires position <= |data| && word > 0
    requires OnTrack(h, data, output, position, blocks, true, word)
    ensures WordContainer(data, word) == Totalled(h, Accept(output, position, blocks))
  {
    hide WordContainer;
    assert output + [] == output;
  }

  // A record delivered moves from what is pending to what has been delivered.
  lemma TrackGoesOn(h: Header, data: seq<byte>, output: seq<byte>, content: seq<byte>,
                    position: nat, position': nat, blocks: nat, final: bool, word: nat)
    requires position <= position' <= |data| && word > 0
    requires OnTrack(h, data, output, position, blocks, false, word)
    requires Passed(h, data, position, position', content, final, word)
    ensures OnTrack(h, data, output + content, position', blocks + 1, final, word)
  {
    hide WordContainer, WordBlocks, Totalled;
    assert content + [] == content;
    AfterTwice(output, position, blocks, content, position' - position, Pending(h, data, position', final, word));
  }

  // The whole container: header, records, and the total the header promised.
  method TakeContainer(source: Source, sink: Sink, flag: CancelFlag?, platform: Platform)
    returns (run: Run, ghost work: seq<Call>, ghost excused: bool)
    requires source.Valid() && source.isOpen && sink.isOpen && sink.staged == []
    requires source.position == 0 && 0xFFFF_FFFF <= platform.sizeMax
    modifies source, sink, flag
    ensures source.Valid() && sink.isOpen
    ensures (old(source.faulted) ==> source.faulted) && (old(sink.faulted) ==> sink.faulted)
    ensures sink.destination == old(sink.destination) && sink.calls == old(sink.calls) + work
    ensures if run.error == Ok then AllWritten(work) else Stopped(work)
    ensures run.error == Ok ==>
              && WordContainer(source.data, platform.sizeMax + 1) == Accept(sink.staged, run.inputBytes, run.blocks)
              && run.outputBytes == |sink.staged| && run.inputBytes == source.position
    ensures Counted(run, work, source.position)
    ensures excused ==> Excused(run.error, platform, flag, source.data)
    ensures run.error == Ok ==> |work| == run.blocks && (flag != null ==> flag.checks == old(flag.checks) + run.blocks)
    ensures flag != null && old(flag.requested) ==> run.error != Ok
    ensures run.error != Ok && !source.Blames(run.error, CorruptData) && !sink.Blames(run.error) && !excused ==>
              WordContainer(source.data, platform.sizeMax + 1) == Reject(run.error)
  {
    hide WordContainer, DecodedHeader, HeaderError, Committed;
    work, excused := [], false;
    var err, h := TakeHeader(source);
    if err != Ok {
      return EmptyRun(err), work, excused;
    }
    run, work, excused := TakeRecords(h, source, sink, flag, platform);
    if run.error != Ok {
      return;
    }
    if !h.UnknownSize() && run.outputBytes != h.originalSize {
      OneMoreCall(work, true);
      run := run.(error := CorruptData);
    }
  }

  // Everything between opening the sink and ending the session. `work` is what the sink was
  // called with; it ends in a successful commit exactly when the run succeeded.
  method DecompressOpened(source: Source, sink: Sink, flag: CancelFlag?, platform: Platform)
    returns (run: Run, ghost work: seq<Call>, ghost excused: bool)
    requires source.Valid() && source.isOpen && sink.isOpen && sink.staged == []
    requires source.position == 0 && 0xFFFF_FFFF <= platform.sizeMax
    modifies source, sink, flag
    ensures source.Valid()
    ensures (old(source.faulted) ==> source.faulted) && (old(sink.faulted) ==> sink.faulted)
    ensures sink.calls == old(sink.calls) + work
    ensures if run.error == Ok then Committed(work) else Stopped(work)
    ensures run.error != Ok ==> sink.destination == old(sink.destination)
    ensures run.error == Ok ==>
              && WordContainer(source.data, platform.sizeMax + 1) ==
                 Accept(sink.destination, run.inputBytes, run.blocks)
              && run.outputBytes == |sink.destination| && run.inputBytes == source.position
    ensures Counted(run, work, source.position)
    ensures excused ==> Excused(run.error, platform, flag, source.data)
    ensures run.error == Ok && flag != null ==> !flag.requested
    ensures run.error == Ok ==>
              |work| == run.blocks + 1 && (flag != null ==> flag.checks == old(flag.checks) + run.blocks + 1)
    ensures flag != null && old(flag.requested) ==> run.error != Ok
    ensures run.error != Ok && !source.Blames(run.error, CorruptData) && !sink.Blames(run.error) && !excused ==>
              WordContainer(source.data, platform.sizeMax + 1) == Reject(run.error)
  {
    hide WordContainer, AllWritten, Committed, Stopped, Source.Valid;
    run, work, excused := TakeContainer(source, sink, flag, platform);
    if run.error != Ok {
      return;
    }
    ghost var written := work;
    var err;
    err, work, excused := CommitUnlessCancelled(sink, flag, work);
    assert work == written + work[|written|..];
    run := run.(error := err);
  }

  // A decompression from start to end: on every target it succeeds exactly when that target's reader
  // accepts the input, whatever the reads looked like, unless something outside went wrong; and only
  // then the destination changes. `ContainerSame` and `ReaderLimitExact` say when that reader is the
  // reference reader.
  method RunDecompress(config: Option<Config>, source: Source?, sink: Sink?, allowPartialOutput: bool,
                       flag: CancelFlag?, platform: Platform)
    returns (run: Run, ghost active: bool, ghost work: seq<Call>, ghost trouble: bool)
    requires source != null ==> source.Valid() && !source.faulted
    requires sink != null ==> !sink.faulted
    requires 0xFFFF_FFFF <= platform.sizeMax
    modifies source, sink, flag
    ensures source != null ==> source.Valid()
    ensures active ==> source != null && sink != null && old(sink.calls) <= sink.calls
    ensures active ==> !source.isOpen && !sink.isOpen && Counted(run, work, source.position)
    ensures !active ==> run == EmptyRun(run.error)
    ensures active ==> WholeSession(sink.calls[|old(sink.calls)|..], work) && (run.error == Ok <==> Committed(work))
    ensures !active ==> run.error != Ok && work == []
    ensures !active && source != null && sink != null ==>
              if !trouble then sink.calls == old(sink.calls)
              else
                && !source.isOpen && !sink.isOpen
                && (sink.calls == old(sink.calls) + [CloseCall]
                    || sink.calls == old(sink.calls) + [OpenCall(false), CloseCall])
    ensures sink != null && sink.transactional && run.error != Ok ==> sink.destination == old(sink.destination)
    ensures run.error == Ok ==>
              && WordContainer(source.data, platform.sizeMax + 1) ==
                 Accept(sink.destination, run.inputBytes, run.blocks)
              && run.outputBytes == |sink.destination| && run.inputBytes == source.position
    ensures config == None || source == null || sink == null || !(sink.transactional || allowPartialOutput) ==>
              run.error == InvalidArgument
    ensures active && run.error != Ok && !trouble ==>
              WordContainer(source.data, platform.sizeMax + 1) == Reject(run.error)
    ensures !active && !trouble ==>
              config == None || source == null || sink == null || !(sink.transactional || allowPartialOutput)
    ensures run.error == Ok && flag != null ==> !flag.requested
    ensures run.error == Ok ==>
              |work| == run.blocks + 1 && (flag != null ==> flag.checks == old(flag.checks) + run.blocks + 1)
    ensures flag != null && old(flag.requested) ==> run.error != Ok
    ensures trouble ==>
              || (source != null && source.Blames(run.error, CorruptData)) || (sink != null && sink.Blames(run.error))
              || (source != null && Excused(run.error, platform, flag, source.data))
  {
    hide WordContainer, Committed, Stopped;
    active, work, trouble := false, [], false;
    if config == None || source == null || sink == null {
      return EmptyRun(InvalidArgument), active, work, trouble;
    }
    if !sink.transactional && !allowPartialOutput {
      return EmptyRun(InvalidArgument), active, work, trouble;
    }
    ghost var before := sink.calls;
    var err := source.Open();
    if err != Ok {
      EndSession(source, sink, false, false);
      return EmptyRun(err), active, work, true;
    }
    err := sink.Open();
    if err != Ok {
      EndSession(source, sink, false, false);
      return EmptyRun(err), active, work, true;
    }
    active := true;
    ghost var excused;
    run, work, excused := DecompressOpened(source, sink, flag, platform);
    trouble := run.error != Ok && (source.Blames(run.error, CorruptData) || sink.Blames(run.error) || excused);
    ghost var calls := sink.calls;
    EndSession(source, sink, true, run.error == Ok);
    SessionEnds(before, work, calls, sink.calls, run.error == Ok);
  }
}
