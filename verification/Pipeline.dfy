/** Whole runs over what other runs wrote: the laws the library exists for. */
module Pipeline {
  import opened Types
  import opened Memory
  import opened Crc32
  import opened EscFormat
  import opened Container
  import opened Streams
  import opened Session
  import opened Written
  import opened Layout
  import Compressing
  import Decompressing

  // Whatever was compressed comes back, byte for byte, through any two sources and sinks, even
  // with other bytes behind the container; and when nothing outside goes wrong, both runs succeed.
  method CompressThenDecompress(config: Config, source: Source, packed: Sink, unpacked: Sink,
                                extra: seq<byte>, steady: bool, platform: Platform)
    returns (first: Run, second: Run, ghost trouble: bool)
    requires source.Valid() && !source.faulted && 0xFFFF_FFFF <= platform.sizeMax
    requires packed != unpacked && !packed.faulted && !unpacked.faulted
    requires packed.transactional && unpacked.transactional
    modifies source, packed, unpacked
    ensures first.error == Ok && second.error == Ok ==>
              && unpacked.destination == source.data
              && first.inputBytes == second.outputBytes == |source.data|
              && second.inputBytes == |packed.destination|
    ensures first.error == Ok && !trouble ==>
              (second.error == Ok <==> source.known == None || source.known.value == |source.data|)
    ensures first.error == Ok && source.steady ==>
              && RoundedUp(first.blocks, |source.data|, config.blockSize)
              && |packed.destination| <=
                 HEADER_SIZE + |source.data| + BLOCK_HEADER_SIZE * (if source.data == [] then 1 else first.blocks)
    ensures first.error != Ok ==> packed.destination == old(packed.destination)
    ensures second.error != Ok ==> unpacked.destination == old(unpacked.destination)
    ensures !trouble && Compressing.ValidConfig(Some(config)) ==> first.error == Ok
    ensures trouble ==>
              || source.faulted || packed.faulted || unpacked.faulted || !steady
              || !Compressing.Roomy(platform, config.blockSize)
  {
    hide ReadContainer, WordContainer, Astray, WrittenContainer, Chunks, Flatten, FullChunks, WholeSession, Committed,
         RoundedUp, LaidOut;
    ghost var chunks, flagged, active, work, trouble1, active2, work2, trouble2;
    first, chunks, flagged, active, work, trouble1 :=
      Compressing.RunCompress(Some(config), source, packed, false, null, platform);
    trouble := trouble1;
    if first.error != Ok {
      return first, EmptyRun(first.error), trouble;
    }
    ContainerRoundTrip(chunks, flagged, config.blockSize, config.windowSize, source.known, extra);
    assert (packed.destination + extra)[..|packed.destination + extra|] == packed.destination + extra;
    WrittenNeverAstray(chunks, flagged, config.blockSize, config.windowSize, source.known, extra,
                       |packed.destination + extra|, platform.sizeMax + 1);
    ContainerSame(packed.destination + extra, platform.sizeMax + 1);
    SteadySize(source.data, config.blockSize, config.windowSize, source.known);
    var restored := new Source(packed.destination + extra, None, steady);
    second, active2, work2, trouble2 :=
      Decompressing.RunDecompress(Some(config), restored, unpacked, false, null, platform);
    trouble := trouble1 || trouble2;
  }

  // The size of a container in terms of the blocks that a compression counts: the empty block that
  // ends an empty container is not among them.
  lemma SteadySize(data: seq<byte>, blockSize: uint32, window: nat, known: Option<uint64>)
    requires blockSize > 0
    ensures var chunks := FullChunks(data, blockSize);
            && Chunks(chunks, blockSize) && (data != [] ==> chunks != [])
            && RoundedUp(|chunks|, |data|, blockSize)
            && |WrittenContainer(chunks, data != [], blockSize, window, known)| <=
               HEADER_SIZE + |data| + BLOCK_HEADER_SIZE * (if data == [] then 1 else |chunks|)
  {
    hide WrittenContainer, WrittenRecords, FullChunks, RoundedUp;
    FullChunksGood(data, blockSize);
    ContainerSize(data, blockSize, window, known);
    WrittenRecordsGood(FullChunks(data, blockSize), data != [], window, WrittenHeader(blockSize, known));
    NoChunks(blockSize);
  }

  lemma NoChunks(blockSize: uint32)
    requires blockSize > 0
    ensures FullChunks([], blockSize) == []
  {
  }

  // A run of one byte from a buffer comes out in 42 bytes, and one more for every 255 from the
  // nineteenth on.
  method CompressRun(config: Config, source: Source, packed: Sink, platform: Platform)
    returns (run: Run, ghost trouble: bool)
    requires source.Valid() && !source.faulted && source.steady && 0xFFFF_FFFF <= platform.sizeMax
    requires packed.transactional && !packed.faulted
    modifies source, packed
    ensures run.error == Ok ==>
              var data := source.data;
              6 <= |data| <= config.blockSize && (forall i | 0 <= i < |data| :: data[i] == data[0]) ==>
                |packed.destination| == 42 + (if |data| < 19 then 0 else (|data| - 19) / 255 + 1)
    ensures !trouble && Compressing.ValidConfig(Some(config)) ==> run.error == Ok
    ensures trouble ==> packed.faulted || !Compressing.Roomy(platform, config.blockSize)
  {
    hide ReadContainer, WrittenContainer, Chunks, Flatten, WholeSession, Committed, RoundedUp, LaidOut;
    ghost var chunks, flagged, active, work;
    run, chunks, flagged, active, work, trouble :=
      Compressing.RunCompress(Some(config), source, packed, false, null, platform);
    ghost var data := source.data;
    if run.error == Ok && 6 <= |data| <= config.blockSize && forall i | 0 <= i < |data| :: data[i] == data[0] {
      RunStored(data, config.blockSize, config.windowSize, source.known);
      assert chunks == [data];
    }
  }

  // A container that was cut short anywhere is reported as corrupt, and nothing is published.
  method DecompressTruncated(config: Config, ghost chunks: seq<seq<byte>>, ghost flagged: bool,
                             ghost blockSize: uint32, ghost window: nat, ghost known: Option<uint64>,
                             packed: seq<byte>, steady: bool, unpacked: Sink, flag: CancelFlag?, platform: Platform)
    returns (run: Run, ghost trouble: bool)
    requires 0 < blockSize && Chunks(chunks, blockSize) && (flagged ==> chunks != [])
    requires packed < WrittenContainer(chunks, flagged, blockSize, window, known)
    requires !unpacked.faulted && unpacked.transactional && 0xFFFF_FFFF <= platform.sizeMax
    modifies unpacked, flag
    ensures run.error != Ok && unpacked.destination == old(unpacked.destination)
    ensures !trouble ==> run.error == CorruptData
    ensures trouble ==>
              || unpacked.faulted || !steady || !platform.plentiful
              || (run.error == Cancelled && flag != null && flag.requested)
  {
    hide ReadContainer, WordContainer, Astray, WrittenContainer, Chunks, WholeSession, Committed;
    ghost var written := WrittenContainer(chunks, flagged, blockSize, window, known);
    WrittenTruncated(chunks, flagged, blockSize, window, known, |packed|);
    assert written[..|packed|] == packed && written + [] == written;
    WrittenNeverAstray(chunks, flagged, blockSize, window, known, [], |packed|, platform.sizeMax + 1);
    ContainerSame(packed, platform.sizeMax + 1);
    var source := new Source(packed, None, steady);
    ghost var active, work;
    run, active, work, trouble := Decompressing.RunDecompress(Some(config), source, unpacked, false, flag, platform);
  }

  // So is a container in which a raw payload was changed inside four consecutive bytes.
  method DecompressDamaged(config: Config, ghost input: seq<byte>, ghost h: Header, ghost records: seq<Record>,
                           ghost output: seq<byte>, ghost consumed: nat, ghost i: nat, ghost payload: seq<byte>,
                           ghost from: nat, ghost to: nat, ghost rest: seq<byte>,
                           packed: seq<byte>, steady: bool, unpacked: Sink, flag: CancelFlag?, platform: Platform)
    returns (run: Run, ghost trouble: bool)
    requires IsContainer(input, h, records, output, consumed)
    requires i < |records| && records[i].header.Raw()
    requires DifferInWindow(records[i].payload, payload, from, to)
    requires packed == HeaderBytes(h) + RecordsBytes(records[i := records[i].(payload := payload)]) + rest
    requires !unpacked.faulted && unpacked.transactional && 0xFFFF_FFFF <= platform.sizeMax
    modifies unpacked, flag
    ensures run.error != Ok && unpacked.destination == old(unpacked.destination)
    ensures !trouble ==> run.error == CorruptData
    ensures trouble ==>
              || unpacked.faulted || !steady || !platform.plentiful
              || (run.error == Cancelled && flag != null && flag.requested)
  {
    hide ReadContainer, WordContainer, Astray, IsContainer, RecordsBytes, HeaderBytes, WholeSession, Committed,
         DifferInWindow;
    RawBurstDetected(input, h, records, output, consumed, i, payload, from, to, rest);
    DamagedNeverAstray(input, h, records, output, consumed, i, payload, from, to, rest, platform.sizeMax + 1);
    ContainerSame(packed, platform.sizeMax + 1);
    var source := new Source(packed, None, steady);
    ghost var active, work;
    run, active, work, trouble := Decompressing.RunDecompress(Some(config), source, unpacked, false, flag, platform);
  }
}
