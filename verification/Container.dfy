/** The `.esc` container as a language of bytes, and the reader that recognises it. */
module Container {
  import opened Types
  import opened LzFormat
  import opened LzWordSize
  import opened Crc32
  import opened EscFormat

  /* ---- the reference reader ---- */

  // `consumed` counts the bytes of the container itself; what follows them is never looked at. What
  // is undefined comes of a sum that wraps around, never of the reference reader.
  datatype Reading = Accept(output: seq<byte>, consumed: nat, blocks: nat) | Reject(error: Error) | Undefined

  predicate Bounded(h: Header, b: BlockHeader) {
    if b.originalSize == 0 && !b.Final() then false
    else if b.originalSize > h.blockSize then false
    else if b.storedSize > b.originalSize then false
    else if b.Raw() && b.storedSize != b.originalSize then false
    else true
  }

  ghost function Content(b: BlockHeader, payload: seq<byte>): Option<seq<byte>> {
    var decoded := if b.Raw() then Some(payload) else Decoded(payload, b.originalSize);
    match decoded
    case None => None
    case Some(content) => if Crc(content) == b.crc then decoded else None
  }

  // The outcome when `output`, `consumed` and `blocks` come before an outcome.
  function After(output: seq<byte>, consumed: nat, blocks: nat, rest: Reading): Reading {
    match rest
    case Accept(o, c, b) => Accept(output + o, consumed + c, blocks + b)
    case _ => rest
  }

  ghost function ReadBlocks(h: Header, input: seq<byte>): (r: Reading)
    ensures r.Accept? ==> r.consumed <= |input|
    decreases |input|
  {
    if |input| < BLOCK_HEADER_SIZE then Reject(CorruptData)
    else
      var b := DecodedBlockHeader(input);
      if !Bounded(h, b) then Reject(CorruptData)
      else if |input| < BLOCK_HEADER_SIZE + b.storedSize then Reject(CorruptData)
      else
        var size := BLOCK_HEADER_SIZE + b.storedSize;
        match Content(b, input[BLOCK_HEADER_SIZE..size])
        case None => Reject(CorruptData)
        case Some(content) =>
          if b.Final() then Accept(content, size, 1)
          else After(content, size, 1, ReadBlocks(h, input[size..]))
  }

  // The total promised by the header, when it promises one.
  function Totalled(h: Header, r: Reading): Reading {
    if r.Accept? && !h.UnknownSize() && |r.output| != h.originalSize then Reject(CorruptData) else r
  }

  function HeaderError(h: Header): Error {
    if h.version != FORMAT_VERSION then UnsupportedVersion
    else if h.algorithm != ALGORITHM_LZ_LITE then UnsupportedAlgorithm
    else if h.blockSize == 0 then CorruptData
    else Ok
  }

  ghost function ReadContainer(input: seq<byte>): (r: Reading)
    ensures r.Accept? ==> HEADER_SIZE <= r.consumed <= |input|
  {
    match DecodedHeader(input)
    case None => Reject(CorruptData)
    case Some(h) =>
      if HeaderError(h) != Ok then Reject(HeaderError(h))
      else Totalled(h, After([], HEADER_SIZE, 0, ReadBlocks(h, input[HEADER_SIZE..])))
  }

  /* ---- the grammar ---- */

  datatype Record = Record(header: BlockHeader, payload: seq<byte>)

  function RecordBytes(r: Record): seq<byte> {
    BlockHeaderBytes(r.header) + r.payload
  }

  function RecordsBytes(records: seq<Record>): seq<byte> {
    if records == [] then [] else RecordBytes(records[0]) + RecordsBytes(records[1..])
  }

  // The record is laid out consistently; its content may still be bad.
  ghost predicate Framed(h: Header, r: Record) {
    |r.payload| == r.header.storedSize && Bounded(h, r.header)
  }

  ghost predicate WellFormed(h: Header, r: Record) {
    Framed(h, r) && Content(r.header, r.payload).Some?
  }

  // Well-formed records, of which the last one and no other is final.
  ghost predicate ValidRecords(h: Header, records: seq<Record>) {
    && records != []
    && forall i | 0 <= i < |records| ::
      WellFormed(h, records[i]) && (records[i].header.Final() <==> i == |records| - 1)
  }

  ghost function Contents(h: Header, records: seq<Record>): seq<byte>
    requires forall i | 0 <= i < |records| :: WellFormed(h, records[i])
  {
    if records == [] then []
    else
      assert WellFormed(h, records[0]);
      Content(records[0].header, records[0].payload).value + Contents(h, records[1..])
  }

  ghost predicate IsContainer(input: seq<byte>, h: Header, records: seq<Record>, output: seq<byte>, consumed: nat) {
    && HeaderError(h) == Ok
    && ValidRecords(h, records)
    && consumed <= |input| && input[..consumed] == HeaderBytes(h) + RecordsBytes(records)
    && output == Contents(h, records)
    && (h.UnknownSize() || |output| == h.originalSize)
  }

  // One record at the front of the input, whether its content is good or bad.
  lemma ReadRecord(h: Header, r: Record, rest: seq<byte>)
    requires Framed(h, r)
    ensures ReadBlocks(h, RecordBytes(r) + rest) ==
            match Content(r.header, r.payload)
            case None => Reject(CorruptData)
            case Some(content) =>
              if r.header.Final() then Accept(content, |RecordBytes(r)|, 1)
              else After(content, |RecordBytes(r)|, 1, ReadBlocks(h, rest))
  {
    hide Content, Bounded, BlockHeaderBytes, DecodedBlockHeader;
    var input := RecordBytes(r) + rest;
    var size := BLOCK_HEADER_SIZE + |r.payload|;
    assert input == BlockHeaderBytes(r.header) + (r.payload + rest);
    BlockHeaderRoundTrip(r.header, r.payload + rest);
    assert input[BLOCK_HEADER_SIZE..size] == r.payload;
    assert input[size..] == rest;
  }

  lemma {:induction false} ReadRecords(h: Header, records: seq<Record>, rest: seq<byte>)
    requires ValidRecords(h, records)
    ensures ReadBlocks(h, RecordsBytes(records) + rest) ==
            Accept(Contents(h, records), |RecordsBytes(records)|, |records|)
  {
    hide Content, Bounded, ReadBlocks, RecordBytes;
    var first, others := records[0], records[1..];
    assert RecordsBytes(records) + rest == RecordBytes(first) + (RecordsBytes(others) + rest);
    ReadRecord(h, first, RecordsBytes(others) + rest);
    if others != [] {
      assert ValidRecords(h, others);
      ReadRecords(h, others, rest);
    } else {
      assert Contents(h, others) == [] && RecordsBytes(others) == [];
    }
  }

  // The record that the reader finds at the front of an input it accepts.
  lemma FirstRecord(h: Header, input: seq<byte>) returns (r: Record)
    requires ReadBlocks(h, input).Accept?
    ensures WellFormed(h, r) && |RecordBytes(r)| <= |input|
    ensures input == RecordBytes(r) + input[|RecordBytes(r)|..]
  {
    hide Content, Bounded;
    var b := DecodedBlockHeader(input);
    var size := BLOCK_HEADER_SIZE + b.storedSize;
    r := Record(b, input[BLOCK_HEADER_SIZE..size]);
    BlockHeaderExact(input);
    assert input == input[..BLOCK_HEADER_SIZE] + input[BLOCK_HEADER_SIZE..size] + input[size..];
  }

  lemma {:induction false} RecordsRead(h: Header, input: seq<byte>) returns (records: seq<Record>)
    requires ReadBlocks(h, input).Accept?
    ensures ValidRecords(h, records)
    ensures var r := ReadBlocks(h, input);
            RecordsBytes(records) == input[..r.consumed] && Contents(h, records) == r.output && |records| == r.blocks
    decreases |input|
  {
    hide Content, Bounded, ReadBlocks, RecordBytes;
    var first := FirstRecord(h, input);
    var size := |RecordBytes(first)|;
    ReadRecord(h, first, input[size..]);
    if first.header.Final() {
      records := [first];
      assert Contents(h, records[1..]) == [] && RecordsBytes(records[1..]) == [];
      assert input[..size] == RecordBytes(first);
    } else {
      RecordSize(first);
      var others := RecordsRead(h, input[size..]);
      records := [first] + others;
      assert records[1..] == others;
      var consumed := ReadBlocks(h, input[size..]).consumed;
      assert input[..size + consumed] == RecordBytes(first) + input[size..][..consumed];
    }
  }

  lemma RecordSize(r: Record)
    ensures |RecordBytes(r)| == BLOCK_HEADER_SIZE + |r.payload|
  {
  }

  lemma ContainerRead(input: seq<byte>, h: Header, records: seq<Record>, output: seq<byte>, consumed: nat)
    requires IsContainer(input, h, records, output, consumed)
    ensures ReadContainer(input) == Accept(output, consumed, |records|)
  {
    hide ReadBlocks, Contents, RecordsBytes, HeaderBytes, DecodedHeader, ValidRecords, HeaderError;
    var rest := input[consumed..];
    assert input == input[..consumed] + rest;
    assert input == HeaderBytes(h) + (RecordsBytes(records) + rest);
    HeaderRoundTrip(h, RecordsBytes(records) + rest);
    assert input[HEADER_SIZE..] == RecordsBytes(records) + rest;
    ReadRecords(h, records, rest);
    assert [] + output == output;
  }

  lemma ContainerParsed(input: seq<byte>) returns (h: Header, records: seq<Record>)
    requires ReadContainer(input).Accept?
    ensures var r := ReadContainer(input);
            IsContainer(input, h, records, r.output, r.consumed) && |records| == r.blocks
  {
    hide ReadBlocks, Contents, RecordsBytes, HeaderBytes, DecodedHeader, ValidRecords, HeaderError;
    h := DecodedHeader(input).value;
    HeaderExact(input);
    var body := input[HEADER_SIZE..];
    records := RecordsRead(h, body);
    var consumed := ReadBlocks(h, body).consumed;
    assert input[..HEADER_SIZE + consumed] == input[..HEADER_SIZE] + body[..consumed];
    assert [] + ReadBlocks(h, body).output == ReadBlocks(h, body).output;
  }

  // The reader accepts exactly the language: a header, then non-final records, then a final one.
  lemma ReaderIsGrammar(input: seq<byte>, output: seq<byte>, consumed: nat, blocks: nat)
    ensures ReadContainer(input) == Accept(output, consumed, blocks) <==>
            exists h, records ::
              IsContainer(input, h, records, output, consumed) && |records| == blocks
  {
    if ReadContainer(input) == Accept(output, consumed, blocks) {
      var h, records := ContainerParsed(input);
      assert IsContainer(input, h, records, output, consumed) && |records| == blocks;
    }
    forall h, records | IsContainer(input, h, records, output, consumed) && |records| == blocks
      ensures ReadContainer(input) == Accept(output, consumed, blocks)
    {
      ContainerRead(input, h, records, output, consumed);
    }
  }

  /* ---- the container delimits itself ---- */

  lemma SameFront(input: seq<byte>, other: seq<byte>)
    requires ReadContainer(input).Accept?
    requires ReadContainer(input).consumed <= |other|
    requires other[..ReadContainer(input).consumed] == input[..ReadContainer(input).consumed]
    ensures ReadContainer(other) == ReadContainer(input)
  {
    hide ReadContainer;
    var r := ReadContainer(input);
    var h, records := ContainerParsed(input);
    ContainerRead(other, h, records, r.output, r.consumed);
  }

  lemma {:induction false} TruncatedBlocks(h: Header, input: seq<byte>, n: nat)
    requires ReadBlocks(h, input).Accept? && n < ReadBlocks(h, input).consumed
    ensures ReadBlocks(h, input[..n]) == Reject(CorruptData)
    decreases |input|
  {
    hide Content, Bounded;
    if n >= BLOCK_HEADER_SIZE {
      var b := DecodedBlockHeader(input);
      var size := BLOCK_HEADER_SIZE + b.storedSize;
      SameBlockHeader(input, n);
      if n >= size {
        assert input[..n][BLOCK_HEADER_SIZE..size] == input[BLOCK_HEADER_SIZE..size];
        assert input[..n][size..] == input[size..][..n - size];
        TruncatedBlocks(h, input[size..], n - size);
      }
    }
  }

  lemma SameBlockHeader(input: seq<byte>, n: nat)
    requires BLOCK_HEADER_SIZE <= n <= |input|
    ensures DecodedBlockHeader(input[..n]) == DecodedBlockHeader(input)
  {
    assert input[..n][1..5] == input[1..5];
    assert input[..n][5..9] == input[5..9];
    assert input[..n][9..13] == input[9..13];
  }

  lemma SameHeader(input: seq<byte>, n: nat)
    requires HEADER_SIZE <= n <= |input|
    ensures DecodedHeader(input[..n]) == DecodedHeader(input)
  {
    assert input[..n][..4] == input[..4];
    assert input[..n][..20] == input[..20];
    assert input[..n][8..16] == input[8..16];
    assert input[..n][16..20] == input[16..20];
    assert input[..n][20..24] == input[20..24];
  }

  // A header damaged inside four consecutive bytes makes the container corrupt.
  lemma HeaderBurstDetected(input: seq<byte>, changed: seq<byte>, from: nat, to: nat)
    requires DecodedHeader(input).Some? && |changed| >= HEADER_SIZE
    requires DifferInWindow(input[..HEADER_SIZE], changed[..HEADER_SIZE], from, to)
    ensures ReadContainer(changed) == Reject(CorruptData)
  {
    hide DecodedHeader;
    HeaderBurst(input, changed, from, to);
  }

  // Cut short anywhere, a container is corrupt.
  lemma Truncated(input: seq<byte>, h: Header, n: nat)
    requires DecodedHeader(input) == Some(h) && HeaderError(h) == Ok
    requires ReadBlocks(h, input[HEADER_SIZE..]).Accept?
    requires n < HEADER_SIZE + ReadBlocks(h, input[HEADER_SIZE..]).consumed
    ensures ReadContainer(input[..n]) == Reject(CorruptData)
  {
    hide ReadBlocks;
    if n >= HEADER_SIZE {
      hide DecodedHeader;
      SameHeader(input, n);
      assert input[..n][HEADER_SIZE..] == input[HEADER_SIZE..][..n - HEADER_SIZE];
      TruncatedBlocks(h, input[HEADER_SIZE..], n - HEADER_SIZE);
    }
  }

  /* ---- where size_t is too narrow ---- */

  // The content of a block as a target reads it whose sums wrap at `word`.
  ghost function WordContent(b: BlockHeader, payload: seq<byte>, word: nat): WordOutcome
    requires word > 0
  {
    match if b.Raw() then Accepts(payload) else WordDecode(payload, 0, [], b.originalSize, word)
    case Accepts(content) => if Crc(content) == b.crc then Accepts(content) else Rejects
    case outcome => outcome
  }

  ghost function WordBlocks(h: Header, input: seq<byte>, word: nat): (r: Reading)
    requires word > 0
    ensures r.Accept? ==> r.consumed <= |input|
    decreases |input|
  {
    if |input| < BLOCK_HEADER_SIZE then Reject(CorruptData)
    else
      var b := DecodedBlockHeader(input);
      if !Bounded(h, b) then Reject(CorruptData)
      else if |input| < BLOCK_HEADER_SIZE + b.storedSize then Reject(CorruptData)
      else
        var size := BLOCK_HEADER_SIZE + b.storedSize;
        match WordContent(b, input[BLOCK_HEADER_SIZE..size], word)
        case Rejects => Reject(CorruptData)
        case OutOfBounds => Undefined
        case Accepts(content) =>
          if b.Final() then Accept(content, size, 1)
          else After(content, size, 1, WordBlocks(h, input[size..], word))
  }

  // The reader whose sums wrap at `word`.
  ghost function WordContainer(input: seq<byte>, word: nat): (r: Reading)
    requires word > 0
  {
    match DecodedHeader(input)
    case None => Reject(CorruptData)
    case Some(h) =>
      if HeaderError(h) != Ok then Reject(HeaderError(h))
      else Totalled(h, After([], HEADER_SIZE, 0, WordBlocks(h, input[HEADER_SIZE..], word)))
  }

  // A block without content that such a target does not reject.
  ghost predicate Misled(b: BlockHeader, payload: seq<byte>, word: nat)
    requires word > 0
  {
    Content(b, payload) == None && WordContent(b, payload, word) != Rejects
  }

  // Reading gets as far as such a block.
  ghost predicate Strays(h: Header, input: seq<byte>, word: nat)
    requires word > 0
    decreases |input|
  {
    && |input| >= BLOCK_HEADER_SIZE
    && var b := DecodedBlockHeader(input);
       var size := BLOCK_HEADER_SIZE + b.storedSize;
       && Bounded(h, b) && |input| >= size
       && match Content(b, input[BLOCK_HEADER_SIZE..size])
          case None => Misled(b, input[BLOCK_HEADER_SIZE..size], word)
          case Some(_) => !b.Final() && Strays(h, input[size..], word)
  }

  ghost predicate Astray(input: seq<byte>, word: nat)
    requires word > 0
  {
    match DecodedHeader(input)
    case None => false
    case Some(h) => HeaderError(h) == Ok && Strays(h, input[HEADER_SIZE..], word)
  }

  // What has a content has the same content for every word.
  lemma ContentSame(b: BlockHeader, payload: seq<byte>, word: nat)
    requires |payload| <= 0xFFFF_FFFF < word
    ensures Content(b, payload).Some? ==> WordContent(b, payload, word) == Accepts(Content(b, payload).value)
  {
    hide Decoded, WordDecode, Crc;
    WordAgrees(payload, b.originalSize, word);
  }

  // Unless the reading strays, the word makes no difference.
  lemma {:induction false} BlocksSame(h: Header, input: seq<byte>, word: nat)
    requires 0xFFFF_FFFF < word && !Strays(h, input, word)
    ensures WordBlocks(h, input, word) == ReadBlocks(h, input)
    decreases |input|
  {
    hide Content, WordContent, Bounded, DecodedBlockHeader;
    if |input| >= BLOCK_HEADER_SIZE {
      var b := DecodedBlockHeader(input);
      var size := BLOCK_HEADER_SIZE + b.storedSize;
      if Bounded(h, b) && |input| >= size {
        ContentSame(b, input[BLOCK_HEADER_SIZE..size], word);
        if Content(b, input[BLOCK_HEADER_SIZE..size]).Some? && !b.Final() {
          BlocksSame(h, input[size..], word);
        }
      }
    }
  }

  lemma ContainerSame(input: seq<byte>, word: nat)
    requires 0xFFFF_FFFF < word && !Astray(input, word)
    ensures WordContainer(input, word) == ReadContainer(input)
  {
    hide DecodedHeader, Strays, ReadBlocks, WordBlocks;
    HeaderTooShort(input);
    if DecodedHeader(input).Some? && HeaderError(DecodedHeader(input).value) == Ok {
      BlocksSame(DecodedHeader(input).value, input[HEADER_SIZE..], word);
    }
  }

  // Only a block too large for the target's size_t can lead astray.
  ghost predicate BlocksFit(blockSize: uint32, word: nat) {
    (word == WORD32 && blockSize <= 16_843_012) || word == 0x1_0000_0000_0000_0000
  }

  lemma {:induction false} FittingNeverStrays(h: Header, input: seq<byte>, word: nat)
    requires BlocksFit(h.blockSize, word)
    ensures !Strays(h, input, word)
    decreases |input|
  {
    hide Content, WordContent, DecodedBlockHeader;
    if |input| >= BLOCK_HEADER_SIZE {
      var b := DecodedBlockHeader(input);
      var size := BLOCK_HEADER_SIZE + b.storedSize;
      if Bounded(h, b) && |input| >= size {
        FittingNotMisled(b, input[BLOCK_HEADER_SIZE..size], word);
        FittingNeverStrays(h, input[size..], word);
      }
    }
  }

  lemma FittingNotMisled(b: BlockHeader, payload: seq<byte>, word: nat)
    requires |payload| <= b.originalSize && BlocksFit(b.originalSize, word)
    ensures !Misled(b, payload, word)
  {
    hide Decoded, WordDecode, Crc;
    if word == WORD32 {
      BlockExact(payload, b.originalSize);
    } else {
      NoWrapAround(payload, b.originalSize, word);
    }
  }

  lemma HeaderTooShort(data: seq<byte>)
    ensures |data| < HEADER_SIZE ==> DecodedHeader(data) == None
  {
  }

  // So on a 64-bit target nothing strays, and on a 32-bit target nothing in blocks that fit.
  lemma NeverAstray(input: seq<byte>, word: nat)
    requires DecodedHeader(input).Some? ==> BlocksFit(DecodedHeader(input).value.blockSize, word)
    requires word > 0
    ensures !Astray(input, word)
  {
    hide DecodedHeader, Strays;
    HeaderTooShort(input);
    if DecodedHeader(input).Some? {
      FittingNeverStrays(DecodedHeader(input).value, input[HEADER_SIZE..], word);
    }
  }

  // What strays is corrupt for the reference reader; what that reader accepts never strays.
  lemma {:induction false} StraysRejected(h: Header, input: seq<byte>, word: nat)
    requires word > 0 && Strays(h, input, word)
    ensures ReadBlocks(h, input) == Reject(CorruptData)
    decreases |input|
  {
    hide Content, Bounded, DecodedBlockHeader, Misled;
    var size := BLOCK_HEADER_SIZE + DecodedBlockHeader(input).storedSize;
    if Content(DecodedBlockHeader(input), input[BLOCK_HEADER_SIZE..size]).Some? {
      StraysRejected(h, input[size..], word);
    }
  }

  // Cutting the input short brings no new block into reach.
  lemma {:induction false} StraysExtends(h: Header, input: seq<byte>, n: nat, word: nat)
    requires word > 0 && n <= |input| && Strays(h, input[..n], word)
    ensures Strays(h, input, word)
    decreases |input|
  {
    hide Content, Bounded, DecodedBlockHeader, Misled;
    SameBlockHeader(input, n);
    var size := BLOCK_HEADER_SIZE + DecodedBlockHeader(input).storedSize;
    assert input[..n][BLOCK_HEADER_SIZE..size] == input[BLOCK_HEADER_SIZE..size];
    if Content(DecodedBlockHeader(input), input[BLOCK_HEADER_SIZE..size]).Some? {
      assert input[..n][size..] == input[size..][..n - size];
      StraysExtends(h, input[size..], n - size, word);
    }
  }

  // Well-formed records on the way to it change nothing.
  lemma StraysBehind(h: Header, r: Record, rest: seq<byte>, word: nat)
    requires word > 0 && Framed(h, r)
    ensures Strays(h, RecordBytes(r) + rest, word) <==>
            match Content(r.header, r.payload)
            case None => Misled(r.header, r.payload, word)
            case Some(_) => !r.header.Final() && Strays(h, rest, word)
  {
    hide Content, Bounded, BlockHeaderBytes, DecodedBlockHeader, Misled;
    var input := RecordBytes(r) + rest;
    var size := BLOCK_HEADER_SIZE + |r.payload|;
    assert input == BlockHeaderBytes(r.header) + (r.payload + rest);
    BlockHeaderRoundTrip(r.header, r.payload + rest);
    assert input[BLOCK_HEADER_SIZE..size] == r.payload;
    assert input[size..] == rest;
  }

  lemma RawNotMisled(b: BlockHeader, payload: seq<byte>, word: nat)
    requires word > 0 && b.Raw()
    ensures !Misled(b, payload, word)
  {
  }

  lemma {:induction false} RawNeverStrays(h: Header, records: seq<Record>, bad: Record, rest: seq<byte>, word: nat)
    requires forall i | 0 <= i < |records| :: WellFormed(h, records[i]) && !records[i].header.Final()
    requires Framed(h, bad) && Content(bad.header, bad.payload) == None && bad.header.Raw() && word > 0
    ensures !Strays(h, RecordsBytes(records) + (RecordBytes(bad) + rest), word)
  {
    hide Content, Bounded, Strays, RecordBytes;
    var tail := RecordBytes(bad) + rest;
    if records == [] {
      assert RecordsBytes(records) + tail == tail;
      StraysBehind(h, bad, rest, word);
      RawNotMisled(bad.header, bad.payload, word);
    } else {
      RawNeverStrays(h, records[1..], bad, rest, word);
      assert RecordsBytes(records) + tail == RecordBytes(records[0]) + (RecordsBytes(records[1..]) + tail);
      StraysBehind(h, records[0], RecordsBytes(records[1..]) + tail, word);
    }
  }

  // A container of one final block, as any reader sees it.
  lemma OneBlock(blockSize: uint32, crc: uint32, payload: seq<byte>, word: nat) returns (input: seq<byte>)
    requires 0 < |payload| <= blockSize && word > 0
    ensures DecodedHeader(input).Some? && DecodedHeader(input).value.blockSize == blockSize
    ensures var b := BlockHeader(FINAL_FLAG, blockSize, |payload|, crc);
            && (Content(b, payload) == None ==> ReadContainer(input) == Reject(CorruptData))
            && WordContainer(input, word) ==
               match WordContent(b, payload, word)
               case Rejects => Reject(CorruptData)
               case OutOfBounds => Undefined
               case Accepts(content) =>
                 if |content| == blockSize then Accept(content, |input|, 1) else Reject(CorruptData)
  {
    hide Content, WordContent, HeaderBytes, DecodedHeader, BlockHeaderBytes, DecodedBlockHeader;
    var h := Header(FORMAT_VERSION, 0, ALGORITHM_LZ_LITE, blockSize, blockSize);
    var b := BlockHeader(FINAL_FLAG, blockSize, |payload|, crc);
    var body := BlockHeaderBytes(b) + payload;
    input := HeaderBytes(h) + body;
    HeaderRoundTrip(h, body);
    assert input[HEADER_SIZE..] == body;
    assert 2 / 2 % 2 == 1;
    BlockHeaderRoundTrip(b, payload);
    assert body[BLOCK_HEADER_SIZE..BLOCK_HEADER_SIZE + |payload|] == payload;
  }

  // On a 32-bit target a container can be accepted that is none: its one block is the layout of
  // nothing, and carries the checksum of what the wrapped sums make of it.
  lemma Misread() returns (input: seq<byte>, output: seq<byte>)
    ensures WordContainer(input, WORD32) == Accept(output, |input|, 1)
    ensures ReadContainer(input) == Reject(CorruptData)
  {
    hide WordDecode, Decoded, ReadContainer, WordContainer, Crc;
    var payload := WrapMisleads(0);
    output := CopyBack([0], 1, 17_000_000);
    WrapMisleadsNonempty(payload);
    input := OneBlock(17_000_001, Crc(output), payload, WORD32);
  }

  lemma WrapMisleadsNonempty(payload: seq<byte>)
    requires Decoded(payload, 17_000_001) == None && WordDecode(payload, 0, [], 17_000_001, WORD32).Accepts?
    ensures payload != []
  {
  }

  // From a block size of 16 843 013 bytes on, there are containers on which the program is undefined.
  lemma UndefinedFrom(blockSize: uint32) returns (input: seq<byte>)
    requires 16_843_013 <= blockSize
    ensures DecodedHeader(input).Some? && DecodedHeader(input).value.blockSize == blockSize
    ensures WordContainer(input, WORD32) == Undefined && ReadContainer(input) == Reject(CorruptData)
  {
    hide WordDecode, Decoded, ReadContainer, WordContainer, Crc, DecodedHeader;
    var payload := MatchWraps(0, blockSize);
    input := OneBlock(blockSize, 0, payload, WORD32);
  }

  // Containers with blocks of up to `limit` bytes are read alike.
  ghost predicate ReadAlikeUpTo(limit: nat, word: nat)
    requires word > 0
  {
    forall input: seq<byte> | DecodedHeader(input).Some? && DecodedHeader(input).value.blockSize <= limit ::
      WordContainer(input, word) == ReadContainer(input)
  }

  // On a 32-bit target they are up to exactly this block size.
  lemma ReaderLimitExact(limit: uint32)
    ensures ReadAlikeUpTo(limit, WORD32) <==> limit <= 16_843_012
  {
    hide ReadContainer, WordContainer, DecodedHeader, Astray;
    if limit <= 16_843_012 {
      forall input: seq<byte> | DecodedHeader(input).Some? && DecodedHeader(input).value.blockSize <= limit
        ensures WordContainer(input, WORD32) == ReadContainer(input)
      {
        NeverAstray(input, WORD32);
        ContainerSame(input, WORD32);
      }
    } else {
      var input := UndefinedFrom(limit);
      assert WordContainer(input, WORD32) != ReadContainer(input);
    }
  }

  /* ---- corruption of a raw payload ---- */

  // A record with bad content is reported whatever comes before and after it.
  lemma {:induction false} BadRecord(h: Header, records: seq<Record>, bad: Record, rest: seq<byte>)
    requires forall i | 0 <= i < |records| :: WellFormed(h, records[i]) && !records[i].header.Final()
    requires Framed(h, bad) && Content(bad.header, bad.payload) == None
    ensures ReadBlocks(h, RecordsBytes(records) + (RecordBytes(bad) + rest)) == Reject(CorruptData)
  {
    hide Content, Bounded, ReadBlocks, RecordBytes;
    var tail := RecordBytes(bad) + rest;
    if records == [] {
      assert RecordsBytes(records) + tail == tail;
      ReadRecord(h, bad, rest);
    } else {
      BadRecord(h, records[1..], bad, rest);
      assert RecordsBytes(records) + tail == RecordBytes(records[0]) + (RecordsBytes(records[1..]) + tail);
      ReadRecord(h, records[0], RecordsBytes(records[1..]) + tail);
    }
  }

  lemma {:induction false} RecordsConcat(a: seq<Record>, b: seq<Record>)
    ensures RecordsBytes(a + b) == RecordsBytes(a) + RecordsBytes(b)
  {
    hide RecordBytes;
    if a == [] {
      assert a + b == b;
    } else {
      assert (a + b)[1..] == a[1..] + b;
      RecordsConcat(a[1..], b);
    }
  }

  lemma RawBurstIsBad(r: Record, payload: seq<byte>, from: nat, to: nat)
    requires r.header.Raw() && Content(r.header, r.payload).Some?
    requires DifferInWindow(r.payload, payload, from, to)
    ensures Content(r.header, payload) == None
  {
    hide Crc;
    BurstDetected(r.payload, payload, from, to);
  }

  // A container with a damaged record, taken apart around that record.
  lemma DamagedApart(h: Header, records: seq<Record>, i: nat, payload: seq<byte>, rest: seq<byte>)
    requires i < |records|
    ensures var bad := records[i].(payload := payload);
            var body := RecordsBytes(records[i := bad]) + rest;
            && body == RecordsBytes(records[..i]) + (RecordBytes(bad) + (RecordsBytes(records[i + 1..]) + rest))
            && HeaderBytes(h) + RecordsBytes(records[i := bad]) + rest == HeaderBytes(h) + body
            && (HeaderBytes(h) + body)[HEADER_SIZE..] == body
  {
    hide HeaderBytes, RecordBytes;
    var bad := records[i].(payload := payload);
    var before, after := records[..i], records[i + 1..];
    assert records[i := bad] == before + ([bad] + after);
    RecordsConcat(before, [bad] + after);
    assert ([bad] + after)[1..] == after;
  }

  // Changing the stored bytes of one raw record inside four consecutive bytes makes the whole
  // container corrupt, whatever follows it.
  lemma RawBurstDetected(input: seq<byte>, h: Header, records: seq<Record>, output: seq<byte>, consumed: nat,
                         i: nat, payload: seq<byte>, from: nat, to: nat, rest: seq<byte>)
    requires IsContainer(input, h, records, output, consumed)
    requires i < |records| && records[i].header.Raw()
    requires DifferInWindow(records[i].payload, payload, from, to)
    ensures ReadContainer(HeaderBytes(h) + RecordsBytes(records[i := records[i].(payload := payload)]) + rest) ==
            Reject(CorruptData)
  {
    hide HeaderBytes, DecodedHeader, ReadBlocks, Bounded, Content, RecordBytes, RecordsBytes, Contents;
    var bad := records[i].(payload := payload);
    assert WellFormed(h, records[i]);
    RawBurstIsBad(records[i], payload, from, to);
    DamagedApart(h, records, i, payload, rest);
    BadRecord(h, records[..i], bad, RecordsBytes(records[i + 1..]) + rest);
    HeaderRoundTrip(h, RecordsBytes(records[i := bad]) + rest);
  }

  // And no width of size_t leads a reader astray in it.
  lemma DamagedNeverAstray(input: seq<byte>, h: Header, records: seq<Record>, output: seq<byte>, consumed: nat,
                           i: nat, payload: seq<byte>, from: nat, to: nat, rest: seq<byte>, word: nat)
    requires IsContainer(input, h, records, output, consumed) && word > 0
    requires i < |records| && records[i].header.Raw()
    requires DifferInWindow(records[i].payload, payload, from, to)
    ensures !Astray(HeaderBytes(h) + RecordsBytes(records[i := records[i].(payload := payload)]) + rest, word)
  {
    hide HeaderBytes, DecodedHeader, Strays, Bounded, Content, RecordBytes, RecordsBytes, Contents;
    var bad := records[i].(payload := payload);
    assert WellFormed(h, records[i]);
    RawBurstIsBad(records[i], payload, from, to);
    DamagedApart(h, records, i, payload, rest);
    RawNeverStrays(h, records[..i], bad, RecordsBytes(records[i + 1..]) + rest, word);
    HeaderRoundTrip(h, RecordsBytes(records[i := bad]) + rest);
  }
}
