/** The container header and the block header: their bytes, and reading them back. */
module EscFormat {
  import opened Types
  import opened Memory
  import opened Crc32

  const FORMAT_VERSION: byte := 1
  const ALGORITHM_LZ_LITE: byte := 1
  const UNKNOWN_ORIGINAL_SIZE: uint64 := 0xFFFF_FFFF_FFFF_FFFF
  const HEADER_SIZE := 24
  const BLOCK_HEADER_SIZE := 13
  const MAGIC: seq<byte> := [0x45, 0x53, 0x43, 0x31]

  const UNKNOWN_SIZE_FLAG: byte := 1
  const RAW_FLAG: byte := 1
  const FINAL_FLAG: byte := 2

  datatype Header = Header(version: byte, flags: byte, algorithm: byte, originalSize: uint64, blockSize: uint32)
  {
    predicate UnknownSize() { flags % 2 == 1 }
  }

  datatype BlockHeader = BlockHeader(flags: byte, originalSize: uint32, storedSize: uint32, crc: uint32)
  {
    predicate Raw() { flags % 2 == 1 }
    predicate Final() { flags / 2 % 2 == 1 }
  }

  /* ---- little-endian numbers ---- */

  function LeBytes(n: nat, value: nat): (s: seq<byte>)
    ensures |s| == n
  {
    if n == 0 then [] else [value % 0x100] + LeBytes(n - 1, value / 0x100)
  }

  function Power256(n: nat): nat {
    if n == 0 then 1 else 0x100 * Power256(n - 1)
  }

  function ReadLe(s: seq<byte>): (value: nat)
    ensures value < Power256(|s|)
  {
    if s == [] then 0 else s[0] as int + 0x100 * ReadLe(s[1..])
  }

  lemma {:induction false} ReadLeBytes(n: nat, value: nat)
    requires value < Power256(n)
    ensures ReadLe(LeBytes(n, value)) == value
  {
    if n != 0 {
      ReadLeBytes(n - 1, value / 0x100);
      assert LeBytes(n, value)[1..] == LeBytes(n - 1, value / 0x100);
    }
  }

  lemma {:induction false} LeBytesRead(s: seq<byte>)
    ensures LeBytes(|s|, ReadLe(s)) == s
  {
    hide Power256;
    if s != [] {
      LeBytesRead(s[1..]);
      LowestByte(s[0], ReadLe(s[1..]));
      assert s == [s[0]] + s[1..];
    }
  }

  lemma LowestByte(low: byte, upper: nat)
    ensures (low + 0x100 * upper) % 0x100 == low && (low + 0x100 * upper) / 0x100 == upper
  {
  }

  lemma Powers()
    ensures Power256(4) == 0x1_0000_0000 && Power256(8) == 0x1_0000_0000_0000_0000
  {
    assert Power256(2) == 0x1_0000;
    assert Power256(6) == 0x1_0000_0000_0000;
  }

  function ReadLe32(s: seq<byte>): (value: uint32)
    requires |s| == 4
  {
    Powers();
    ReadLe(s)
  }

  function ReadLe64(s: seq<byte>): (value: uint64)
    requires |s| == 8
  {
    Powers();
    ReadLe(s)
  }

  // The bytes of a 32-bit number written one shift at a time.
  method WriteLe32(out: array<byte>, at: nat, value: uint32)
    requires at + 4 <= out.Length
    modifies out
    ensures out[at..at + 4] == LeBytes(4, value)
    ensures out[at] == value % 256 && out[at + 1] == value / 256 % 256
    ensures out[at + 2] == value / 65536 % 256 && out[at + 3] == value / 16777216 % 256
    ensures out[..at] == old(out[..at]) && out[at + 4..] == old(out[at + 4..])
  {
    out[at] := value % 0x100;
    out[at + 1] := value / 0x100 % 0x100;
    out[at + 2] := value / 0x1_0000 % 0x100;
    out[at + 3] := value / 0x100_0000 % 0x100;
    assert out[at..at + 4] == [out[at], out[at + 1], out[at + 2], out[at + 3]];
    FourBytes(value);
  }

  lemma FourBytes(value: uint32)
    ensures LeBytes(4, value) ==
            [value % 0x100, value / 0x100 % 0x100, value / 0x1_0000 % 0x100, value / 0x100_0000 % 0x100]
  {
    assert LeBytes(2, value / 0x1_0000) == [value / 0x1_0000 % 0x100, value / 0x100_0000 % 0x100];
    assert LeBytes(3, value / 0x100) == [value / 0x100 % 0x100] + LeBytes(2, value / 0x1_0000);
  }

  method WriteLe64(out: array<byte>, at: nat, value: uint64)
    requires at + 8 <= out.Length
    modifies out
    ensures out[at..at + 8] == LeBytes(8, value)
    ensures out[..at] == old(out[..at]) && out[at + 8..] == old(out[at + 8..])
  {
    hide LeBytes;
    var rest: nat := value;
    for i := 0 to 8
      invariant out[at..at + i] + LeBytes(8 - i, rest) == LeBytes(8, value)
      invariant out[..at] == old(out[..at]) && out[at + 8..] == old(out[at + 8..])
    {
      ghost var done := out[at..at + i];
      LowestByteFirst(done, 8 - i, rest);
      out[at + i] := rest % 0x100;
      assert out[at..at + i + 1] == done + [rest % 0x100];
      rest := rest / 0x100;
    }
    assert |LeBytes(0, rest)| == 0;
  }

  lemma LowestByteFirst(done: seq<byte>, n: nat, rest: nat)
    requires n > 0
    ensures done + LeBytes(n, rest) == done + [rest % 0x100] + LeBytes(n - 1, rest / 0x100)
  {
  }

  /* ---- the container header ---- */

  // The twenty bytes the header's own checksum covers.
  function CoveredBytes(h: Header): (s: seq<byte>)
    ensures |s| == 20
  {
    MAGIC + [h.version, h.flags, h.algorithm, HEADER_SIZE] + LeBytes(8, h.originalSize) + LeBytes(4, h.blockSize)
  }

  function HeaderBytes(h: Header): (s: seq<byte>)
    ensures |s| == HEADER_SIZE
  {
    CoveredBytes(h) + LeBytes(4, Crc(CoveredBytes(h)))
  }

  function DecodedHeader(data: seq<byte>): Option<Header> {
    if |data| < HEADER_SIZE then None
    else if data[..4] != MAGIC then None
    else if data[7] != HEADER_SIZE then None
    else if Crc(data[..20]) != ReadLe32(data[20..24]) then None
    else Some(Header(data[4], data[5], data[6], ReadLe64(data[8..16]), ReadLe32(data[16..20])))
  }

  method EncodeHeader(h: Header, out: MemoryBuffer) returns (err: Error)
    requires out.Valid()
    modifies out.Repr()
    ensures out.Valid() && fresh(out.Repr() - old(out.Repr()))
    ensures err == Ok || err == NoMemory
    ensures err == Ok <==> out.refusals == old(out.refusals)
    ensures out.platform.plentiful ==> err == Ok
    ensures err == Ok ==> out.Contents() == HeaderBytes(h)
  {
    hide Crc;
    out.Clear();
    var sized := out.Resize(HEADER_SIZE);
    if !sized {
      return NoMemory;
    }
    FillHeader(h, out.data);
    return Ok;
  }

  method FillHeader(h: Header, bytes: array<byte>)
    requires HEADER_SIZE <= bytes.Length
    modifies bytes
    ensures bytes[..HEADER_SIZE] == HeaderBytes(h)
  {
    hide Crc, LeBytes;
    bytes[0], bytes[1], bytes[2], bytes[3] := 0x45, 0x53, 0x43, 0x31;
    bytes[4], bytes[5], bytes[6], bytes[7] := h.version, h.flags, h.algorithm, HEADER_SIZE;
    ghost var head := bytes[..8];
    assert head == MAGIC + [h.version, h.flags, h.algorithm, HEADER_SIZE];
    WriteLe64(bytes, 8, h.originalSize);
    assert bytes[..16] == head + LeBytes(8, h.originalSize);
    ghost var middle := bytes[..16];
    WriteLe32(bytes, 16, h.blockSize);
    assert bytes[..20] == middle + LeBytes(4, h.blockSize);
    WriteLe32(bytes, 20, 0);
    assert bytes[..20] == CoveredBytes(h);
    var crc := ComputeCrc(bytes[..20]);
    WriteLe32(bytes, 20, crc);
    assert bytes[..HEADER_SIZE] == bytes[..20] + bytes[20..24];
  }

  method DecodeHeader(data: seq<byte>) returns (err: Error, h: Header)
    ensures err == Ok ==> DecodedHeader(data) == Some(h)
    ensures err != Ok ==> err == CorruptData && DecodedHeader(data) == None
  {
    hide Crc;
    h := Header(FORMAT_VERSION, 0, ALGORITHM_LZ_LITE, UNKNOWN_ORIGINAL_SIZE, 0);
    if |data| < HEADER_SIZE {
      return CorruptData, h;
    }
    if data[0] != 0x45 || data[1] != 0x53 || data[2] != 0x43 || data[3] != 0x31 {
      return CorruptData, h;
    }
    if data[7] != HEADER_SIZE {
      return CorruptData, h;
    }
    assert data[..4] == MAGIC;
    var crc := ComputeCrc(data[..20]);
    if crc != ReadLe32(data[20..24]) {
      return CorruptData, h;
    }
    h := Header(data[4], data[5], data[6], ReadLe64(data[8..16]), ReadLe32(data[16..20]));
    return Ok, h;
  }

  lemma HeaderRoundTrip(h: Header, rest: seq<byte>)
    ensures DecodedHeader(HeaderBytes(h) + rest) == Some(h)
  {
    hide Crc, LeBytes, ReadLe;
    var data := HeaderBytes(h) + rest;
    Powers();
    ReadLeBytes(8, h.originalSize);
    ReadLeBytes(4, h.blockSize);
    ReadLeBytes(4, Crc(CoveredBytes(h)));
    assert data[..20] == CoveredBytes(h);
    assert data[20..24] == LeBytes(4, Crc(CoveredBytes(h)));
    assert data[..4] == MAGIC;
    assert data[8..16] == LeBytes(8, h.originalSize);
    assert data[16..20] == LeBytes(4, h.blockSize);
  }

  // Only the bytes of a header decode to it.
  lemma HeaderExact(data: seq<byte>)
    requires DecodedHeader(data).Some?
    ensures HeaderBytes(DecodedHeader(data).value) == data[..HEADER_SIZE]
  {
    hide Crc, LeBytes, ReadLe;
    var h := DecodedHeader(data).value;
    LeBytesRead(data[8..16]);
    LeBytesRead(data[16..20]);
    LeBytesRead(data[20..24]);
    assert data[..20] == data[..4] + data[4..8] + data[8..16] + data[16..20];
    assert data[4..8] == [h.version, h.flags, h.algorithm, HEADER_SIZE];
    assert CoveredBytes(h) == data[..20];
    assert data[..HEADER_SIZE] == data[..20] + data[20..24];
  }

  lemma {:induction false} PackedReads(s: seq<byte>)
    requires |s| <= 4
    ensures Packed(s) as int == ReadLe(s)
  {
    hide Xor, Above, Bits;
    if s != [] {
      PackedReads(s[1..]);
      PackedBound(s[1..]);
      BitsBelow256(s[0]);
      BitsInt(s[0]);
      PackedStep(Bits(s[0]), Packed(s[1..]));
    }
  }

  // A header changed inside four consecutive bytes is never accepted, its checksum included.
  lemma HeaderBurst(data: seq<byte>, changed: seq<byte>, from: nat, to: nat)
    requires DecodedHeader(data).Some? && |changed| >= HEADER_SIZE
    requires DifferInWindow(data[..HEADER_SIZE], changed[..HEADER_SIZE], from, to)
    ensures DecodedHeader(changed) == None
  {
    hide Crc, Packed, ReadLe, DifferInWindow;
    PackedReads(data[20..24]);
    PackedReads(changed[20..24]);
    assert data[..HEADER_SIZE] == data[..20] + data[20..24];
    assert changed[..HEADER_SIZE] == changed[..20] + changed[20..24];
    BurstDetectedWithTrailer(data[..20], data[20..24], changed[..20], changed[20..24], from, to);
  }

  /* ---- the block header ---- */

  function BlockHeaderBytes(h: BlockHeader): (s: seq<byte>)
    ensures |s| == BLOCK_HEADER_SIZE
  {
    [h.flags] + LeBytes(4, h.originalSize) + LeBytes(4, h.storedSize) + LeBytes(4, h.crc)
  }

  function DecodedBlockHeader(data: seq<byte>): BlockHeader
    requires |data| >= BLOCK_HEADER_SIZE
  {
    BlockHeader(data[0], ReadLe32(data[1..5]), ReadLe32(data[5..9]), ReadLe32(data[9..13]))
  }

  method EncodeBlockHeader(h: BlockHeader, out: array<byte>) returns (err: Error)
    modifies out
    ensures err == if out.Length < BLOCK_HEADER_SIZE then InvalidArgument else Ok
    ensures err == Ok ==> out[..BLOCK_HEADER_SIZE] == BlockHeaderBytes(h)
  {
    hide LeBytes;
    if out.Length < BLOCK_HEADER_SIZE {
      return InvalidArgument;
    }
    out[0] := h.flags;
    WriteLe32(out, 1, h.originalSize);
    assert out[..5] == [h.flags] + LeBytes(4, h.originalSize);
    ghost var first := out[..5];
    WriteLe32(out, 5, h.storedSize);
    assert out[..9] == first + LeBytes(4, h.storedSize);
    ghost var second := out[..9];
    WriteLe32(out, 9, h.crc);
    assert out[..13] == second + LeBytes(4, h.crc);
    return Ok;
  }

  method DecodeBlockHeader(data: seq<byte>) returns (err: Error, h: BlockHeader)
    ensures err == if |data| < BLOCK_HEADER_SIZE then CorruptData else Ok
    ensures err == Ok ==> h == DecodedBlockHeader(data)
  {
    if |data| < BLOCK_HEADER_SIZE {
      return CorruptData, BlockHeader(0, 0, 0, 0);
    }
    h := BlockHeader(data[0], ReadLe32(data[1..5]), ReadLe32(data[5..9]), ReadLe32(data[9..13]));
    return Ok, h;
  }

  lemma BlockHeaderRoundTrip(h: BlockHeader, rest: seq<byte>)
    ensures DecodedBlockHeader(BlockHeaderBytes(h) + rest) == h
  {
    hide LeBytes, ReadLe;
    var data := BlockHeaderBytes(h) + rest;
    Powers();
    ReadLeBytes(4, h.originalSize);
    ReadLeBytes(4, h.storedSize);
    ReadLeBytes(4, h.crc);
    assert data[1..5] == LeBytes(4, h.originalSize);
    assert data[5..9] == LeBytes(4, h.storedSize);
    assert data[9..13] == LeBytes(4, h.crc);
  }

  lemma BlockHeaderExact(data: seq<byte>)
    requires |data| >= BLOCK_HEADER_SIZE
    ensures BlockHeaderBytes(DecodedBlockHeader(data)) == data[..BLOCK_HEADER_SIZE]
  {
    hide LeBytes, ReadLe;
    LeBytesRead(data[1..5]);
    LeBytesRead(data[5..9]);
    LeBytesRead(data[9..13]);
    assert data[..13] == [data[0]] + data[1..5] + data[5..9] + data[9..13];
  }
}
