/** The bytes of an LZ-lite block, spelled out, and what a decoder makes of them. */
module LzLayout {
  import opened Types
  import opened LzFormat
  import opened LzEncoder

  // How a length is continued behind its nibble: nothing below 15, else as many bytes of 255 as go
  // into the rest, and one byte less than 255.
  ghost function Continued(length: nat): seq<byte> {
    if length < 15 then []
    else seq((length - 15) / 255, i => 255 as byte) + [(length - 15) % 255]
  }

  lemma {:induction false} ExtendIs(value: nat)
    ensures Extend(value) == seq(value / 255, i => 255 as byte) + [value % 255]
  {
    if value >= 255 {
      ExtendIs(value - 255);
      assert (value - 255) / 255 == value / 255 - 1;
      assert seq(value / 255, i => 255 as byte) == [255] + seq(value / 255 - 1, i => 255 as byte);
    }
  }

  lemma ContinuedIs(length: nat)
    ensures LengthBytes(length) == Continued(length)
  {
    if length >= 15 {
      ExtendIs(length - 15);
    }
  }

  // A back-reference: a token of two nibbles, the literals behind their length, the offset low byte
  // first, and the length of the match, less three.
  lemma SequenceIs(literals: seq<byte>, offset: nat, length: nat)
    requires offset < 65536 && 3 <= length
    ensures CopyBytes(literals, offset, length) ==
            [16 * Min(|literals|, 15) + Min(length - 3, 15)] + Continued(|literals|) + literals
            + [offset % 256, offset / 256] + Continued(length - 3)
  {
    hide Continued, LengthBytes;
    ContinuedIs(|literals|);
    ContinuedIs(length - 3);
    var token: byte := 16 * Min(|literals|, 15) + Min(length - 3, 15);
    Associate([token] + Continued(|literals|) + literals, [offset % 256, offset / 256], Continued(length - 3));
  }

  // The literals that end a block, behind a token whose lower nibble means nothing.
  lemma LastIs(literals: seq<byte>, nibble: nat)
    requires nibble < 16
    ensures LiteralBytes(literals, nibble) == [16 * Min(|literals|, 15) + nibble] + Continued(|literals|) + literals
  {
    ContinuedIs(|literals|);
  }

  // A block is laid out sequence by sequence, and may end behind any of them.
  lemma BlockIs(b: Block)
    requires Encodable(b)
    ensures match b
            case End => Serialize(b) == []
            case Tail(literals, nibble) =>
              nibble < 16
              && Serialize(b) == [16 * Min(|literals|, 15) + nibble] + Continued(|literals|) + literals
            case Copy(literals, offset, length, rest) =>
              && offset < 65536 && 3 <= length && Encodable(rest)
              && Serialize(b) ==
                 [16 * Min(|literals|, 15) + Min(length - 3, 15)] + Continued(|literals|) + literals
                 + [offset % 256, offset / 256] + Continued(length - 3) + Serialize(rest)
  {
    match b
    case End =>
    case Tail(literals, nibble) => LastIs(literals, nibble);
    case Copy(literals, offset, length, rest) => SequenceIs(literals, offset, length);
  }

  // Each byte that a match adds is the one `offset` places before it.
  lemma {:induction false} CopyBackAt(out: seq<byte>, offset: nat, length: nat, k: nat)
    requires 1 <= offset <= |out| <= k < |out| + length
    ensures CopyBack(out, offset, length)[k] == CopyBack(out, offset, length)[k - offset]
  {
    var before := CopyBack(out, offset, length - 1);
    if k < |before| {
      CopyBackAt(out, offset, length - 1, k);
    }
  }

  /* ---- where a block may end ---- */

  // Nothing; literals behind any lower nibble; or a match.
  lemma EndsAnywhere(literals: seq<byte>, nibble: nat, offset: nat, length: nat)
    requires nibble < 16 && 1 <= offset <= Min(|literals|, 65535) && 3 <= length
    ensures Decoded([], 0) == Some([])
    ensures Decoded([16 * Min(|literals|, 15) + nibble] + Continued(|literals|) + literals, |literals|) ==
            Some(literals)
    ensures Decoded([16 * Min(|literals|, 15) + Min(length - 3, 15)] + Continued(|literals|) + literals
                    + [offset % 256, offset / 256] + Continued(length - 3), |literals| + length) ==
            Some(CopyBack(literals, offset, length))
  {
    hide Decoded;
    assert [] + literals == literals;
    DecodedBlock(End);
    DecodedBlock(Tail(literals, nibble));
    DecodedBlock(Copy(literals, offset, length, End));
    LastIs(literals, nibble);
    SequenceIs(literals, offset, length);
    assert CopyBytes(literals, offset, length) + [] == CopyBytes(literals, offset, length);
  }

  lemma DecodedBlock(b: Block)
    requires Encodable(b) && Valid(b, 0)
    ensures Decoded(Serialize(b), TotalLength(b, 0)) == Some(Expand(b, []))
  {
    DecodedExactly(Serialize(b), TotalLength(b, 0), Expand(b, []));
  }

  // Nothing is compressed to nothing.
  lemma NothingCompressed(window: nat)
    ensures Compressed([], window) == []
  {
  }
}
