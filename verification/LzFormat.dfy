/** The LZ-lite block format: what a block is, how it is laid out in bytes and what it means. */
module LzFormat {
  import opened Types

  const MIN_MATCH := 3

  // A block is a run of back-reference sequences. It ends after one of them, or with a token
  // that has literals only; the low nibble of that token carries no meaning.
  datatype Block =
    | End
    | Tail(literals: seq<byte>, nibble: nat)
    | Copy(literals: seq<byte>, offset: nat, length: nat, rest: Block)

  /* ---- layout ---- */

  ghost predicate Encodable(b: Block) {
    match b
    case End => true
    case Tail(_, nibble) => nibble < 16
    case Copy(_, offset, length, rest) => offset < 0x1_0000 && MIN_MATCH <= length && Encodable(rest)
  }

  function Extend(value: nat): (r: seq<byte>) {
    if value < 255 then [value] else [255] + Extend(value - 255)
  }

  function Nibble(value: nat): (n: nat)
    ensures n < 16
  {
    if value < 15 then value else 15
  }

  function LengthBytes(value: nat): seq<byte> {
    if value < 15 then [] else Extend(value - 15)
  }

  function LiteralBytes(literals: seq<byte>, nibble: nat): seq<byte>
    requires nibble < 16
  {
    [16 * Nibble(|literals|) + nibble] + LengthBytes(|literals|) + literals
  }

  function MatchBytes(offset: nat, length: nat): seq<byte>
    requires offset < 0x1_0000 && MIN_MATCH <= length
  {
    [offset % 256, offset / 256] + LengthBytes(length - MIN_MATCH)
  }

  function CopyBytes(literals: seq<byte>, offset: nat, length: nat): seq<byte>
    requires offset < 0x1_0000 && MIN_MATCH <= length
  {
    LiteralBytes(literals, Nibble(length - MIN_MATCH)) + MatchBytes(offset, length)
  }

  ghost function Serialize(b: Block): seq<byte>
    requires Encodable(b)
  {
    match b
    case End => []
    case Tail(literals, nibble) => LiteralBytes(literals, nibble)
    case Copy(literals, offset, length, rest) => CopyBytes(literals, offset, length) + Serialize(rest)
  }

  /* ---- reading the layout back ---- */

  datatype Length = Length(value: nat, rest: seq<byte>)

  function ReadExtended(input: seq<byte>): (r: Option<Length>)
    ensures r.Some? ==> |r.value.rest| < |input|
  {
    if input == [] then None
    else if input[0] < 255 then Some(Length(input[0], input[1..]))
    else
      match ReadExtended(input[1..])
      case None => None
      case Some(l) => Some(Length(255 + l.value, l.rest))
  }

  function ReadLength(nibble: nat, input: seq<byte>): (r: Option<Length>)
    ensures r.Some? ==> |r.value.rest| <= |input|
  {
    if nibble != 15 then Some(Length(nibble, input))
    else
      match ReadExtended(input)
      case None => None
      case Some(l) => Some(Length(15 + l.value, l.rest))
  }

  datatype Token = Token(literals: seq<byte>, nibble: nat, after: seq<byte>)

  function ReadToken(input: seq<byte>): (r: Option<Token>)
    requires input != []
    ensures r.Some? ==> r.value.nibble < 16 && |r.value.after| < |input|
  {
    match ReadLength(input[0] / 16, input[1..])
    case None => None
    case Some(l) =>
      if |l.rest| < l.value then None
      else Some(Token(l.rest[..l.value], input[0] % 16, l.rest[l.value..]))
  }

  function Le16(low: byte, high: byte): (n: nat)
    ensures n < 0x1_0000
  {
    low as int + 256 * high as int
  }

  datatype Match = Match(offset: nat, length: nat, rest: seq<byte>)

  function ReadMatch(nibble: nat, input: seq<byte>): (r: Option<Match>)
    ensures r.Some? ==> |r.value.rest| < |input|
    ensures r.Some? ==> r.value.offset < 0x1_0000 && MIN_MATCH <= r.value.length
  {
    if |input| < 2 then None
    else
      match ReadLength(nibble, input[2..])
      case None => None
      case Some(l) => Some(Match(Le16(input[0], input[1]), l.value + MIN_MATCH, l.rest))
  }

  ghost function Parse(input: seq<byte>): (r: Option<Block>)
    ensures r.Some? ==> Encodable(r.value)
    decreases |input|
  {
    if input == [] then Some(End)
    else
      match ReadToken(input)
      case None => None
      case Some(t) =>
        if t.after == [] then Some(Tail(t.literals, t.nibble))
        else
          match ReadMatch(t.nibble, t.after)
          case None => None
          case Some(m) =>
            WithCopy(t.literals, m.offset, m.length, Parse(m.rest))
  }

  lemma {:induction false} ExtendSize(value: nat)
    ensures |Extend(value)| == value / 255 + 1
  {
    if value >= 255 {
      ExtendSize(value - 255);
    }
  }

  lemma {:induction false} ReadExtend(value: nat, rest: seq<byte>)
    ensures ReadExtended(Extend(value) + rest) == Some(Length(value, rest))
  {
    if value < 255 {
      assert ([value] + rest)[1..] == rest;
    } else {
      var input := Extend(value) + rest;
      assert input == [255] + (Extend(value - 255) + rest);
      assert input[1..] == Extend(value - 255) + rest;
      ReadExtend(value - 255, rest);
    }
  }

  lemma {:induction false} ExtendRead(input: seq<byte>)
    requires ReadExtended(input).Some?
    ensures var l := ReadExtended(input).value; input == Extend(l.value) + l.rest
  {
    if input[0] == 255 {
      ExtendRead(input[1..]);
      assert input == [255] + input[1..];
    }
  }

  lemma ReadLengthBytes(value: nat, rest: seq<byte>)
    ensures ReadLength(Nibble(value), LengthBytes(value) + rest) == Some(Length(value, rest))
  {
    if value < 15 {
      assert LengthBytes(value) + rest == rest;
    } else {
      ReadExtend(value - 15, rest);
    }
  }

  lemma LengthBytesRead(nibble: nat, input: seq<byte>)
    requires nibble < 16 && ReadLength(nibble, input).Some?
    ensures var l := ReadLength(nibble, input).value;
            nibble == Nibble(l.value) && input == LengthBytes(l.value) + l.rest
  {
    if nibble == 15 {
      ExtendRead(input);
    }
  }

  lemma ReadLiteralBytes(literals: seq<byte>, nibble: nat, tail: seq<byte>)
    requires nibble < 16
    ensures ReadToken(LiteralBytes(literals, nibble) + tail) == Some(Token(literals, nibble, tail))
  {
    var input := LiteralBytes(literals, nibble) + tail;
    assert input[1..] == LengthBytes(|literals|) + (literals + tail);
    ReadLengthBytes(|literals|, literals + tail);
    assert (literals + tail)[|literals|..] == tail;
  }

  lemma LiteralBytesRead(input: seq<byte>)
    requires input != [] && ReadToken(input).Some?
    ensures var t := ReadToken(input).value; input == LiteralBytes(t.literals, t.nibble) + t.after
  {
    hide LengthBytes, ReadLength;
    var head, body := input[0], input[1..];
    LengthBytesRead(head / 16, body);
    var l := ReadLength(head / 16, body).value;
    JoinToken(head, LengthBytes(l.value), l.rest, l.value);
    assert input == [head] + body;
  }

  lemma JoinToken(head: byte, lengthBytes: seq<byte>, rest: seq<byte>, n: nat)
    requires n <= |rest|
    ensures [head] + (lengthBytes + rest) == [head] + lengthBytes + rest[..n] + rest[n..]
  {
  }

  lemma Associate(a: seq<byte>, b: seq<byte>, c: seq<byte>)
    ensures a + (b + c) == (a + b) + c
  {
  }

  lemma ReadMatchBytes(offset: nat, length: nat, tail: seq<byte>)
    requires offset < 0x1_0000 && MIN_MATCH <= length
    ensures ReadMatch(Nibble(length - MIN_MATCH), MatchBytes(offset, length) + tail) ==
            Some(Match(offset, length, tail))
  {
    var input := MatchBytes(offset, length) + tail;
    assert input[2..] == LengthBytes(length - MIN_MATCH) + tail;
    ReadLengthBytes(length - MIN_MATCH, tail);
  }

  lemma MatchBytesRead(nibble: nat, input: seq<byte>)
    requires nibble < 16 && ReadMatch(nibble, input).Some?
    ensures var m := ReadMatch(nibble, input).value;
            && nibble == Nibble(m.length - MIN_MATCH)
            && input == MatchBytes(m.offset, m.length) + m.rest
  {
    LengthBytesRead(nibble, input[2..]);
    assert input == [input[0], input[1]] + input[2..];
  }

  // The parser reads one back-reference sequence and goes on behind it.
  lemma ParseCopyBytes(literals: seq<byte>, offset: nat, length: nat, tail: seq<byte>)
    requires offset < 0x1_0000 && MIN_MATCH <= length
    ensures Parse(CopyBytes(literals, offset, length) + tail) ==
            WithCopy(literals, offset, length, Parse(tail))
  {
    var nibble := Nibble(length - MIN_MATCH);
    var after := MatchBytes(offset, length) + tail;
    assert CopyBytes(literals, offset, length) + tail == LiteralBytes(literals, nibble) + after;
    ReadLiteralBytes(literals, nibble, after);
    ReadMatchBytes(offset, length, tail);
  }

  lemma ParseLiteralBytes(literals: seq<byte>, nibble: nat)
    requires nibble < 16
    ensures Parse(LiteralBytes(literals, nibble)) == Some(Tail(literals, nibble))
  {
    ReadLiteralBytes(literals, nibble, []);
    assert LiteralBytes(literals, nibble) + [] == LiteralBytes(literals, nibble);
  }

  lemma {:induction false} ParseSerialize(b: Block)
    requires Encodable(b)
    ensures Parse(Serialize(b)) == Some(b)
  {
    match b
    case End =>
    case Tail(literals, nibble) => ParseLiteralBytes(literals, nibble);
    case Copy(literals, offset, length, rest) =>
      ParseSerialize(rest);
      ParseCopyBytes(literals, offset, length, Serialize(rest));
  }

  lemma CopyBytesRead(input: seq<byte>, t: Token, m: Match)
    requires input != [] && ReadToken(input) == Some(t) && ReadMatch(t.nibble, t.after) == Some(m)
    ensures input == CopyBytes(t.literals, m.offset, m.length) + m.rest
  {
    hide LiteralBytes, MatchBytes, ReadToken, ReadMatch, Nibble;
    LiteralBytesRead(input);
    MatchBytesRead(t.nibble, t.after);
    Associate(LiteralBytes(t.literals, t.nibble), MatchBytes(m.offset, m.length), m.rest);
  }

  lemma {:induction false} SerializeParse(input: seq<byte>)
    requires Parse(input).Some?
    ensures Serialize(Parse(input).value) == input
    decreases |input|
  {
    if input != [] {
      var t := ReadToken(input).value;
      if t.after == [] {
        LiteralBytesRead(input);
        assert input == LiteralBytes(t.literals, t.nibble);
      } else {
        var m := ReadMatch(t.nibble, t.after).value;
        CopyBytesRead(input, t, m);
        SerializeParse(m.rest);
      }
    }
  }

  /* ---- meaning ---- */

  // Every back-reference reaches into what has been produced before it.
  ghost predicate Valid(b: Block, produced: nat) {
    match b
    case End => true
    case Tail(_, _) => true
    case Copy(literals, offset, length, rest) =>
      && 1 <= offset <= produced + |literals|
      && Valid(rest, produced + |literals| + length)
  }

  // Copies byte by byte from `offset` back, so a copy longer than its offset repeats itself.
  ghost function CopyBack(out: seq<byte>, offset: nat, length: nat): (r: seq<byte>)
    requires 1 <= offset <= |out|
    ensures |r| == |out| + length && r[..|out|] == out
  {
    if length == 0 then out
    else
      var before := CopyBack(out, offset, length - 1);
      before + [before[|before| - offset]]
  }

  ghost function TotalLength(b: Block, produced: nat): (n: nat)
    ensures produced <= n
  {
    match b
    case End => produced
    case Tail(literals, _) => produced + |literals|
    case Copy(literals, _, length, rest) => TotalLength(rest, produced + |literals| + length)
  }

  ghost function Expand(b: Block, out: seq<byte>): (r: seq<byte>)
    requires Valid(b, |out|)
    ensures |r| == TotalLength(b, |out|)
  {
    match b
    case End => out
    case Tail(literals, _) => out + literals
    case Copy(literals, offset, length, rest) =>
      Expand(rest, CopyBack(out + literals, offset, length))
  }

  // What a parsed rest of the input means when `out` has been produced already.
  ghost function Meaning(parsed: Option<Block>, out: seq<byte>, expected: nat): (r: Option<seq<byte>>)
    ensures r.Some? ==> |r.value| == expected
  {
    match parsed
    case None => None
    case Some(b) =>
      if Valid(b, |out|) && TotalLength(b, |out|) == expected then Some(Expand(b, out)) else None
  }

  ghost function WithCopy(literals: seq<byte>, offset: nat, length: nat, rest: Option<Block>): Option<Block> {
    match rest
    case None => None
    case Some(b) => Some(Copy(literals, offset, length, b))
  }

  ghost function Resume(input: seq<byte>, out: seq<byte>, expected: nat): Option<seq<byte>> {
    Meaning(Parse(input), out, expected)
  }

  // The reference decoder: parse the whole input, then expand it.
  ghost function Decoded(input: seq<byte>, expected: nat): (r: Option<seq<byte>>) {
    Resume(input, [], expected)
  }

  // The reference decoder accepts exactly the layouts of valid blocks of the expected length.
  lemma DecodedExactly(input: seq<byte>, expected: nat, out: seq<byte>)
    ensures Decoded(input, expected) == Some(out) <==>
            exists b :: Encodable(b) && Serialize(b) == input && Valid(b, 0)
                        && TotalLength(b, 0) == expected && Expand(b, []) == out
  {
    if Decoded(input, expected) == Some(out) {
      var b := Parse(input).value;
      SerializeParse(input);
      assert Encodable(b) && Serialize(b) == input;
    }
    forall b | Encodable(b) && Serialize(b) == input
      ensures Parse(input) == Some(b)
    {
      ParseSerialize(b);
    }
  }

  // One back-reference sequence at the front of the remaining input.
  lemma MeaningCopy(literals: seq<byte>, offset: nat, length: nat, rest: Option<Block>,
                    out: seq<byte>, expected: nat)
    ensures Meaning(WithCopy(literals, offset, length, rest), out, expected) ==
            if 1 <= offset <= |out + literals| && |out + literals| + length <= expected
            then Meaning(rest, CopyBack(out + literals, offset, length), expected)
            else None
  {
    if rest.Some? {
      var b := Copy(literals, offset, length, rest.value);
      var produced := |out + literals| + length;
      assert TotalLength(b, |out|) == TotalLength(rest.value, produced) >= produced;
      assert Valid(b, |out|) <==> 1 <= offset <= |out + literals| && Valid(rest.value, produced);
      if 1 <= offset <= |out + literals| {
        assert |CopyBack(out + literals, offset, length)| == produced;
      }
    }
  }

  /* ---- the remaining input, one piece at a time ---- */

  ghost function Shifted(base: nat, r: Option<Length>): Option<Length> {
    match r
    case None => None
    case Some(l) => Some(Length(base + l.value, l.rest))
  }

  lemma ReadExtendedAt(input: seq<byte>, at: nat)
    requires at <= |input|
    ensures ReadExtended(input[at..]) ==
            if at == |input| then None
            else if input[at] == 255 then Shifted(255, ReadExtended(input[at + 1..]))
            else Some(Length(input[at], input[at + 1..]))
  {
    if at < |input| {
      assert input[at..][1..] == input[at + 1..];
    }
  }

  // One token of the remaining input, as the reference decoder sees it.
  lemma ResumeToken(input: seq<byte>, out: seq<byte>, expected: nat)
    requires input != []
    ensures Resume(input, out, expected) ==
            match ReadToken(input)
            case None => None
            case Some(t) =>
              if |out + t.literals| > expected then None
              else if |out + t.literals| == expected then
                if t.after == [] then Some(out + t.literals) else None
              else ResumeMatch(t.nibble, t.after, out + t.literals, expected)
  {
    match ReadToken(input)
    case None =>
    case Some(t) =>
      if t.after != [] {
        match ReadMatch(t.nibble, t.after)
        case None =>
        case Some(m) =>
          MeaningCopy(t.literals, m.offset, m.length, Parse(m.rest), out, expected);
      }
  }

  ghost function ResumeMatch(nibble: nat, after: seq<byte>, out: seq<byte>, expected: nat): Option<seq<byte>> {
    match ReadMatch(nibble, after)
    case None => None
    case Some(m) =>
      if 1 <= m.offset <= |out| && |out| + m.length <= expected
      then Resume(m.rest, CopyBack(out, m.offset, m.length), expected)
      else None
  }

  lemma ResumeEnd(out: seq<byte>, expected: nat)
    ensures Resume([], out, expected) == if |out| == expected then Some(out) else None
  {
  }
}
