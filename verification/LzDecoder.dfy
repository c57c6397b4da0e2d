/** The block decompressor: a loop over input and output positions, writing in place. Its sums are
    size_t sums: they wrap around at `word`. */
module LzDecoder {
  import opened Types
  import opened LzFormat
  import opened LzWordSize
  import opened Memory

  method ReadExtendedLength(input: seq<byte>, position: nat, start: nat, word: nat)
    returns (err: Error, next: nat, value: nat)
    requires position <= |input| < word
    ensures position <= next <= |input|
    ensures err == Ok || err == CorruptData
    ensures (if err == Ok then Some(WordRun(value, next)) else None) == WordExtended(input, position, start, word)
  {
    next, value := position, start;
    var extra: byte := 255;
    ghost var whole := WordExtended(input, position, start, word);
    while extra == 255
      invariant position <= next <= |input|
      invariant whole == if extra == 255 then WordExtended(input, next, value, word) else Some(WordRun(value, next))
      decreases |input| - next, extra
    {
      if next >= |input| {
        return CorruptData, next, value;
      }
      extra := input[next];
      next := next + 1;
      value := Wrap(value + extra, word);
    }
    return Ok, next, value;
  }

  // A run length: its nibble on top of a base, and extension bytes when the nibble is full.
  method ReadRun(input: seq<byte>, position: nat, nibble: nat, base: nat, word: nat)
    returns (err: Error, next: nat, value: nat)
    requires position <= |input| < word && nibble < 16
    ensures position <= next <= |input|
    ensures err == Ok || err == CorruptData
    ensures (if err == Ok then Some(WordRun(value, next)) else None) == WordLength(input, position, nibble, base, word)
  {
    if nibble == 15 {
      err, next, value := ReadExtendedLength(input, position, base + nibble, word);
    } else {
      err, next, value := Ok, position, base + nibble;
    }
  }

  method CopyLiterals(input: seq<byte>, position: nat, length: nat, data: array<byte>, outPosition: nat)
    requires position + length <= |input| && outPosition + length <= data.Length
    modifies data
    ensures data[..outPosition + length] ==
            old(data[..outPosition]) + input[position..position + length]
  {
    forall i | 0 <= i < length {
      data[outPosition + i] := input[position + i];
    }
  }

  // The bytes of a match are copied one at a time, so they may come from the copy itself.
  method CopyMatch(data: array<byte>, outPosition: nat, offset: nat, length: nat)
    requires 1 <= offset <= outPosition && outPosition + length <= data.Length
    modifies data
    ensures data[..outPosition + length] == CopyBack(old(data[..outPosition]), offset, length)
  {
    for i := 0 to length
      invariant data[..outPosition + i] == CopyBack(old(data[..outPosition]), offset, i)
    {
      ghost var copied := data[..outPosition + i];
      data[outPosition + i] := data[outPosition - offset + i];
      assert data[..outPosition + i] == copied;
      assert data[..outPosition + i + 1] == copied + [copied[|copied| - offset]];
    }
  }

  // The first n bytes behind a data pointer that is null only when there is nothing to hold.
  ghost function View(data: array?<byte>, n: nat): (s: seq<byte>)
    requires if data == null then n == 0 else n <= data.Length
    reads data
    ensures |s| == n
  {
    if data == null then [] else data[..n]
  }

  // Whether a step ended the decoding the way an outcome says. InternalError, which the program never
  // returns here, stands for what it does not define: a copy beyond a buffer.
  predicate Stops(err: Error, outcome: WordOutcome) {
    match outcome
    case Accepts(_) => false
    case Rejects => err == CorruptData
    case OutOfBounds => err == InternalError
  }

  // The next token's run of literals: read its length, check both ends, copy.
  method TakeLiterals(input: seq<byte>, position: nat, data: array?<byte>, expected: nat, produced: nat, word: nat)
    returns (err: Error, nibble: nat, next: nat, length: nat)
    requires position < |input| < word && produced <= expected
    requires if data == null then expected == 0 else expected <= data.Length
    modifies data
    ensures position < next <= |input| && nibble == input[position] % 16
    ensures err == Ok ==>
              && produced + length <= expected
              && WordDecode(input, position, old(View(data, produced)), expected, word) ==
                 if produced + length == expected then
                   if next == |input| then Accepts(View(data, produced + length)) else Rejects
                 else WordMatch(input, next, nibble, View(data, produced + length), expected, word)
    ensures err != Ok ==> Stops(err, WordDecode(input, position, old(View(data, produced)), expected, word))
  {
    hide WordMatch, WordLength, Wrap;
    var token := input[position];
    nibble := token % 16;
    err, next, length := ReadRun(input, position + 1, token / 16, 0, word);
    if err != Ok {
      return;
    }
    if Wrap(next + length, word) > |input| || Wrap(produced + length, word) > expected {
      err := CorruptData;
      return;
    }
    if next + length > |input| || produced + length > expected {
      err := InternalError;
      return;
    }
    ghost var out, literals := View(data, produced), input[next..next + length];
    if length != 0 {
      CopyLiterals(input, next, length, data, produced);
      next := next + length;
    }
    assert View(data, produced + length) == out + literals;
  }

  // The match behind the literals: its offset and length are checked before it is copied.
  method TakeMatch(input: seq<byte>, position: nat, nibble: nat, data: array?<byte>, expected: nat,
                   produced: nat, word: nat)
    returns (err: Error, next: nat, length: nat)
    requires position <= |input| < word && nibble < 16 && produced <= expected
    requires if data == null then expected == 0 else expected <= data.Length
    modifies data
    ensures err == Ok ==>
              && position < next <= |input| && produced + length <= expected
              && WordMatch(input, position, nibble, old(View(data, produced)), expected, word) ==
                 WordDecode(input, next, View(data, produced + length), expected, word)
    ensures err != Ok ==> Stops(err, WordMatch(input, position, nibble, old(View(data, produced)), expected, word))
  {
    hide WordDecode, WordLength, Wrap;
    next, length := position, 0;
    if Wrap(position + 2, word) > |input| {
      return CorruptData, next, length;
    }
    if position + 2 > |input| {
      return InternalError, next, length;
    }
    var offset := Le16(input[position], input[position + 1]);
    if offset == 0 || offset > produced {
      return CorruptData, next, length;
    }
    err, next, length := ReadRun(input, position + 2, nibble, MIN_MATCH, word);
    if err != Ok {
      return;
    }
    if Wrap(produced + length, word) > expected {
      err := CorruptData;
      return;
    }
    if produced + length > expected {
      err := InternalError;
      return;
    }
    CopyMatch(data, produced, offset, length);
    assert View(data, produced + length) == CopyBack(old(View(data, produced)), offset, length);
  }

  method DecodeLoop(input: seq<byte>, data: array?<byte>, expected: nat, word: nat) returns (err: Error)
    requires if data == null then expected == 0 else expected <= data.Length
    requires |input| < word
    modifies data
    ensures err == Ok ==> WordDecode(input, 0, [], expected, word) == Accepts(View(data, expected))
    ensures err != Ok ==> Stops(err, WordDecode(input, 0, [], expected, word))
  {
    hide WordDecode, WordMatch;
    var position: nat, produced: nat := 0, 0;
    while position < |input|
      invariant position <= |input| && produced <= expected
      invariant WordDecode(input, position, View(data, produced), expected, word) ==
                WordDecode(input, 0, [], expected, word)
      decreases |input| - position
    {
      var nibble, length;
      err, nibble, position, length := TakeLiterals(input, position, data, expected, produced, word);
      if err != Ok {
        return;
      }
      produced := produced + length;
      if produced == expected {
        return if position == |input| then Ok else CorruptData;
      }
      err, position, length := TakeMatch(input, position, nibble, data, expected, produced, word);
      if err != Ok {
        return;
      }
      produced := produced + length;
    }
    WordEnd(input, View(data, produced), expected, word);
    return if produced == expected then Ok else CorruptData;
  }

  // The outcome is that of the wrapping decoder. So it is CorruptData only for what the reference
  // decoder rejects, and where the sizes fit the target it is the reference decoder's.
  method Decompress(input: seq<byte>, expected: nat, output: MemoryBuffer) returns (err: Error)
    requires output.Valid() && expected <= output.sizeMax && |input| <= output.sizeMax
    modifies output.Repr()
    ensures output.Valid() && fresh(output.Repr() - old(output.Repr()))
    ensures err == NoMemory <==> output.refusals != old(output.refusals)
    ensures err == NoMemory ==> !output.platform.plentiful
    ensures output.refusals >= old(output.refusals)
    ensures err == Ok ==>
              WordDecode(input, 0, [], expected, output.sizeMax + 1) == Accepts(output.Contents())
    ensures err != Ok && err != NoMemory ==> Stops(err, WordDecode(input, 0, [], expected, output.sizeMax + 1))
    ensures err == CorruptData ==> Decoded(input, expected) == None
    ensures Fits(|input|, expected, output.sizeMax + 1) && err != NoMemory ==>
              Decoded(input, expected) == if err == Ok then Some(output.Contents()) else None
  {
    hide WordDecode, Decoded;
    WordAgrees(input, expected, output.sizeMax + 1);
    output.Clear();
    var sized := output.Resize(expected);
    if !sized {
      return if expected == 0 then Ok else NoMemory;
    }
    err := DecodeLoop(input, output.data, expected, output.sizeMax + 1);
  }
}
