/** The block compressor: a greedy matcher over a hash table of recent positions. */
module LzEncoder {
  import opened Types
  import opened LzFormat
  import opened Memory

  const TABLE_SIZE := 1024
  const MAX_OFFSET := 0xFFFF

  /* ---- the greedy choice, stated without a table ---- */

  ghost predicate CanHash(input: seq<byte>, at: int) {
    0 <= at && at + MIN_MATCH <= |input|
  }

  // The 32-bit multiplicative hash of three bytes, reduced to its top ten bits.
  function Slot(input: seq<byte>, at: nat): (s: nat)
    requires at + MIN_MATCH <= |input|
    ensures s < TABLE_SIZE
  {
    Hash(0x1_0000 * input[at] as int + 0x100 * input[at + 1] as int + input[at + 2] as int)
  }

  function Hash(value: nat): (s: nat)
    ensures s < TABLE_SIZE
  {
    value * 2654435761 % 0x1_0000_0000 / 0x40_0000
  }

  // The greatest position before `at` that falls into the slot, or -1.
  ghost function Latest(input: seq<byte>, at: nat, slot: nat): (p: int)
    ensures -1 <= p < at
  {
    if at == 0 then -1
    else if CanHash(input, at - 1) && Slot(input, at - 1) == slot then at - 1
    else Latest(input, at - 1, slot)
  }

  // The 32-bit signed value that a position is stored as.
  function Int32(value: int): int {
    (value + 0x8000_0000) % 0x1_0000_0000 - 0x8000_0000
  }

  ghost function Remembered(input: seq<byte>, at: int): int {
    if CanHash(input, at) then Int32(Latest(input, at, Slot(input, at))) else -1
  }

  // How far the bytes at two positions agree before the later one reaches the end.
  ghost function CommonLength(input: seq<byte>, current: nat, candidate: nat): (n: nat)
    requires candidate < current <= |input|
    ensures current + n <= |input|
    decreases |input| - current
  {
    if current < |input| && input[candidate] == input[current]
    then 1 + CommonLength(input, current + 1, candidate + 1)
    else 0
  }

  ghost predicate Usable(input: seq<byte>, window: nat, candidate: int, index: nat)
    requires CanHash(input, index)
  {
    && 0 <= candidate < index
    && index - candidate <= window
    && index - candidate <= MAX_OFFSET
    && input[candidate..candidate + MIN_MATCH] == input[index..index + MIN_MATCH]
  }

  // The block the compressor emits for input[anchor..], having looked at everything before
  // `index`. `lookup` is what the table answers at each position; nothing is assumed of it.
  ghost function Greedy(input: seq<byte>, window: nat, lookup: int -> int, anchor: nat, index: nat): (b: Block)
    requires anchor <= index <= |input|
    ensures Encodable(b)
    decreases |input| - index
  {
    if !CanHash(input, index) then Tail(input[anchor..], 0)
    else if Usable(input, window, lookup(index), index) then
      var length := CommonLength(input, index, lookup(index));
      CommonAtLeast(input, index, lookup(index));
      Copy(input[anchor..index], index - lookup(index), length,
           Greedy(input, window, lookup, index + length, index + length))
    else Greedy(input, window, lookup, anchor, index + 1)
  }

  ghost function TableMemory(input: seq<byte>): int -> int {
    at => Remembered(input, at)
  }

  ghost function Compressed(input: seq<byte>, window: nat): seq<byte> {
    if input == [] then [] else Serialize(Greedy(input, window, TableMemory(input), 0, 0))
  }

  lemma CommonAtLeast(input: seq<byte>, index: nat, candidate: nat)
    requires candidate < index && CanHash(input, index)
    requires input[candidate..candidate + MIN_MATCH] == input[index..index + MIN_MATCH]
    ensures CommonLength(input, index, candidate) >= MIN_MATCH
  {
    var a, b := input[candidate..candidate + MIN_MATCH], input[index..index + MIN_MATCH];
    assert input[candidate] == a[0] == b[0] == input[index];
    assert input[candidate + 1] == a[1] == b[1] == input[index + 1];
    assert input[candidate + 2] == a[2] == b[2] == input[index + 2];
    assert CommonLength(input, index, candidate) == 1 + CommonLength(input, index + 1, candidate + 1);
    assert CommonLength(input, index + 1, candidate + 1) == 1 + CommonLength(input, index + 2, candidate + 2);
  }

  lemma SliceFront(input: seq<byte>, from: nat, n: nat)
    requires from + n < |input|
    ensures input[from..from + (n + 1)] == [input[from]] + input[from + 1..from + 1 + n]
  {
  }

  lemma CommonLengthIs(input: seq<byte>, current: nat, candidate: nat)
    requires candidate < current <= |input|
    ensures CommonLength(input, current, candidate) ==
            if current < |input| && input[candidate] == input[current]
            then CommonLength(input, current + 1, candidate + 1) + 1 else 0
  {
  }

  // The common length is right-maximal: the bytes inside it agree, the next ones do not.
  lemma {:induction false} CommonMaximal(input: seq<byte>, current: nat, candidate: nat)
    requires candidate < current <= |input|
    ensures var n := CommonLength(input, current, candidate);
            && input[candidate..candidate + n] == input[current..current + n]
            && (current + n == |input| || input[candidate + n] != input[current + n])
    decreases |input| - current
  {
    hide CommonLength;
    CommonLengthIs(input, current, candidate);
    if current < |input| && input[candidate] == input[current] {
      CommonMaximal(input, current + 1, candidate + 1);
      var n := CommonLength(input, current + 1, candidate + 1);
      SliceFront(input, candidate, n);
      SliceFront(input, current, n);
    }
  }

  /* ---- the loop ---- */

  method AppendLength(output: MemoryBuffer, length: nat) returns (ok: bool)
    requires output.Valid()
    modifies output.Repr()
    ensures output.Valid() && fresh(output.Repr() - old(output.Repr()))
    ensures ok ==> output.Contents() == old(output.Contents()) + Extend(length)
    ensures old(output.RoomFor(|Extend(length)|)) ==> ok
    ensures ok <==> output.refusals == old(output.refusals)
    ensures output.refusals >= old(output.refusals)
  {
    hide MemoryBuffer.Contents, MemoryBuffer.Valid;
    var value: nat := length;
    while value >= 255
      invariant value <= length && output.Valid() && fresh(output.Repr() - old(output.Repr()))
      invariant output.Contents() + Extend(value) == old(output.Contents()) + Extend(length)
      invariant output.refusals == old(output.refusals)
    {
      Associate(output.Contents(), [255], Extend(value - 255));
      ok := output.AppendByte(255);
      if !ok {
        return;
      }
      value := value - 255;
    }
    ok := output.AppendByte(value);
  }

  method EmitSequence(output: MemoryBuffer, literals: seq<byte>, offset: nat, length: nat, hasMatch: bool)
    returns (ok: bool)
    requires output.Valid() && |literals| <= output.sizeMax
    requires offset < 0x1_0000 && (hasMatch ==> MIN_MATCH <= length)
    modifies output.Repr()
    ensures output.Valid() && fresh(output.Repr() - old(output.Repr()))
    ensures ok && hasMatch ==>
              output.Contents() == old(output.Contents()) + CopyBytes(literals, offset, length)
    ensures ok && !hasMatch ==> output.Contents() == old(output.Contents()) + LiteralBytes(literals, 0)
    ensures hasMatch && old(output.RoomFor(|CopyBytes(literals, offset, length)|)) ==> ok
    ensures !hasMatch && old(output.RoomFor(|LiteralBytes(literals, 0)|)) ==> ok
    ensures ok <==> output.refusals == old(output.refusals)
    ensures output.refusals >= old(output.refusals)
  {
    hide MemoryBuffer.Contents, MemoryBuffer.Valid, LiteralBytes, MatchBytes;
    var encodedLength := if hasMatch then length - MIN_MATCH else 0;
    var nibble := if hasMatch then Nibble(encodedLength) else 0;
    ok := EmitLiterals(output, literals, nibble);
    if !ok || !hasMatch {
      return;
    }
    ok := EmitMatch(output, offset, length);
  }

  method EmitLiterals(output: MemoryBuffer, literals: seq<byte>, nibble: nat) returns (ok: bool)
    requires output.Valid() && |literals| <= output.sizeMax && nibble < 16
    modifies output.Repr()
    ensures output.Valid() && fresh(output.Repr() - old(output.Repr()))
    ensures ok ==> output.Contents() == old(output.Contents()) + LiteralBytes(literals, nibble)
    ensures old(output.RoomFor(|LiteralBytes(literals, nibble)|)) ==> ok
    ensures ok <==> output.refusals == old(output.refusals)
    ensures output.refusals >= old(output.refusals)
  {
    hide MemoryBuffer.Contents, MemoryBuffer.Valid, Extend;
    ok := output.AppendByte(16 * Nibble(|literals|) + nibble);
    if !ok {
      return;
    }
    if |literals| >= 15 {
      ok := AppendLength(output, |literals| - 15);
      if !ok {
        return;
      }
    }
    ok := output.Append(literals);
  }

  method EmitMatch(output: MemoryBuffer, offset: nat, length: nat) returns (ok: bool)
    requires output.Valid() && offset < 0x1_0000 && MIN_MATCH <= length
    modifies output.Repr()
    ensures output.Valid() && fresh(output.Repr() - old(output.Repr()))
    ensures ok ==> output.Contents() == old(output.Contents()) + MatchBytes(offset, length)
    ensures old(output.RoomFor(|MatchBytes(offset, length)|)) ==> ok
    ensures ok <==> output.refusals == old(output.refusals)
    ensures output.refusals >= old(output.refusals)
  {
    hide MemoryBuffer.Contents, MemoryBuffer.Valid, Extend;
    ok := output.AppendByte(offset % 256);
    if !ok {
      return;
    }
    ok := output.AppendByte(offset / 256);
    if !ok || length - MIN_MATCH < 15 {
      return;
    }
    ok := AppendLength(output, length - MIN_MATCH - 15);
  }

  method ComputeMatchLength(input: seq<byte>, current: nat, candidate: nat) returns (length: nat)
    requires candidate < current <= |input|
    ensures length == CommonLength(input, current, candidate)
  {
    length := 0;
    while current + length < |input| && input[candidate + length] == input[current + length]
      invariant current + length <= |input|
      invariant CommonLength(input, current, candidate) ==
                length + CommonLength(input, current + length, candidate + length)
    {
      length := length + 1;
    }
  }

  // The table answers every slot with the latest position before `at`.
  ghost predicate Indexed(input: seq<byte>, table: array<int>, at: nat)
    reads table
  {
    && table.Length == TABLE_SIZE
    && forall s: nat | s < TABLE_SIZE :: table[s] == Int32(Latest(input, at, s))
  }

  lemma StartsIndexed(input: seq<byte>, table: array<int>)
    requires table.Length == TABLE_SIZE && forall s | 0 <= s < TABLE_SIZE :: table[s] == -1
    ensures Indexed(input, table, 0)
  {
  }

  lemma CompressedIs(input: seq<byte>, window: nat)
    ensures Compressed(input, window) ==
            if input == [] then [] else Serialize(Greedy(input, window, TableMemory(input), 0, 0))
  {
  }

  method Remember(input: seq<byte>, table: array<int>, at: nat)
    requires at + MIN_MATCH <= |input| && Indexed(input, table, at)
    modifies table
    ensures Indexed(input, table, at + 1)
  {
    table[Slot(input, at)] := Int32(at);
  }

  // Every position inside a match is remembered as well, as far as three bytes are left.
  method RememberMatch(input: seq<byte>, table: array<int>, index: nat, length: nat)
    requires 1 <= length && index + length <= |input| && Indexed(input, table, index + 1)
    modifies table
    ensures Indexed(input, table, index + length)
  {
    for i := 1 to length
      invariant Indexed(input, table, index + i)
    {
      if index + i + MIN_MATCH <= |input| {
        Remember(input, table, index + i);
      }
    }
  }

  // The match the table offers at `index`, of length 0 when there is none; the position is
  // remembered in either case.
  method FindMatch(input: seq<byte>, window: nat, table: array<int>, index: nat)
    returns (length: nat, offset: nat)
    requires index + MIN_MATCH <= |input| && Indexed(input, table, index)
    modifies table
    ensures Indexed(input, table, index + 1)
    ensures var candidate := Remembered(input, index);
            if Usable(input, window, candidate, index)
            then length == CommonLength(input, index, candidate) && offset == index - candidate
            else length == 0
  {
    length, offset := 0, 0;
    var previous := table[Slot(input, index)];
    Remember(input, table, index);
    if previous >= 0 {
      var candidate: nat := previous;
      if && index > candidate
         && index - candidate <= window
         && index - candidate <= MAX_OFFSET
         && input[candidate..candidate + MIN_MATCH] == input[index..index + MIN_MATCH] {
        length := ComputeMatchLength(input, index, candidate);
        offset := index - candidate;
      }
    }
  }

  // One step of the greedy choice, in terms of the bytes still to be written.
  lemma GreedyStep(input: seq<byte>, window: nat, lookup: int -> int, anchor: nat, index: nat)
    requires anchor <= index && CanHash(input, index)
    ensures var candidate := lookup(index);
            var pending := Serialize(Greedy(input, window, lookup, anchor, index));
            if Usable(input, window, candidate, index) then
              var length := CommonLength(input, index, candidate);
              && MIN_MATCH <= length && index - candidate < 0x1_0000
              && pending == CopyBytes(input[anchor..index], index - candidate, length) +
                            Serialize(Greedy(input, window, lookup, index + length, index + length))
            else pending == Serialize(Greedy(input, window, lookup, anchor, index + 1))
  {
    if Usable(input, window, lookup(index), index) {
      CommonAtLeast(input, index, lookup(index));
    }
  }

  lemma GreedyEnd(input: seq<byte>, window: nat, lookup: int -> int, anchor: nat, index: nat)
    requires anchor <= index <= |input| && !CanHash(input, index)
    ensures Serialize(Greedy(input, window, lookup, anchor, index)) == LiteralBytes(input[anchor..], 0)
  {
  }

  // One round of the loop: the step of the greedy choice at `index`, and what it writes.
  method TakeStep(input: seq<byte>, window: nat, table: array<int>, output: MemoryBuffer, anchor: nat, index: nat)
    returns (ok: bool, anchor': nat, index': nat)
    requires anchor <= index && index + MIN_MATCH <= |input| && Indexed(input, table, index)
    requires output.Valid() && |input| <= output.sizeMax && table !in output.Repr()
    modifies table, output.Repr()
    ensures output.Valid() && fresh(output.Repr() - old(output.Repr()))
    ensures ok <==> output.refusals == old(output.refusals)
    ensures output.refusals >= old(output.refusals)
    ensures old(output.RoomFor(|Serialize(Greedy(input, window, TableMemory(input), anchor, index))|)) ==> ok
    ensures ok ==>
              && anchor' <= index' <= |input| && index < index' && Indexed(input, table, index')
              && output.Contents() + Serialize(Greedy(input, window, TableMemory(input), anchor', index')) ==
                 old(output.Contents()) + Serialize(Greedy(input, window, TableMemory(input), anchor, index))
  {
    hide MemoryBuffer.Contents, MemoryBuffer.Valid, CopyBytes, LiteralBytes, Usable, CommonLength, Remembered,
         Greedy, Serialize, Encodable, Indexed, TableMemory;
    ghost var lookup := TableMemory(input);
    GreedyStep(input, window, lookup, anchor, index);
    TableAnswers(input, index);
    var length, offset := FindMatch(input, window, table, index);
    if length < MIN_MATCH {
      return true, anchor, index + 1;
    }
    ghost var before, sequence := output.Contents(), CopyBytes(input[anchor..index], offset, length);
    ok := EmitSequence(output, input[anchor..index], offset, length, true);
    anchor', index' := index + length, index + length;
    if ok {
      RememberMatch(input, table, index, length);
      Associate(before, sequence, Serialize(Greedy(input, window, lookup, anchor', index')));
    }
  }

  lemma TableAnswers(input: seq<byte>, at: int)
    ensures TableMemory(input)(at) == Remembered(input, at)
  {
  }

  method Compress(input: seq<byte>, window: nat, output: MemoryBuffer) returns (err: Error)
    requires output.Valid() && |input| <= output.sizeMax
    modifies output.Repr()
    ensures output.Valid() && fresh(output.Repr() - old(output.Repr()))
    ensures err == Ok || err == NoMemory
    ensures err == Ok <==> output.refusals == old(output.refusals)
    ensures output.refusals >= old(output.refusals)
    ensures err == Ok ==> output.Contents() == Compressed(input, window)
    ensures output.platform.plentiful && |Compressed(input, window)| <= output.sizeMax ==> err == Ok
  {
    hide MemoryBuffer.Contents, MemoryBuffer.Valid, LiteralBytes, Greedy, Serialize, Encodable, Indexed,
         TableMemory, Compressed;
    output.Clear();
    CompressedIs(input, window);
    if |input| == 0 {
      return Ok;
    }
    var table := new int[TABLE_SIZE](_ => -1);
    StartsIndexed(input, table);
    ghost var lookup := TableMemory(input);
    var anchor: nat, index: nat := 0, 0;
    while index + MIN_MATCH <= |input|
      invariant anchor <= index <= |input|
      invariant output.Valid() && fresh(output.Repr() - old(output.Repr())) && table !in output.Repr()
      invariant output.refusals == old(output.refusals)
      invariant Indexed(input, table, index)
      invariant output.Contents() + Serialize(Greedy(input, window, lookup, anchor, index)) ==
                Compressed(input, window)
      decreases |input| - index
    {
      var ok;
      ok, anchor, index := TakeStep(input, window, table, output, anchor, index);
      if !ok {
        return NoMemory;
      }
    }
    GreedyEnd(input, window, lookup, anchor, index);
    var emitted := EmitSequence(output, input[anchor..], 0, 0, false);
    return if emitted then Ok else NoMemory;
  }
}
