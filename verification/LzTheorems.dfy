/** What the block codec promises as a whole: round trip, the choice of matches, sizes. */
module LzTheorems {
  import opened Types
  import opened LzFormat
  import opened LzEncoder

  /* ---- round trip ---- */

  lemma PrefixOfSlice(input: seq<byte>, from: nat, length: nat)
    requires 0 < length && from + length <= |input|
    ensures input[from..from + length][..length - 1] == input[from..from + (length - 1)]
  {
  }

  lemma {:induction false} CopyBackAgrees(input: seq<byte>, index: nat, offset: nat, length: nat)
    requires 1 <= offset <= index && index + length <= |input|
    requires input[index - offset..index - offset + length] == input[index..index + length]
    ensures CopyBack(input[..index], offset, length) == input[..index + length]
  {
    if length != 0 {
      var source, copy := input[index - offset..index - offset + length], input[index..index + length];
      PrefixOfSlice(input, index - offset, length);
      PrefixOfSlice(input, index, length);
      CopyBackAgrees(input, index, offset, length - 1);
      assert source[length - 1] == copy[length - 1];
      assert input[..index + length] == input[..index + length - 1] + [input[index + length - 1]];
    }
  }

  // The match found at `index` copies exactly the bytes that stand there.
  lemma MatchCopies(input: seq<byte>, anchor: nat, index: nat, candidate: nat)
    requires anchor <= index && candidate < index && CanHash(input, index)
    requires input[candidate..candidate + MIN_MATCH] == input[index..index + MIN_MATCH]
    ensures var length := CommonLength(input, index, candidate);
            && MIN_MATCH <= length
            && input[..anchor] + input[anchor..index] == input[..index]
            && CopyBack(input[..index], index - candidate, length) == input[..index + length]
  {
    CommonAtLeast(input, index, candidate);
    CommonMaximal(input, index, candidate);
    CopyBackAgrees(input, index, index - candidate, CommonLength(input, index, candidate));
  }

  // Whatever the table answers, what the compressor emits expands to the input.
  lemma {:induction false} GreedyExpands(input: seq<byte>, window: nat, lookup: int -> int, anchor: nat, index: nat)
    requires anchor <= index <= |input|
    ensures var b := Greedy(input, window, lookup, anchor, index);
            Valid(b, anchor) && Expand(b, input[..anchor]) == input
    decreases |input| - index
  {
    hide CommonLength, CopyBack, TotalLength;
    var candidate := lookup(index);
    if !CanHash(input, index) {
      assert input == input[..anchor] + input[anchor..];
    } else if Usable(input, window, candidate, index) {
      var length := CommonLength(input, index, candidate);
      MatchCopies(input, anchor, index, candidate);
      GreedyExpands(input, window, lookup, index + length, index + length);
    } else {
      GreedyExpands(input, window, lookup, anchor, index + 1);
    }
  }

  lemma GreedyRoundTrip(input: seq<byte>, window: nat, lookup: int -> int)
    ensures Decoded(Serialize(Greedy(input, window, lookup, 0, 0)), |input|) == Some(input)
  {
    var b := Greedy(input, window, lookup, 0, 0);
    ParseSerialize(b);
    GreedyExpands(input, window, lookup, 0, 0);
    assert input[..0] == [];
  }

  lemma BlockRoundTrip(input: seq<byte>, window: nat)
    ensures Decoded(Compressed(input, window), |input|) == Some(input)
  {
    if input == [] {
      assert Parse([]) == Some(End);
    } else {
      GreedyRoundTrip(input, window, TableMemory(input));
    }
  }

  /* ---- which matches are chosen ---- */

  // The latest position of a slot, told apart from its definition: nothing later qualifies.
  ghost predicate IsLatest(input: seq<byte>, at: nat, slot: nat, p: int) {
    && -1 <= p < at
    && (p >= 0 ==> p + 3 <= |input| && Slot(input, p) == slot)
    && forall q | p < q < at && q + 3 <= |input| :: Slot(input, q) != slot
  }

  lemma {:induction false} LatestIsLatest(input: seq<byte>, at: nat, slot: nat, p: int)
    ensures IsLatest(input, at, slot, p) <==> p == Latest(input, at, slot)
  {
    if at != 0 {
      LatestIsLatest(input, at - 1, slot, p);
      if CanHash(input, at - 1) && Slot(input, at - 1) == slot {
        assert IsLatest(input, at, slot, p) ==> p >= at - 1;
      } else {
        assert IsLatest(input, at, slot, p) <==> IsLatest(input, at - 1, slot, p);
      }
    }
  }

  // What a position becomes when it is stored as int32: the same modulo 2^32, and within its range.
  lemma Int32Is(value: int)
    ensures -2147483648 <= Int32(value) < 2147483648 && (value - Int32(value)) % 4294967296 == 0
  {
    assert value - Int32(value) == 4294967296 * ((value + 2147483648) / 4294967296);
  }

  // Below 2^31 bytes positions survive being stored as int32.
  lemma RememberedIsLatest(input: seq<byte>, at: nat, p: int)
    requires |input| < 0x8000_0000 && CanHash(input, at)
    ensures p == Remembered(input, at) <==> IsLatest(input, at, Slot(input, at), p)
  {
    LatestIsLatest(input, at, Slot(input, at), p);
  }

  // The match at `index` continues the most recent position with the same hash, stays within the
  // window and within 16 bits, and cannot be made longer.
  ghost predicate BestMatch(input: seq<byte>, window: nat, index: nat, offset: nat, length: nat) {
    && index + 3 <= |input| && 1 <= offset <= Min(window, 65535) && offset <= index
    && IsLatest(input, index, Slot(input, index), index - offset)
    && 3 <= length && index + length <= |input|
    && input[index - offset..index - offset + length] == input[index..index + length]
    && (index + length == |input| || input[index - offset + length] != input[index + length])
  }

  // The latest position with the same hash is too far back or starts with other bytes, or there is
  // none, or too few bytes are left to be hashed.
  ghost predicate NoMatchAt(input: seq<byte>, window: nat, at: nat) {
    at + 3 <= |input| ==>
      forall p | 0 <= p && IsLatest(input, at, Slot(input, at), p) ::
        || at - p > window || at - p > 65535
        || input[p] != input[at] || input[p + 1] != input[at + 1] || input[p + 2] != input[at + 2]
  }

  // The candidate test of the loop, byte by byte.
  lemma UsableMeans(input: seq<byte>, window: nat, p: int, at: nat)
    requires at + 3 <= |input| && -1 <= p < at
    ensures Usable(input, window, p, at) <==>
            && 0 <= p && at - p <= window && at - p <= 65535
            && input[p] == input[at] && input[p + 1] == input[at + 1] && input[p + 2] == input[at + 2]
  {
    if 0 <= p {
      var a, b := input[p..p + 3], input[at..at + 3];
      assert a[0] == input[p] && a[1] == input[p + 1] && a[2] == input[p + 2];
      assert b[0] == input[at] && b[1] == input[at + 1] && b[2] == input[at + 2];
      assert a == [a[0], a[1], a[2]] && b == [b[0], b[1], b[2]];
    }
  }

  // The hash of three bytes: the upper ten bits of their product with the multiplier, modulo 2^32.
  lemma SlotIs(input: seq<byte>, at: nat)
    requires at + 3 <= |input|
    ensures var value := 65536 * input[at] as int + 256 * input[at + 1] as int + input[at + 2] as int;
            && 0 <= Slot(input, at) < 1024
            && (value * 2654435761 - 4194304 * Slot(input, at)) % 4294967296 < 4194304
  {
    hide Hash;
    HashIs(65536 * input[at] as int + 256 * input[at + 1] as int + input[at + 2] as int);
  }

  lemma HashIs(value: nat)
    ensures (value * 2654435761 - 4194304 * Hash(value)) % 4294967296 < 4194304
  {
    UpperBits(value * 2654435761);
  }

  lemma UpperBits(product: nat)
    ensures (product - 4194304 * (product % 4294967296 / 4194304)) % 4294967296 < 4194304
  {
    var low := product % 4294967296;
    RemainderIs(product - 4194304 * (low / 4194304), product / 4294967296, low % 4194304);
  }

  lemma RemainderIs(n: nat, quotient: nat, remainder: nat)
    requires n == 4294967296 * quotient + remainder && remainder < 4294967296
    ensures n % 4294967296 == remainder
  {
  }

  // A block that consists of best matches, and of literals only where there is no match.
  ghost predicate Chosen(b: Block, input: seq<byte>, window: nat, anchor: nat)
    requires anchor <= |input|
    decreases b
  {
    match b
    case End => false
    case Tail(literals, nibble) =>
      && literals == input[anchor..] && nibble == 0
      && forall at | anchor <= at < |input| :: NoMatchAt(input, window, at)
    case Copy(literals, offset, length, rest) =>
      var index := anchor + |literals|;
      && BestMatch(input, window, index, offset, length) && literals == input[anchor..index]
      && (forall at | anchor <= at < index :: NoMatchAt(input, window, at))
      && Chosen(rest, input, window, index + length)
  }

  lemma UsableIsBest(input: seq<byte>, window: nat, index: nat)
    requires |input| < 0x8000_0000 && CanHash(input, index)
    ensures var p := Remembered(input, index);
            if Usable(input, window, p, index)
            then BestMatch(input, window, index, index - p, CommonLength(input, index, p))
            else NoMatchAt(input, window, index)
  {
    hide Latest, CommonLength, Slot, IsLatest, Usable;
    var p := Remembered(input, index);
    RememberedIsLatest(input, index, p);
    LatestInRange(input, index, Slot(input, index), p);
    UsableMeans(input, window, p, index);
    if Usable(input, window, p, index) {
      SameBytes(input, p, index);
      CommonAtLeast(input, index, p);
      CommonMaximal(input, index, p);
    } else {
      forall q | 0 <= q && IsLatest(input, index, Slot(input, index), q)
        ensures q == p
      {
        RememberedIsLatest(input, index, q);
      }
    }
  }

  lemma LatestInRange(input: seq<byte>, at: nat, slot: nat, p: int)
    requires IsLatest(input, at, slot, p)
    ensures -1 <= p < at
  {
  }

  lemma SameBytes(input: seq<byte>, p: nat, at: nat)
    requires p < at && at + 3 <= |input|
    requires input[p] == input[at] && input[p + 1] == input[at + 1] && input[p + 2] == input[at + 2]
    ensures input[p..p + MIN_MATCH] == input[at..at + MIN_MATCH]
  {
    assert input[p..p + 3] == [input[p], input[p + 1], input[p + 2]];
    assert input[at..at + 3] == [input[at], input[at + 1], input[at + 2]];
  }

  lemma {:induction false} GreedyChosen(input: seq<byte>, window: nat, anchor: nat, index: nat)
    requires |input| < 0x8000_0000 && anchor <= index <= |input|
    requires forall at | anchor <= at < index :: NoMatchAt(input, window, at)
    ensures Chosen(Greedy(input, window, TableMemory(input), anchor, index), input, window, anchor)
    decreases |input| - index
  {
    hide CommonLength, Remembered, NoMatchAt, BestMatch;
    if CanHash(input, index) {
      var p := Remembered(input, index);
      UsableIsBest(input, window, index);
      if Usable(input, window, p, index) {
        CommonAtLeast(input, index, p);
        var after := index + CommonLength(input, index, p);
        GreedyChosen(input, window, after, after);
      } else {
        GreedyChosen(input, window, anchor, index + 1);
      }
    } else {
      forall at | index <= at < |input|
        ensures NoMatchAt(input, window, at)
      {
        NothingToHash(input, window, at);
      }
    }
  }

  lemma NothingToHash(input: seq<byte>, window: nat, at: nat)
    requires !CanHash(input, at)
    ensures NoMatchAt(input, window, at)
  {
  }

  lemma BestMatchIsUsable(input: seq<byte>, window: nat, index: nat, offset: nat, length: nat)
    requires BestMatch(input, window, index, offset, length)
    ensures !NoMatchAt(input, window, index)
  {
    hide Slot;
    var p := index - offset;
    LongerAgrees(input, index, offset, 0, length);
    LongerAgrees(input, index, offset, 1, length);
    LongerAgrees(input, index, offset, 2, length);
    assert IsLatest(input, index, Slot(input, index), p);
  }

  lemma BestMatchUnique(input: seq<byte>, window: nat, index: nat,
                        offset: nat, length: nat, offset': nat, length': nat)
    requires BestMatch(input, window, index, offset, length)
    requires BestMatch(input, window, index, offset', length')
    ensures offset == offset' && length == length'
  {
    var slot := Slot(input, index);
    LatestIsLatest(input, index, slot, index - offset);
    LatestIsLatest(input, index, slot, index - offset');
    LongerAgrees(input, index, offset, length, length');
    LongerAgrees(input, index, offset, length', length);
  }

  lemma LongerAgrees(input: seq<byte>, index: nat, offset: nat, length: nat, longer: nat)
    requires offset <= index && index + longer <= |input|
    requires input[index - offset..index - offset + longer] == input[index..index + longer]
    ensures length < longer ==> input[index - offset + length] == input[index + length]
  {
    if length < longer {
      assert input[index - offset + length] == input[index - offset..index - offset + longer][length];
      assert input[index + length] == input[index..index + longer][length];
    }
  }

  // Scanning backwards leaves no freedom: only one block is chosen for an input.
  lemma {:induction false} ChosenUnique(b: Block, c: Block, input: seq<byte>, window: nat, anchor: nat)
    requires anchor <= |input| && Chosen(b, input, window, anchor) && Chosen(c, input, window, anchor)
    ensures b == c
    decreases b
  {
    hide BestMatch, NoMatchAt;
    var i, j := anchor + |b.literals|, anchor + |c.literals|;
    if b.Copy? {
      BestMatchIsUsable(input, window, i, b.offset, b.length);
      BestMatchInside(input, window, i, b.offset, b.length);
    }
    if c.Copy? {
      BestMatchIsUsable(input, window, j, c.offset, c.length);
      BestMatchInside(input, window, j, c.offset, c.length);
    }
    if b.Copy? && c.Copy? {
      assert i == j;
      BestMatchUnique(input, window, i, b.offset, b.length, c.offset, c.length);
      ChosenUnique(b.rest, c.rest, input, window, i + b.length);
    }
  }

  lemma BestMatchInside(input: seq<byte>, window: nat, index: nat, offset: nat, length: nat)
    requires BestMatch(input, window, index, offset, length)
    ensures index < index + length <= |input|
  {
  }

  // The bytes written for an input are those of the one block that scanning backwards chooses.
  lemma CompressedIsChosen(input: seq<byte>, window: nat, b: Block)
    requires 0 < |input| < 0x8000_0000
    ensures Chosen(b, input, window, 0) <==> b == Greedy(input, window, TableMemory(input), 0, 0)
    ensures Chosen(b, input, window, 0) ==> Encodable(b) && Compressed(input, window) == Serialize(b)
  {
    GreedyChosen(input, window, 0, 0);
    if Chosen(b, input, window, 0) {
      ChosenUnique(b, Greedy(input, window, TableMemory(input), 0, 0), input, window, 0);
    }
  }

  /* ---- sizes ---- */

  lemma LengthBytesSize(value: nat)
    ensures 15 * |LengthBytes(value)| <= value <= 255 * |LengthBytes(value)| + 14
  {
    if value >= 15 {
      ExtendSize(value - 15);
    }
  }

  // No block is stored in much more than it expands to, nor in less than a 255th of it.
  lemma {:induction false} SerializedSize(b: Block, produced: nat)
    requires Encodable(b)
    ensures var total := TotalLength(b, produced) - produced;
            && 15 * |Serialize(b)| <= 16 * total + 15
            && total <= 255 * |Serialize(b)|
  {
    match b
    case End =>
    case Tail(literals, _) => LengthBytesSize(|literals|);
    case Copy(literals, offset, length, rest) =>
      LengthBytesSize(|literals|);
      LengthBytesSize(length - MIN_MATCH);
      CopyBytesSize(literals, offset, length);
      SerializedSize(rest, produced + |literals| + length);
  }

  lemma CopyBytesSize(literals: seq<byte>, offset: nat, length: nat)
    requires offset < 0x1_0000 && MIN_MATCH <= length
    ensures |CopyBytes(literals, offset, length)| ==
            3 + |LengthBytes(|literals|)| + |literals| + |LengthBytes(length - MIN_MATCH)|
  {
  }

  lemma CompressedSize(input: seq<byte>, window: nat)
    ensures |Compressed(input, window)| <= |input| + |input| / 15 + 1
  {
    if input != [] {
      var b := Greedy(input, window, TableMemory(input), 0, 0);
      GreedyExpands(input, window, TableMemory(input), 0, 0);
      SerializedSize(b, 0);
      assert input[..0] == [];
    }
  }

  lemma DecodedSize(input: seq<byte>, expected: nat)
    requires Decoded(input, expected).Some?
    ensures expected <= 255 * |input|
  {
    SerializeParse(input);
    SerializedSize(Parse(input).value, 0);
  }

  // A run of one byte becomes a single literal and one match that overlaps its own output.
  lemma ConstantRun(input: seq<byte>, window: nat)
    requires |input| >= 4 && window >= 1 && forall i | 0 <= i < |input| :: input[i] == input[0]
    ensures Compressed(input, window) ==
            CopyBytes([input[0]], 1, |input| - 1) + LiteralBytes([], 0)
    ensures |Compressed(input, window)| ==
            if |input| < 19 then 5 else 5 + (|input| - 19) / 255 + 1
  {
    var n, lookup := |input|, TableMemory(input);
    assert Slot(input, 0) == Slot(input, 1);
    assert Latest(input, 1, Slot(input, 1)) == 0 by {
      assert CanHash(input, 0);
    }
    assert lookup(0) == -1 && lookup(1) == 0;
    assert input[0..3] == input[1..4];
    CommonMaximal(input, 1, 0);
    var length := CommonLength(input, 1, 0);
    assert length == n - 1;
    assert input[0..1] == [input[0]] && input[n..] == [];
    assert Greedy(input, window, lookup, n, n) == Tail([], 0);
    assert Greedy(input, window, lookup, 0, 1) == Copy([input[0]], 1, n - 1, Tail([], 0));
    assert Greedy(input, window, lookup, 0, 0) == Greedy(input, window, lookup, 0, 1);
    var b := Copy([input[0]], 1, n - 1, Tail([], 0));
    assert Serialize(b) == CopyBytes([input[0]], 1, n - 1) + Serialize(Tail([], 0));
    if n >= 19 {
      ExtendSize(n - 19);
    }
  }
}
