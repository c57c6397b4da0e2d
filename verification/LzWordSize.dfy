/** The decoder's arithmetic on a target whose size_t wraps around, against unbounded sizes. */
module LzWordSize {
  import opened Types
  import opened LzFormat

  // What the wrapping decoder does: besides accepting or rejecting, a sum that wrapped could let
  // it pass a bounds check it should have failed; what it does then is not defined.
  datatype WordOutcome = Accepts(output: seq<byte>) | Rejects | OutOfBounds

  // What the reference decoder says, as an outcome.
  function Plain(decoded: Option<seq<byte>>): WordOutcome {
    match decoded
    case None => Rejects
    case Some(output) => Accepts(output)
  }

  function Wrap(sum: nat, word: nat): (r: nat)
    requires word > 0
    ensures r < word
  {
    sum % word
  }

  lemma Fitting(sum: nat, word: nat)
    requires sum < word
    ensures Wrap(sum, word) == sum
  {
  }

  lemma WrapsOnce(sum: nat, word: nat)
    requires 0 < word <= sum < 2 * word
    ensures Wrap(sum, word) == sum - word
  {
    RemainderIs(sum, word, 1, sum - word);
  }

  lemma RemainderIs(n: nat, d: nat, q: nat, r: nat)
    requires r < d && n == d * q + r
    ensures n % d == r
  {
    var gap := q - n / d;
    assert d * gap == n % d - r;
  }

  lemma WrapTwice(a: nat, b: nat, word: nat)
    requires word > 0
    ensures Wrap(Wrap(a, word) + b, word) == Wrap(a + b, word)
  {
    var x := a % word + b;
    assert a + b == word * (a / word) + x;
    assert a + b == word * (a / word + x / word) + x % word;
    RemainderIs(a + b, word, a / word + x / word, x % word);
  }

  datatype WordRun = WordRun(value: nat, next: nat)

  function WordExtended(input: seq<byte>, at: nat, value: nat, word: nat): (r: Option<WordRun>)
    requires at <= |input| && word > 0
    ensures r.Some? ==> at < r.value.next <= |input|
    decreases |input| - at
  {
    if at >= |input| then None
    else
      var sum := Wrap(value + input[at], word);
      if input[at] == 255 then WordExtended(input, at + 1, sum, word)
      else Some(WordRun(sum, at + 1))
  }

  function WordLength(input: seq<byte>, at: nat, nibble: nat, base: nat, word: nat): (r: Option<WordRun>)
    requires at <= |input| && word > 0
    ensures r.Some? ==> at <= r.value.next <= |input|
  {
    if nibble == 15 then WordExtended(input, at, base + nibble, word)
    else Some(WordRun(base + nibble, at))
  }

  // The decode loop with every size_t sum reduced modulo `word`.
  ghost function WordDecode(input: seq<byte>, at: nat, out: seq<byte>, expected: nat, word: nat): WordOutcome
    requires at <= |input| && word > 0
    decreases |input| - at
  {
    if at == |input| then if |out| == expected then Accepts(out) else Rejects
    else
      match WordLength(input, at + 1, input[at] / 16, 0, word)
      case None => Rejects
      case Some(l) =>
        if Wrap(l.next + l.value, word) > |input| || Wrap(|out| + l.value, word) > expected then Rejects
        else if l.next + l.value > |input| || |out| + l.value > expected then OutOfBounds
        else
          var literals, next := input[l.next..l.next + l.value], l.next + l.value;
          if |out + literals| == expected then
            if next == |input| then Accepts(out + literals) else Rejects
          else WordMatch(input, next, input[at] % 16, out + literals, expected, word)
  }

  ghost function WordMatch(input: seq<byte>, at: nat, nibble: nat, out: seq<byte>, expected: nat,
                           word: nat): WordOutcome
    requires at <= |input| && word > 0
    decreases |input| - at
  {
    if Wrap(at + 2, word) > |input| then Rejects
    else if at + 2 > |input| then OutOfBounds
    else
      var offset := Le16(input[at], input[at + 1]);
      if offset == 0 || offset > |out| then Rejects
      else
        match WordLength(input, at + 2, nibble, MIN_MATCH, word)
        case None => Rejects
        case Some(m) =>
          if Wrap(|out| + m.value, word) > expected then Rejects
          else if |out| + m.value > expected then OutOfBounds
          else WordDecode(input, m.next, CopyBack(out, offset, m.value), expected, word)
  }

  /* ---- lengths ---- */

  lemma WordExtendedAt(input: seq<byte>, at: nat, value: nat, word: nat)
    requires at <= |input| && word > 0
    ensures WordExtended(input, at, value, word) ==
            if at == |input| then None
            else if input[at] == 255 then WordExtended(input, at + 1, Wrap(value + 255, word), word)
            else Some(WordRun(Wrap(value + input[at], word), at + 1))
  {
  }

  // A length is read modulo the word, and never exceeds 255 for each of its bytes.
  lemma {:induction false} WordExtendedIs(input: seq<byte>, at: nat, value: nat, word: nat)
    requires at <= |input| && value < word
    ensures match ReadExtended(input[at..])
            case None => WordExtended(input, at, value, word) == None
            case Some(l) =>
              && |l.rest| < |input| - at && l.rest == input[|input| - |l.rest|..]
              && l.value < 255 * (|input| - |l.rest| - at)
              && WordExtended(input, at, value, word) ==
                 Some(WordRun(Wrap(value + l.value, word), |input| - |l.rest|))
    decreases |input| - at
  {
    hide Wrap, ReadExtended, WordExtended;
    ReadExtendedAt(input, at);
    WordExtendedAt(input, at, value, word);
    if at == |input| {
    } else if input[at] != 255 {
      assert |input| - |input[at + 1..]| == at + 1;
    } else {
      WordExtendedIs(input, at + 1, Wrap(value + 255, word), word);
      match ReadExtended(input[at + 1..])
      case None =>
      case Some(l) =>
        WrapTwice(value + 255, l.value, word);
        assert value + 255 + l.value == value + (255 + l.value);
    }
  }

  lemma WordLengthIs(input: seq<byte>, at: nat, nibble: nat, base: nat, word: nat)
    requires at <= |input| && nibble < 16 && base + 15 < word
    ensures match ReadLength(nibble, input[at..])
            case None => WordLength(input, at, nibble, base, word) == None
            case Some(l) =>
              && |l.rest| <= |input| - at && l.rest == input[|input| - |l.rest|..]
              && l.value <= 14 + 255 * (|input| - |l.rest| - at)
              && WordLength(input, at, nibble, base, word) ==
                 Some(WordRun(Wrap(base + l.value, word), |input| - |l.rest|))
  {
    hide Wrap;
    if nibble == 15 {
      WordExtendedIs(input, at, base + nibble, word);
    } else {
      Fitting(base + nibble, word);
      assert input[at..] == input[|input| - |input[at..]|..];
    }
  }

  /* ---- steps on which no sum leaves the word ---- */

  // The literals of a token, where the two sums that are checked stay below the word.
  lemma LiteralStep(input: seq<byte>, at: nat, out: seq<byte>, expected: nat, word: nat)
    requires at < |input| < word && 15 < word
    requires match ReadLength(input[at] / 16, input[at + 1..])
             case None => true
             case Some(l) =>
               && |out| + l.value < word
               && (|out| + l.value <= expected ==> |input| - |l.rest| + l.value < word)
    ensures match ReadToken(input[at..])
            case None => WordDecode(input, at, out, expected, word) == Rejects
            case Some(t) =>
              var next := |input| - |t.after|;
              && at < next && t.after == input[next..] && |t.literals| < next - at && t.nibble < 16
              && WordDecode(input, at, out, expected, word) ==
                 if |out + t.literals| > expected then Rejects
                 else if |out + t.literals| == expected then
                   if t.after == [] then Accepts(out + t.literals) else Rejects
                 else WordMatch(input, next, t.nibble, out + t.literals, expected, word)
  {
    hide WordLength, WordMatch, ReadLength, Wrap;
    assert input[at..][1..] == input[at + 1..];
    WordLengthIs(input, at + 1, input[at] / 16, 0, word);
    match ReadLength(input[at] / 16, input[at + 1..])
    case None =>
    case Some(l) =>
      Fitting(l.value, word);
      Fitting(|out| + l.value, word);
      var start := |input| - |l.rest|;
      if |out| + l.value <= expected {
        Fitting(start + l.value, word);
        if start + l.value <= |input| {
          assert l.rest[..l.value] == input[start..start + l.value];
          assert l.rest[l.value..] == input[start + l.value..];
        }
      }
  }

  // A match, where the one sum that is checked stays below the word.
  lemma MatchStep(input: seq<byte>, at: nat, nibble: nat, out: seq<byte>, expected: nat, word: nat)
    requires at <= |input| < word && nibble < 16 && 18 < word
    requires match ReadMatch(nibble, input[at..])
             case None => at + 2 < word
             case Some(m) => |out| + m.length < word
    ensures match ReadMatch(nibble, input[at..])
            case None => WordMatch(input, at, nibble, out, expected, word) == Rejects
            case Some(m) =>
              var next := |input| - |m.rest|;
              && at < next && m.rest == input[next..]
              && WordMatch(input, at, nibble, out, expected, word) ==
                 if 1 <= m.offset <= |out| && |out| + m.length <= expected
                 then WordDecode(input, next, CopyBack(out, m.offset, m.length), expected, word)
                 else Rejects
  {
    hide WordLength, WordDecode, ReadLength, Wrap;
    if at + 2 < word {
      Fitting(at + 2, word);
    }
    if at + 2 <= |input| {
      assert input[at..][2..] == input[at + 2..];
      WordLengthIs(input, at + 2, nibble, MIN_MATCH, word);
      match ReadMatch(nibble, input[at..])
      case None =>
      case Some(m) =>
        Fitting(m.length, word);
        Fitting(|out| + m.length, word);
    }
  }

  /* ---- what the reference accepts, the wrapping decoder accepts ---- */

  // Everything the reference decoder accepts is decoded alike, for any word that can hold the sizes.
  lemma {:induction false} WordDecodeComplete(input: seq<byte>, at: nat, out: seq<byte>, expected: nat, word: nat)
    requires at <= |input| < word && expected < word && 18 < word
    requires Resume(input[at..], out, expected).Some?
    ensures WordDecode(input, at, out, expected, word) == Accepts(Resume(input[at..], out, expected).value)
    decreases |input| - at, 1
  {
    hide Meaning, Parse, Resume, ResumeMatch, CopyBack, ReadLength, WordDecode, WordMatch;
    if at == |input| {
      assert input[at..] == [];
      ResumeEnd(out, expected);
      WordEnd(input, out, expected, word);
    } else {
      ResumeToken(input[at..], out, expected);
      assert input[at..][1..] == input[at + 1..];
      LiteralStep(input, at, out, expected, word);
      var t := ReadToken(input[at..]).value;
      if |out + t.literals| < expected {
        WordMatchComplete(input, |input| - |t.after|, t.nibble, out + t.literals, expected, word);
      }
    }
  }

  lemma WordEnd(input: seq<byte>, out: seq<byte>, expected: nat, word: nat)
    requires word > 0
    ensures WordDecode(input, |input|, out, expected, word) == if |out| == expected then Accepts(out) else Rejects
  {
  }

  lemma {:induction false} WordMatchComplete(input: seq<byte>, at: nat, nibble: nat, out: seq<byte>,
                                             expected: nat, word: nat)
    requires at <= |input| < word && expected < word && 18 < word && nibble < 16
    requires ResumeMatch(nibble, input[at..], out, expected).Some?
    ensures WordMatch(input, at, nibble, out, expected, word) ==
            Accepts(ResumeMatch(nibble, input[at..], out, expected).value)
    decreases |input| - at, 0
  {
    hide Meaning, Parse, Resume, CopyBack, ReadLength, WordDecode, WordMatch;
    MatchStep(input, at, nibble, out, expected, word);
    var m := ReadMatch(nibble, input[at..]).value;
    WordDecodeComplete(input, |input| - |m.rest|, CopyBack(out, m.offset, m.length), expected, word);
  }

  /* ---- where sizes fit, the two agree ---- */

  // Sizes for which no check can be passed by a sum that wrapped: the output never grows by more
  // than 255 bytes for one byte of input, and is `gap` bytes behind that already.
  ghost predicate FitsBehind(size: nat, expected: nat, word: nat, gap: nat) {
    && 255 * size <= word + 240 + gap && size + 2 < word && 18 < word
    && (size + expected < word || 256 * size <= word + 240)
  }

  ghost predicate Fits(size: nat, expected: nat, word: nat) {
    FitsBehind(size, expected, word, 0)
  }

  lemma {:induction false} WordDecodeExact(input: seq<byte>, at: nat, out: seq<byte>, expected: nat, word: nat,
                                           gap: nat)
    requires at <= |input| && |out| + gap <= 255 * at && FitsBehind(|input|, expected, word, gap)
    ensures WordDecode(input, at, out, expected, word) == Plain(Resume(input[at..], out, expected))
    decreases |input| - at, 1
  {
    hide Meaning, Parse, Resume, ResumeMatch, CopyBack, ReadLength, WordDecode, WordMatch;
    if at == |input| {
      assert input[at..] == [];
      ResumeEnd(out, expected);
      WordEnd(input, out, expected, word);
    } else {
      ResumeToken(input[at..], out, expected);
      assert input[at..][1..] == input[at + 1..];
      LengthBound(input, at + 1, input[at] / 16);
      LiteralStep(input, at, out, expected, word);
      match ReadToken(input[at..])
      case None =>
      case Some(t) =>
        if |out + t.literals| < expected {
          WordMatchExact(input, |input| - |t.after|, t.nibble, out + t.literals, expected, word, gap);
        }
    }
  }

  lemma LengthBound(input: seq<byte>, at: nat, nibble: nat)
    requires at <= |input| && nibble < 16
    ensures match ReadLength(nibble, input[at..])
            case None => true
            case Some(l) => |l.rest| <= |input| - at && l.value <= 14 + 255 * (|input| - |l.rest| - at)
  {
    WordLengthIs(input, at, nibble, 0, 16);
  }

  lemma {:induction false} WordMatchExact(input: seq<byte>, at: nat, nibble: nat, out: seq<byte>,
                                          expected: nat, word: nat, gap: nat)
    requires at <= |input| && nibble < 16
    requires |out| + gap + 255 <= 255 * at && FitsBehind(|input|, expected, word, gap)
    ensures WordMatch(input, at, nibble, out, expected, word) ==
            Plain(ResumeMatch(nibble, input[at..], out, expected))
    decreases |input| - at, 0
  {
    hide Meaning, Parse, Resume, CopyBack, ReadLength, WordDecode, WordMatch;
    if at + 2 <= |input| {
      assert input[at..][2..] == input[at + 2..];
      LengthBound(input, at + 2, nibble);
    }
    MatchStep(input, at, nibble, out, expected, word);
    match ReadMatch(nibble, input[at..])
    case None =>
    case Some(m) =>
      if 1 <= m.offset <= |out| && |out| + m.length <= expected {
        WordDecodeExact(input, |input| - |m.rest|, CopyBack(out, m.offset, m.length), expected, word, gap);
      }
  }

  lemma WordAgrees(input: seq<byte>, expected: nat, word: nat)
    requires |input| < word && expected < word && 18 < word
    ensures Decoded(input, expected).Some? ==>
              WordDecode(input, 0, [], expected, word) == Accepts(Decoded(input, expected).value)
    ensures Fits(|input|, expected, word) ==>
              WordDecode(input, 0, [], expected, word) == Plain(Decoded(input, expected))
  {
    hide WordDecode, Resume;
    assert input[0..] == input;
    if Decoded(input, expected).Some? {
      WordDecodeComplete(input, 0, [], expected, word);
    }
    if Fits(|input|, expected, word) {
      WordDecodeExact(input, 0, [], expected, word, 0);
    }
  }

  // On a 32-bit target this covers inputs of up to 2^24 bytes, whatever is expected of them; on a
  // 64-bit target every block whose sizes come from 32-bit header fields.
  lemma NoWrapAround(input: seq<byte>, expected: nat, word: nat)
    requires || (word == 0x1_0000_0000 && |input| <= 16_777_216 && expected < word)
             || (word == 0x1_0000_0000_0000_0000 && |input| < 0x1_0000_0000 && expected < 0x1_0000_0000)
    ensures WordDecode(input, 0, [], expected, word) == Plain(Decoded(input, expected))
  {
    hide Decoded, WordDecode;
    WordAgrees(input, expected, word);
  }

  /* ---- blocks: stored in no more bytes than are expected of them ---- */

  const WORD32: nat := 0x1_0000_0000

  // The first token of a block may already hold a length of 2^32. But then hardly anything is left
  // behind it, and nothing has been produced that a match could copy.
  lemma FirstRunWraps(input: seq<byte>, expected: nat, l: Length)
    requires 0 < |input| <= expected <= 16_843_012
    requires ReadLength(input[0] / 16, input[1..]) == Some(l) && l.value >= WORD32
    ensures WordDecode(input, 0, [], expected, WORD32) == Rejects && Decoded(input, expected) == None
  {
    hide ReadLength, WordLength, Wrap, ReadToken;
    var next := |input| - |l.rest|;
    WordLengthIs(input, 1, input[0] / 16, 0, WORD32);
    WrapsOnce(l.value, WORD32);
    var value := Wrap(l.value, WORD32);
    Fitting(next + value, WORD32);
    Fitting(value, WORD32);
    Fitting(next + value + 2, WORD32);
    TokenTooLong(input, l);
    assert Resume(input, [], expected) == None;
  }

  lemma TokenTooLong(input: seq<byte>, l: Length)
    requires input != [] && ReadLength(input[0] / 16, input[1..]) == Some(l) && |input| <= l.value
    ensures ReadToken(input) == None
  {
  }

  lemma NothingToCopy(input: seq<byte>, at: nat, nibble: nat, expected: nat, word: nat)
    requires at <= |input| && |input| + 2 < word
    ensures WordMatch(input, at, nibble, [], expected, word) == Rejects
    ensures ResumeMatch(nibble, input[at..], [], expected) == None
  {
    hide WordDecode, WordLength, ReadLength, Resume;
  }

  lemma FirstMatchExact(input: seq<byte>, at: nat, nibble: nat, out: seq<byte>, expected: nat)
    requires |out| < at <= |input| <= expected <= 16_843_012 && nibble < 16
    ensures WordMatch(input, at, nibble, out, expected, WORD32) ==
            Plain(ResumeMatch(nibble, input[at..], out, expected))
  {
    hide Meaning, Parse, Resume, CopyBack, ReadLength, WordDecode, WordMatch;
    if out == [] {
      NothingToCopy(input, at, nibble, expected, WORD32);
      return;
    }
    if at + 2 <= |input| {
      assert input[at..][2..] == input[at + 2..];
      LengthBound(input, at + 2, nibble);
    }
    MatchStep(input, at, nibble, out, expected, WORD32);
    match ReadMatch(nibble, input[at..])
    case None =>
    case Some(m) =>
      if 1 <= m.offset <= |out| && |out| + m.length <= expected {
        WordDecodeExact(input, |input| - |m.rest|, CopyBack(out, m.offset, m.length), expected, WORD32, 1002);
      }
  }

  lemma BlockExact(input: seq<byte>, expected: nat)
    requires |input| <= expected <= 16_843_012
    ensures WordDecode(input, 0, [], expected, WORD32) == Plain(Decoded(input, expected))
  {
    hide Meaning, Parse, Resume, ResumeMatch, CopyBack, ReadLength, WordDecode, WordMatch;
    assert input[0..] == input;
    if input == [] {
      ResumeEnd([], expected);
      WordEnd(input, [], expected, WORD32);
    } else {
      LengthBound(input, 1, input[0] / 16);
      var length := ReadLength(input[0] / 16, input[1..]);
      if length.Some? && length.value.value >= WORD32 {
        FirstRunWraps(input, expected, length.value);
      } else {
        ResumeToken(input, [], expected);
        LiteralStep(input, 0, [], expected, WORD32);
        match ReadToken(input)
        case None =>
        case Some(t) =>
          assert [] + t.literals == t.literals;
          if |t.literals| < expected {
            FirstMatchExact(input, |input| - |t.after|, t.nibble, t.literals, expected);
          }
      }
    }
  }

  /* ---- and no further ---- */

  // A token with a full upper nibble: how both decoders read its length.
  lemma LongRun(token: byte, value: nat, rest: seq<byte>)
    requires token / 16 == 15
    ensures |Extend(value)| == value / 255 + 1
    ensures var input := [token] + Extend(value) + rest;
            && WordLength(input, 1, 15, 0, WORD32) ==
               Some(WordRun(Wrap(15 + value, WORD32), 1 + |Extend(value)|))
            && (|rest| < 15 + value ==> ReadToken(input) == None)
  {
    hide Wrap;
    var input := [token] + Extend(value) + rest;
    ExtendSize(value);
    assert input[1..] == Extend(value) + rest;
    ReadExtend(value, rest);
    WordExtendedIs(input, 1, 15, WORD32);
  }

  // A run of 2^32 + 1 literals is taken for one literal; what follows it is read as a match.
  lemma OneLiteral(x: byte, tail: seq<byte>, expected: nat) returns (input: seq<byte>, at: nat)
    requires 1 < expected && |tail| < 0x100_0000
    ensures at == 16_843_011 && |input| == at + |tail| && input[at..] == tail
    ensures WordDecode(input, 0, [], expected, WORD32) ==
            WordMatch(input, at, 15, [x], expected, WORD32)
    ensures Decoded(input, expected) == None
  {
    hide WordMatch, Wrap, Extend, WordLength, ReadToken;
    var value: nat, word := WORD32 - 14, WORD32;
    input, at := [0xFF] + Extend(value) + ([x] + tail), 2 + |Extend(value)|;
    LongRun(0xFF, value, [x] + tail);
    WrapsOnce(15 + value, word);
    Fitting(at, word);
    Fitting(1, word);
    assert input[at - 1..at] == [x];
    assert input[at..] == tail;
    assert [] + [x] == [x];
    assert Resume(input, [], expected) == None;
  }

  // So the wrap can mislead a reader: a stored block smaller than what it claims to hold is decoded,
  // although it is not the layout of anything of that length.
  lemma WrapMisleads(x: byte) returns (input: seq<byte>)
    ensures |input| <= 17_000_001
    ensures WordDecode(input, 0, [], 17_000_001, WORD32) == Accepts(CopyBack([x], 1, 17_000_000))
    ensures Decoded(input, 17_000_001) == None
  {
    hide CopyBack, Wrap, WordDecode, WordMatch, ReadMatch, Decoded, Extend, MatchBytes;
    var tail := MatchBytes(1, 17_000_000);
    LongMatchSize();
    var at;
    input, at := OneLiteral(x, tail, 17_000_001);
    ReadMatchBytes(1, 17_000_000, []);
    assert tail + [] == tail;
    MatchStep(input, at, 15, [x], 17_000_001, WORD32);
    WordEnd(input, CopyBack([x], 1, 17_000_000), 17_000_001, WORD32);
  }

  lemma LongMatchSize()
    ensures |MatchBytes(1, 17_000_000)| == 66_669
  {
    ExtendSize(17_000_000 - 18);
  }

  // One byte more than 2^24: the length does not wrap, but the place where its literals would end does.
  lemma EndWraps() returns (input: seq<byte>)
    ensures |input| == 16_777_217
    ensures WordDecode(input, 0, [], 0xFFFF_FFFF, WORD32) == OutOfBounds && Decoded(input, 0xFFFF_FFFF) == None
  {
    hide Extend, WordLength, ReadToken, Wrap;
    var value: nat := 255 * 16_777_215 + 254;
    input := [0xF0] + Extend(value);
    LongRun(0xF0, value, []);
    assert input == [0xF0] + Extend(value) + [];
    Fitting(15 + value, WORD32);
    WrapsOnce(|input| + (15 + value), WORD32);
    assert Resume(input, [], 0xFFFF_FFFF) == None;
  }

  // A literal and a match of 2^32 - 1 bytes: together they wrap to nothing.
  lemma MatchWraps(x: byte, expected: nat) returns (input: seq<byte>)
    requires 1 < expected < WORD32
    ensures |input| == 16_843_013
    ensures WordDecode(input, 0, [], expected, WORD32) == OutOfBounds && Decoded(input, expected) == None
  {
    hide WordDecode, WordMatch, WordLength, CopyBack, ReadLength, Extend, Parse, Meaning, Wrap;
    var length: nat := WORD32 - 1;
    input := CopyBytes([x], 1, length) + [];
    MatchWrapsSize(x);
    ReadLiteralBytes([x], 15, MatchBytes(1, length) + []);
    assert input == LiteralBytes([x], 15) + (MatchBytes(1, length) + []);
    ReadMatchBytes(1, length, []);
    OneLiteralFirst(input, x);
    ResumeToken(input, [], expected);
    assert input[0..] == input && [] + [x] == [x];
    LiteralStep(input, 0, [], expected, WORD32);
    WordMatchTooLong(input, x, expected);
  }

  lemma MatchWrapsSize(x: byte)
    ensures var length := WORD32 - 1;
            && |CopyBytes([x], 1, length)| == 16_843_013
            && CopyBytes([x], 1, length) == [0x1F, x, 1, 0] + Extend(length - 18)
            && LiteralBytes([x], 15) == [0x1F, x] && MatchBytes(1, length) == [1, 0] + Extend(length - 18)
            && Nibble(length - MIN_MATCH) == 15
  {
    ExtendSize(WORD32 - 1 - 18);
  }

  lemma OneLiteralFirst(input: seq<byte>, x: byte)
    requires |input| >= 2 && input[0] == 0x1F && input[1] == x
    ensures ReadLength(input[0] / 16, input[1..]) == Some(Length(1, input[1..]))
  {
  }

  lemma WordMatchTooLong(input: seq<byte>, x: byte, expected: nat)
    requires 1 < expected < WORD32
    requires input == [0x1F, x, 1, 0] + Extend(WORD32 - 19)
    ensures |input| == 16_843_013
    ensures WordMatch(input, 2, 15, [x], expected, WORD32) == OutOfBounds
  {
    hide WordDecode, Extend, WordExtended, ReadExtended, Wrap;
    ExtendSize(WORD32 - 19);
    assert input[4..] == Extend(WORD32 - 19) + [];
    ReadExtend(WORD32 - 19, []);
    WordExtendedIs(input, 4, 18, WORD32);
    Fitting(4, WORD32);
    Fitting(WORD32 - 1, WORD32);
    WrapsOnce(WORD32, WORD32);
  }

  // The two decoders agree on all inputs of up to `limit` bytes, whatever is expected of them.
  ghost predicate AgreeUpTo(limit: nat, word: nat)
    requires word > 0
  {
    forall input: seq<byte>, expected: nat | |input| <= limit && |input| < word && expected < word ::
      WordDecode(input, 0, [], expected, word) == Plain(Decoded(input, expected))
  }

  // On a 32-bit target they do up to exactly this many bytes.
  lemma LimitExact(limit: nat)
    ensures AgreeUpTo(limit, WORD32) <==> limit <= 16_777_216
  {
    hide WordDecode, Decoded;
    if limit <= 16_777_216 {
      forall input: seq<byte>, expected: nat | |input| <= limit && |input| < WORD32 && expected < WORD32
        ensures WordDecode(input, 0, [], expected, WORD32) == Plain(Decoded(input, expected))
      {
        NoWrapAround(input, expected, WORD32);
      }
    } else {
      var input := EndWraps();
      assert WordDecode(input, 0, [], 0xFFFF_FFFF, WORD32) != Plain(Decoded(input, 0xFFFF_FFFF));
    }
  }

  // They agree on all blocks of up to `limit` bytes that are stored in no more bytes than that.
  ghost predicate AgreeOnBlocks(limit: nat, word: nat)
    requires word > 0
  {
    forall input: seq<byte>, expected: nat | |input| <= expected <= limit && expected < word ::
      WordDecode(input, 0, [], expected, word) == Plain(Decoded(input, expected))
  }

  lemma BlockLimitExact(limit: nat)
    ensures AgreeOnBlocks(limit, WORD32) <==> limit <= 16_843_012
  {
    hide WordDecode, Decoded;
    if limit <= 16_843_012 {
      forall input: seq<byte>, expected: nat | |input| <= expected <= limit && expected < WORD32
        ensures WordDecode(input, 0, [], expected, WORD32) == Plain(Decoded(input, expected))
      {
        BlockExact(input, expected);
      }
    } else {
      var input := MatchWraps(0, 16_843_013);
      assert WordDecode(input, 0, [], 16_843_013, WORD32) != Plain(Decoded(input, 16_843_013));
    }
  }
}
