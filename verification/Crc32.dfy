/** The bitwise reflected CRC-32, its table form, and the errors it cannot miss. */
module Crc32 {
  import opened Types

  const POLYNOMIAL: bv32 := 0xEDB88320
  const ALL_ONES: bv32 := 0xFFFFFFFF

  /* ---- the operations on the register; proofs above them hide what they are ---- */

  // The word whose n lowest binary digits are those of the value.
  function Digits(n: nat, value: nat): bv32 {
    if n == 0 then 0 else WithDigit(Digits(n - 1, value / 2), value % 2 == 1)
  }

  function WithDigit(upper: bv32, digit: bool): bv32 {
    (upper << 1) | (if digit then 1 else 0)
  }

  function Bits(b: byte): bv32 {
    Digits(8, b)
  }

  function Xor(a: bv32, b: bv32): bv32 {
    a ^ b
  }

  function Half(a: bv32): bv32 {
    a >> 1
  }

  predicate Odd(a: bv32) {
    a & 1 != 0
  }

  // One bit of the shift register.
  function Step(crc: bv32): bv32 {
    if Odd(crc) then Xor(Half(crc), POLYNOMIAL) else Half(crc)
  }

  function Steps(n: nat, crc: bv32): bv32 {
    if n == 0 then crc else Step(Steps(n - 1, crc))
  }

  function Update(crc: bv32, data: seq<byte>): bv32
    decreases |data|
  {
    if data == [] then crc
    else Steps(8, Xor(Update(crc, data[..|data| - 1]), Bits(data[|data| - 1])))
  }

  function Finish(crc: bv32): uint32 {
    !crc as int
  }

  function Crc(data: seq<byte>): uint32 {
    Finish(Update(ALL_ONES, data))
  }

  method ComputeCrc(data: seq<byte>) returns (r: uint32)
    ensures r == Crc(data)
  {
    hide Bits, Xor, Half, Odd, Step, Finish;
    var crc := ALL_ONES;
    for i := 0 to |data|
      invariant crc == Update(ALL_ONES, data[..i])
    {
      assert data[..i + 1][..i] == data[..i];
      crc := Xor(crc, Bits(data[i]));
      ghost var mixed := crc;
      for bit := 0 to 8
        invariant crc == Steps(bit, mixed)
      {
        ghost var before := crc;
        var lsb := Odd(crc);
        crc := Half(crc);
        if lsb {
          crc := Xor(crc, POLYNOMIAL);
        }
        StepIs(before);
      }
    }
    assert data[..|data|] == data;
    return Finish(crc);
  }

  lemma StepIs(crc: bv32)
    ensures Step(crc) == if Odd(crc) then Xor(Half(crc), POLYNOMIAL) else Half(crc)
  {
  }

  function Limit(n: nat): bv32
    requires n <= 8
  {
    if n == 0 then 0 else if n == 1 then 1 else if n == 2 then 3
    else if n == 3 then 7 else if n == 4 then 0xF else if n == 5 then 0x1F
    else if n == 6 then 0x3F else if n == 7 then 0x7F else 0xFF
  }

  lemma Doubled(upper: bv32, digit: bool, bound: bv32)
    requires upper <= bound <= 0x7F
    ensures WithDigit(upper, digit) <= 2 * bound + 1
  {
  }

  lemma WithDigitInjective(a: bv32, b: bv32, c: bool, d: bool)
    requires a <= 0x7F && b <= 0x7F && WithDigit(a, c) == WithDigit(b, d)
    ensures a == b && c == d
  {
  }

  lemma {:induction false} DigitsBelow(n: nat, value: nat)
    requires n <= 8
    ensures Digits(n, value) <= Limit(n)
  {
    hide WithDigit;
    if n != 0 {
      DigitsBelow(n - 1, value / 2);
      Doubled(Digits(n - 1, value / 2), value % 2 == 1, Limit(n - 1));
    }
  }

  lemma {:induction false} DigitsInjective(n: nat, v: nat, w: nat)
    requires n <= 8 && Digits(n, v) == Digits(n, w) && v < Power(n) && w < Power(n)
    ensures v == w
  {
    hide WithDigit;
    if n != 0 {
      DigitsBelow(n - 1, v / 2);
      DigitsBelow(n - 1, w / 2);
      WithDigitInjective(Digits(n - 1, v / 2), Digits(n - 1, w / 2), v % 2 == 1, w % 2 == 1);
      DigitsInjective(n - 1, v / 2, w / 2);
    }
  }

  function Power(n: nat): nat {
    if n == 0 then 1 else 2 * Power(n - 1)
  }

  lemma BitsBelow256(b: byte)
    ensures Bits(b) <= 0xFF
  {
    DigitsBelow(8, b);
  }

  lemma BitsInjective(a: byte, b: byte)
    requires Bits(a) == Bits(b)
    ensures a == b
  {
    assert Power(2) == 4 && Power(4) == 16 && Power(6) == 64;
    DigitsInjective(8, a, b);
  }

  /* ---- the single-bit step is linear and loses nothing ---- */

  lemma StepInjective(a: bv32, b: bv32)
    requires Step(a) == Step(b)
    ensures a == b
  {
  }

  lemma OddXor(a: bv32, b: bv32)
    ensures Odd(Xor(a, b)) <==> Odd(a) != Odd(b)
  {
  }

  lemma HalfXor(a: bv32, b: bv32)
    ensures Half(Xor(a, b)) == Xor(Half(a), Half(b))
  {
  }

  lemma XorAssociates(x: bv32, y: bv32, z: bv32)
    ensures Xor(Xor(x, y), z) == Xor(x, Xor(y, z))
  {
  }

  lemma XorCommutes(x: bv32, y: bv32)
    ensures Xor(x, y) == Xor(y, x)
  {
  }

  lemma XorCancels(x: bv32, y: bv32)
    ensures Xor(Xor(x, y), y) == x
  {
  }

  lemma XorBothSides(x: bv32, y: bv32, z: bv32)
    ensures Xor(Xor(x, z), Xor(y, z)) == Xor(x, y)
  {
    hide Xor;
    XorCommutes(y, z);
    XorAssociates(Xor(x, z), z, y);
    XorCancels(x, z);
  }

  lemma StepLinear(a: bv32, b: bv32)
    ensures Step(Xor(a, b)) == Xor(Step(a), Step(b))
  {
    hide Xor, Half, Odd;
    OddXor(a, b);
    HalfXor(a, b);
    var x, y := Half(a), Half(b);
    XorBothSides(x, y, POLYNOMIAL);
    XorAssociates(x, y, POLYNOMIAL);
    XorAssociates(x, POLYNOMIAL, y);
    XorCommutes(y, POLYNOMIAL);
  }

  lemma {:induction false} StepsLinear(n: nat, a: bv32, b: bv32)
    ensures Steps(n, Xor(a, b)) == Xor(Steps(n, a), Steps(n, b))
  {
    hide Step, Xor;
    if n != 0 {
      StepsLinear(n - 1, a, b);
      StepLinear(Steps(n - 1, a), Steps(n - 1, b));
    }
  }

  lemma {:induction false} StepsInjective(n: nat, a: bv32, b: bv32)
    requires Steps(n, a) == Steps(n, b)
    ensures a == b
  {
    hide Step;
    if n != 0 {
      StepInjective(Steps(n - 1, a), Steps(n - 1, b));
      StepsInjective(n - 1, a, b);
    }
  }

  lemma {:induction false} StepsCompose(m: nat, n: nat, a: bv32)
    ensures Steps(m + n, a) == Steps(m, Steps(n, a))
  {
    hide Step;
    if m != 0 {
      StepsCompose(m - 1, n, a);
    }
  }

  function Above(a: bv32): bv32 {
    a << 8
  }

  // Eight steps move the upper bytes down when the lowest byte is empty.
  lemma EightStepsOfShifted(a: bv32)
    requires a <= 0xFF_FFFF
    ensures Step(Step(Step(Step(Step(Step(Step(Step(Above(a))))))))) == a
  {
  }

  lemma StepsOfShifted(a: bv32)
    requires a <= 0xFF_FFFF
    ensures Steps(8, Above(a)) == a
  {
    EightStepsOfShifted(a);
    UnfoldSteps(Above(a));
  }

  lemma UnfoldSteps(a: bv32)
    ensures Steps(8, a) == Step(Step(Step(Step(Step(Step(Step(Step(a))))))))
  {
    hide Step;
    var b := Step(Step(a));
    assert Steps(2, a) == b by { assert Steps(1, a) == Step(Steps(0, a)); }
    var c := Step(Step(b));
    assert Steps(4, a) == c by { assert Steps(3, a) == Step(Steps(2, a)); }
    assert Steps(6, a) == Step(Step(c)) by { assert Steps(5, a) == Step(Steps(4, a)); }
    assert Steps(7, a) == Step(Steps(6, a));
  }

  /* ---- the table form of section 8 of RFC 1952 ---- */

  function LowByte(a: bv32): bv32 {
    a & 0xFF
  }

  function UpperBytes(a: bv32): bv32 {
    a >> 8
  }

  // Entry n of the table: eight steps of the register started at n.
  function TableEntry(n: bv32): bv32 {
    Steps(8, n)
  }

  function TableUpdate(crc: bv32, data: seq<byte>): bv32
    decreases |data|
  {
    if data == [] then crc
    else
      var before := TableUpdate(crc, data[..|data| - 1]);
      Xor(TableEntry(LowByte(Xor(before, Bits(data[|data| - 1])))), UpperBytes(before))
  }

  function TableCrc(data: seq<byte>): uint32 {
    Finish(TableUpdate(ALL_ONES, data))
  }

  lemma SplitWord(a: bv32)
    ensures a == Xor(LowByte(a), Above(UpperBytes(a))) && UpperBytes(a) <= 0xFF_FFFF
  {
  }

  lemma UpperUntouched(a: bv32, x: bv32)
    requires x <= 0xFF
    ensures UpperBytes(Xor(a, x)) == UpperBytes(a)
  {
  }

  lemma ByteStepByTable(crc: bv32, b: byte)
    ensures Steps(8, Xor(crc, Bits(b))) ==
            Xor(TableEntry(LowByte(Xor(crc, Bits(b)))), UpperBytes(crc))
  {
    hide Xor, Bits, LowByte, UpperBytes, Above, Steps;
    var mixed := Xor(crc, Bits(b));
    SplitWord(mixed);
    BitsBelow256(b);
    UpperUntouched(crc, Bits(b));
    StepsLinear(8, LowByte(mixed), Above(UpperBytes(mixed)));
    StepsOfShifted(UpperBytes(mixed));
  }

  lemma {:induction false} UpdateByTable(crc: bv32, data: seq<byte>)
    ensures Update(crc, data) == TableUpdate(crc, data)
    decreases |data|
  {
    hide Steps, Xor, Bits, LowByte, UpperBytes, TableEntry;
    if data != [] {
      UpdateByTable(crc, data[..|data| - 1]);
      ByteStepByTable(Update(crc, data[..|data| - 1]), data[|data| - 1]);
    }
  }

  lemma CrcByTable(data: seq<byte>)
    ensures Crc(data) == TableCrc(data)
  {
    UpdateByTable(ALL_ONES, data);
  }

  /* ---- errors inside a window of four bytes never go unnoticed ---- */

  lemma {:induction false} UpdateConcat(crc: bv32, a: seq<byte>, b: seq<byte>)
    ensures Update(crc, a + b) == Update(Update(crc, a), b)
    decreases |b|
  {
    hide Steps, Xor, Bits;
    if b == [] {
      assert a + b == a;
    } else {
      var last := b[|b| - 1];
      UpdateConcat(crc, a, b[..|b| - 1]);
      assert (a + b)[..|a + b| - 1] == a + b[..|b| - 1];
    }
  }

  lemma {:induction false} UpdateInjective(a: bv32, b: bv32, data: seq<byte>)
    requires Update(a, data) == Update(b, data)
    ensures a == b
    decreases |data|
  {
    hide Steps, Xor, Bits;
    if data != [] {
      var x, y, last := Update(a, data[..|data| - 1]), Update(b, data[..|data| - 1]), Bits(data[|data| - 1]);
      StepsInjective(8, Xor(x, last), Xor(y, last));
      XorCancels(x, last);
      XorCancels(y, last);
      UpdateInjective(a, b, data[..|data| - 1]);
    }
  }

  // Up to four bytes packed into a word, the first one lowest.
  function Packed(data: seq<byte>): bv32 {
    if data == [] then 0 else Xor(Bits(data[0]), Above(Packed(data[1..])))
  }

  lemma PackedBelow(x: bv32, p: bv32)
    requires x <= 0xFF
    ensures p <= 0xFFFF ==> Xor(x, Above(p)) <= 0xFF_FFFF
    ensures p <= 0xFF ==> Xor(x, Above(p)) <= 0xFFFF
    ensures p == 0 ==> Xor(x, Above(p)) <= 0xFF
  {
  }

  lemma Unpack(x: bv32, p: bv32)
    requires x <= 0xFF && p <= 0xFF_FFFF
    ensures LowByte(Xor(x, Above(p))) == x && UpperBytes(Xor(x, Above(p))) == p
  {
  }

  lemma {:induction false} PackedBound(data: seq<byte>)
    ensures |data| <= 3 ==> Packed(data) <= 0xFF_FFFF
    ensures |data| <= 2 ==> Packed(data) <= 0xFFFF
    ensures |data| <= 1 ==> Packed(data) <= 0xFF
    ensures |data| == 0 ==> Packed(data) == 0
  {
    hide Xor, Bits, Above;
    if data != [] {
      PackedBound(data[1..]);
      BitsBelow256(data[0]);
      PackedBelow(Bits(data[0]), Packed(data[1..]));
    }
  }

  lemma {:induction false} PackedInjective(a: seq<byte>, b: seq<byte>)
    requires |a| == |b| <= 4 && Packed(a) == Packed(b)
    ensures a == b
  {
    hide Xor, Bits, Above, LowByte, UpperBytes;
    if a != [] {
      var p, q := Packed(a[1..]), Packed(b[1..]);
      PackedBound(a[1..]);
      PackedBound(b[1..]);
      BitsBelow256(a[0]);
      BitsBelow256(b[0]);
      Unpack(Bits(a[0]), p);
      Unpack(Bits(b[0]), q);
      BitsInjective(a[0], b[0]);
      PackedInjective(a[1..], b[1..]);
      assert a == [a[0]] + a[1..];
      assert b == [b[0]] + b[1..];
    }
  }

  // Up to four bytes act on the register like one word.
  lemma {:induction false} UpdateByWord(crc: bv32, data: seq<byte>)
    requires |data| <= 4
    ensures Update(crc, data) == Steps(8 * |data|, Xor(crc, Packed(data)))
    decreases |data|
  {
    hide Steps, Xor, Bits, Above;
    if data == [] {
      XorZero(crc);
      StepsNone(crc);
    } else {
      var first, rest := [data[0]], data[1..];
      var mixed, p := Xor(crc, Bits(data[0])), Packed(rest);
      assert first[..|first| - 1] == [] && Update(crc, []) == crc;
      assert Update(crc, first) == Steps(8, mixed);
      UpdateConcat(crc, first, rest);
      assert data == first + rest;
      UpdateByWord(Steps(8, mixed), rest);
      PackedBound(rest);
      StepsOfShifted(p);
      StepsLinear(8, mixed, Above(p));
      XorAssociates(crc, Bits(data[0]), Above(p));
      StepsCompose(8 * |rest|, 8, Xor(mixed, Above(p)));
    }
  }

  lemma XorZero(a: bv32)
    ensures Xor(a, 0) == a
  {
  }

  lemma StepsNone(a: bv32)
    ensures Steps(0, a) == a
  {
  }

  lemma WordInjective(crc: bv32, window: seq<byte>, window': seq<byte>)
    requires |window| == |window'| <= 4 && Update(crc, window) == Update(crc, window')
    ensures window == window'
  {
    hide Steps, Xor, Update, Packed;
    var p, q := Packed(window), Packed(window');
    UpdateByWord(crc, window);
    UpdateByWord(crc, window');
    StepsInjective(8 * |window|, Xor(crc, p), Xor(crc, q));
    XorCommutes(crc, p);
    XorCommutes(crc, q);
    XorCancels(p, crc);
    XorCancels(q, crc);
    PackedInjective(window, window');
  }

  lemma FinishInjective(a: bv32, b: bv32)
    requires Finish(a) == Finish(b)
    ensures a == b
  {
    WordBack(!a);
    WordBack(!b);
    assert !!a == a && !!b == b;
  }

  lemma WordBack(a: bv32)
    ensures (a as int) as bv32 == a
  {
  }

  // Two strings of the same length that differ only inside four consecutive bytes.
  ghost predicate DifferInWindow(a: seq<byte>, b: seq<byte>, from: nat, to: nat) {
    && |a| == |b| && from <= to <= |a| && to <= from + 4
    && a[..from] == b[..from] && a[to..] == b[to..] && a != b
  }

  lemma BurstDetected(a: seq<byte>, b: seq<byte>, from: nat, to: nat)
    requires DifferInWindow(a, b, from, to)
    ensures Crc(a) != Crc(b)
  {
    hide Update, Finish;
    var before, after := a[..from], a[to..];
    var w, v := a[from..to], b[from..to];
    assert a == before + w + after && b == before + v + after;
    UpdateConcat(ALL_ONES, before, w);
    UpdateConcat(ALL_ONES, before, v);
    UpdateConcat(ALL_ONES, before + w, after);
    UpdateConcat(ALL_ONES, before + v, after);
    var start := Update(ALL_ONES, before);
    if Crc(a) == Crc(b) {
      FinishInjective(Update(ALL_ONES, a), Update(ALL_ONES, b));
      UpdateInjective(Update(start, w), Update(start, v), after);
      WordInjective(start, w, v);
    }
  }

  /* ---- a string with its own checksum behind it ---- */

  function Joined(upper: bv32, low: bv8): bv32 {
    (upper << 8) | (low as bv32)
  }

  lemma JoinedInt(upper: bv32, low: bv8)
    requires upper <= 0xFF_FFFF
    ensures Joined(upper, low) as int == 0x100 * (upper as int) + low as int
  {
    hide Joined;
    JoinedRaw(upper, low);
    JoinedOpen(upper, low);
  }

  lemma JoinedRaw(upper: bv32, low: bv8)
    requires upper <= 0xFF_FFFF
    ensures ((upper << 8) | (low as bv32)) as int == (upper as int) * 256 + low as int
  {
  }

  lemma JoinedOpen(upper: bv32, low: bv8)
    ensures Joined(upper, low) == ((upper << 8) | (low as bv32))
  {
  }

  lemma JoinedIs(x: bv32, p: bv32)
    requires x <= 0xFF
    ensures Xor(x, Above(p)) == Joined(p, x as bv8) && x == Joined(0, x as bv8)
  {
  }

  lemma PackedStep(x: bv32, p: bv32)
    requires x <= 0xFF && p <= 0xFF_FFFF
    ensures Xor(x, Above(p)) as int == x as int + 0x100 * (p as int)
  {
    hide Xor, Above, Joined;
    var low := x as bv8;
    JoinedIs(x, p);
    JoinedInt(p, low);
    JoinedInt(0, low);
  }

  lemma DoubledInt(upper: bv32, digit: bool)
    requires upper <= 0x7F
    ensures WithDigit(upper, digit) as int == 2 * (upper as int) + (if digit then 1 else 0)
  {
  }

  lemma {:induction false} DigitsInt(n: nat, value: nat)
    requires n <= 8 && value < Power(n)
    ensures Digits(n, value) as int == value
  {
    hide WithDigit;
    if n != 0 {
      DigitsBelow(n - 1, value / 2);
      DigitsInt(n - 1, value / 2);
      DoubledInt(Digits(n - 1, value / 2), value % 2 == 1);
    }
  }

  lemma BitsInt(b: byte)
    ensures Bits(b) as int == b
  {
    assert Power(2) == 4 && Power(4) == 16 && Power(6) == 64;
    DigitsInt(8, b);
  }

  lemma Complements(a: bv32, b: bv32)
    requires Finish(a) == b as int
    ensures Xor(a, b) == ALL_ONES
  {
    WordBack(!a);
    WordBack(b);
  }

  // Whatever the string, going on over its checksum, lowest byte first, leaves the same register.
  lemma ResidueConstant(data: seq<byte>, trailer: seq<byte>)
    requires |trailer| == 4 && Packed(trailer) as int == Crc(data)
    ensures Update(ALL_ONES, data + trailer) == Steps(32, ALL_ONES)
  {
    hide Steps, Xor, Update, Packed, Finish;
    var register := Update(ALL_ONES, data);
    UpdateConcat(ALL_ONES, data, trailer);
    UpdateByWord(register, trailer);
    Complements(register, Packed(trailer));
  }

  // So a burst is detected as well where it reaches into the checksum.
  lemma BurstDetectedWithTrailer(a: seq<byte>, s: seq<byte>, b: seq<byte>, t: seq<byte>, from: nat, to: nat)
    requires |s| == |t| == 4 && DifferInWindow(a + s, b + t, from, to)
    requires Packed(s) as int == Crc(a)
    ensures Packed(t) as int != Crc(b)
  {
    hide Steps, Update, Packed, Finish;
    BurstDetected(a + s, b + t, from, to);
    ResidueConstant(a, s);
    if Packed(t) as int == Crc(b) {
      ResidueConstant(b, t);
      assert false;
    }
  }
}
