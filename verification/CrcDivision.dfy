/** What the checksum is: the remainder of a division of polynomials over the two-element field. */
module CrcDivision {
  import opened Types
  import opened Crc32

  /* ---- the division, without the register ---- */

  // The exponents of the generator that section 8 of RFC 1952 gives in reverse as a constant.
  ghost predicate Generator(exponent: int) {
    exponent in {32, 26, 23, 22, 16, 12, 11, 10, 8, 7, 5, 4, 2, 1, 0}
  }

  // Long division, highest coefficient first: while a coefficient stands above the remainder's 32,
  // it is removed, and with it the generator when it is one.
  ghost function Divide(dividend: seq<bool>): (remainder: seq<bool>)
    ensures |dividend| >= 32 ==> |remainder| == 32
    decreases |dividend|
  {
    if |dividend| <= 32 then dividend else Divide(WithoutLeading(dividend))
  }

  ghost function WithoutLeading(dividend: seq<bool>): (rest: seq<bool>)
    requires |dividend| > 32
    ensures |rest| == |dividend| - 1
  {
    seq(|dividend| - 1, k requires 0 <= k < |dividend| - 1 =>
      dividend[k + 1] != (dividend[0] && k < 32 && Generator(31 - k)))
  }

  // The bits of a byte, lowest first, and of a string.
  ghost function ByteBits(n: nat, value: nat): (bits: seq<bool>)
    ensures |bits| == n
  {
    if n == 0 then [] else [value % 2 == 1] + ByteBits(n - 1, value / 2)
  }

  ghost function AllBits(data: seq<byte>): (bits: seq<bool>)
    ensures |bits| == 8 * |data|
  {
    if data == [] then [] else AllBits(data[..|data| - 1]) + ByteBits(8, data[|data| - 1])
  }

  // What is divided: the string and 32 zeros behind it, with the first 32 bits inverted.
  ghost function Dividend(bits: seq<bool>): (d: seq<bool>)
    ensures |d| == |bits| + 32
  {
    seq(|bits| + 32, k requires 0 <= k < |bits| + 32 => (k < |bits| && bits[k]) != (k < 32))
  }

  // The number with these binary digits, lowest first.
  ghost function Number(bits: seq<bool>): nat {
    if bits == [] then 0 else (if bits[0] then 1 else 0) + 2 * Number(bits[1..])
  }

  ghost function Inverted(bits: seq<bool>): (r: seq<bool>)
    ensures |r| == |bits|
  {
    seq(|bits|, k requires 0 <= k < |bits| => !bits[k])
  }

  /* ---- the bits of the register ---- */

  ghost function Bit(k: nat, word: bv32): bool {
    if k == 0 then Odd(word) else Bit(k - 1, Half(word))
  }

  ghost function Window(word: bv32): (bits: seq<bool>)
    ensures |bits| == 32
  {
    seq(32, k requires 0 <= k < 32 => Bit(k, word))
  }

  lemma {:induction false} BitXor(k: nat, a: bv32, b: bv32)
    ensures Bit(k, Xor(a, b)) <==> Bit(k, a) != Bit(k, b)
  {
    hide Xor, Half, Odd;
    if k == 0 {
      OddXor(a, b);
    } else {
      HalfXor(a, b);
      BitXor(k - 1, Half(a), Half(b));
    }
  }

  lemma {:induction false} BitOfNothing(k: nat)
    ensures !Bit(k, 0)
  {
    if k != 0 {
      assert Half(0) == 0;
      BitOfNothing(k - 1);
    }
  }

  function Halves(n: nat, word: bv32): bv32 {
    if n == 0 then word else Halves(n - 1, Half(word))
  }

  lemma {:induction false} BitBehind(n: nat, k: nat, word: bv32)
    ensures Bit(n + k, word) == Bit(k, Halves(n, word))
  {
    hide Half, Odd;
    if n != 0 {
      BitBehind(n - 1, k, Half(word));
    }
  }

  lemma {:induction false} HalvesCompose(m: nat, n: nat, word: bv32)
    ensures Halves(m + n, word) == Halves(n, Halves(m, word))
  {
    hide Half;
    if m != 0 {
      HalvesCompose(m - 1, n, Half(word));
    }
  }

  lemma FourHalves(word: bv32)
    ensures Halves(4, word) == Half(Half(Half(Half(word))))
  {
    hide Half;
    var middle := Half(Half(word));
    assert Halves(1, Half(middle)) == Half(Half(middle));
    assert Halves(3, Half(word)) == Halves(2, middle) == Halves(1, Half(middle));
  }

  lemma ShiftsOut(a: bv32)
    ensures Half(Half(Half(Half(a)))) == a >> 4
  {
  }

  lemma NothingAbove(word: bv32)
    ensures Halves(32, word) == 0
  {
    hide Half, Halves;
    var a := word >> 4;
    var b := a >> 4;
    var c := b >> 4;
    var d := c >> 4;
    var e := d >> 4;
    var f := e >> 4;
    var g := f >> 4;
    assert g >> 4 == 0;
    EightBits(word, a, b);
    EightBits(b, c, d);
    EightBits(d, e, f);
    EightBits(f, g, 0);
    HalvesCompose(8, 24, word);
    HalvesCompose(8, 16, b);
    HalvesCompose(8, 8, d);
  }

  lemma EightBits(word: bv32, middle: bv32, after: bv32)
    requires middle == word >> 4 && after == middle >> 4
    ensures Halves(8, word) == after
  {
    hide Half, Halves;
    FourHalves(word);
    ShiftsOut(word);
    FourHalves(middle);
    ShiftsOut(middle);
    HalvesCompose(4, 4, word);
  }

  lemma BitAbove(word: bv32)
    ensures !Bit(32, word)
  {
    hide Bit, Halves;
    NothingAbove(word);
    BitBehind(32, 0, word);
    BitOfNothing(0);
  }

  lemma FourBits(word: bv32)
    ensures Bit(0, word) == Odd(word)
    ensures Bit(1, word) == Odd(Half(word))
    ensures Bit(2, word) == Odd(Half(Half(word)))
    ensures Bit(3, word) == Odd(Half(Half(Half(word))))
  {
    hide Half, Odd;
    var a := Half(word);
    var b := Half(a);
    var c := Half(b);
    assert Bit(0, c) == Odd(c) && Bit(1, b) == Bit(0, c) && Bit(2, a) == Bit(1, b) && Bit(3, word) == Bit(2, a);
    assert Bit(0, b) == Odd(b) && Bit(1, a) == Bit(0, b) && Bit(2, word) == Bit(1, a);
    assert Bit(0, a) == Odd(a) && Bit(1, word) == Bit(0, a);
  }

  // The register's constant is the generator without its leading term, highest exponent first.
  lemma FourOfPolynomial(word: bv32, from: int)
    requires Odd(word) <==> Generator(31 - from)
    requires Odd(Half(word)) <==> Generator(30 - from)
    requires Odd(Half(Half(word))) <==> Generator(29 - from)
    requires Odd(Half(Half(Half(word)))) <==> Generator(28 - from)
    ensures forall k | 0 <= k < 4 :: Bit(k, word) <==> Generator(31 - from - k)
  {
    hide Half, Odd, Bit, Generator;
    FourBits(word);
    forall k | 0 <= k < 4
      ensures Bit(k, word) <==> Generator(31 - from - k)
    {
      assert k == 0 || k == 1 || k == 2 || k == 3;
    }
  }

  lemma PolynomialBits(k: nat)
    requires k < 32
    ensures Bit(k, POLYNOMIAL) <==> Generator(31 - k)
  {
    hide Bit, Halves;
    PolynomialHalves();
    FourOfPolynomial(0xEDB88320, 0);
    FourOfPolynomial(0xEDB8832, 4);
    FourOfPolynomial(0xEDB883, 8);
    FourOfPolynomial(0xEDB88, 12);
    FourOfPolynomial(0xEDB8, 16);
    FourOfPolynomial(0xEDB, 20);
    FourOfPolynomial(0xED, 24);
    FourOfPolynomial(0xE, 28);
    BitBehind(k / 4 * 4, k % 4, POLYNOMIAL);
    var from := k / 4;
    assert from == 0 || from == 1 || from == 2 || from == 3 || from == 4 || from == 5 || from == 6 || from == 7;
  }

  lemma PolynomialHalves()
    ensures Halves(0, POLYNOMIAL) == 0xEDB88320 && Halves(4, POLYNOMIAL) == 0xEDB8832
    ensures Halves(8, POLYNOMIAL) == 0xEDB883 && Halves(12, POLYNOMIAL) == 0xEDB88
    ensures Halves(16, POLYNOMIAL) == 0xEDB8 && Halves(20, POLYNOMIAL) == 0xEDB
    ensures Halves(24, POLYNOMIAL) == 0xED && Halves(28, POLYNOMIAL) == 0xE
  {
    hide Half;
    NextHalves(POLYNOMIAL, 0, 0xEDB88320, 0xEDB8832);
    NextHalves(POLYNOMIAL, 4, 0xEDB8832, 0xEDB883);
    NextHalves(POLYNOMIAL, 8, 0xEDB883, 0xEDB88);
    NextHalves(POLYNOMIAL, 12, 0xEDB88, 0xEDB8);
    NextHalves(POLYNOMIAL, 16, 0xEDB8, 0xEDB);
    NextHalves(POLYNOMIAL, 20, 0xEDB, 0xED);
    NextHalves(POLYNOMIAL, 24, 0xED, 0xE);
  }

  lemma NextHalves(start: bv32, n: nat, word: bv32, next: bv32)
    requires next == word >> 4
    ensures Halves(n, start) == word ==> Halves(n + 4, start) == next
  {
    hide Half, Halves;
    HalvesCompose(n, 4, start);
    FourHalves(word);
    ShiftsOut(word);
  }

  /* ---- a step of the register is a step of the division ---- */

  // Bits feed the register one at a time, each into its lowest place.
  ghost function Feed(word: bv32, bits: seq<bool>): bv32
    decreases |bits|
  {
    if bits == [] then word else Feed(Step(WithBit(word, bits[0])), bits[1..])
  }

  ghost function WithBit(word: bv32, bit: bool): bv32 {
    if bit then Xor(word, 1) else word
  }

  lemma WithBitBits(k: nat, word: bv32, bit: bool)
    ensures Bit(k, WithBit(word, bit)) <==> Bit(k, word) != (k == 0 && bit)
  {
    if bit {
      BitXor(k, word, 1);
      if k == 0 {
        assert Odd(1);
      } else {
        assert Half(1) == 0;
        BitOfNothing(k - 1);
      }
    }
  }

  lemma StepBits(k: nat, word: bv32)
    requires k < 32
    ensures Bit(k, Step(word)) <==> Bit(k + 1, word) != (Bit(0, word) && Generator(31 - k))
  {
    hide Xor, Half, Odd, Generator;
    assert Bit(k + 1, word) == Bit(k, Half(word));
    if Odd(word) {
      BitXor(k, Half(word), POLYNOMIAL);
      PolynomialBits(k);
    }
  }

  // What is still to be divided when the register holds `word` and these bits are to come.
  ghost function Mixed(word: bv32, bits: seq<bool>): (d: seq<bool>)
    ensures |d| == |bits| + 32
  {
    seq(|bits| + 32, k requires 0 <= k < |bits| + 32 => (k < |bits| && bits[k]) != (k < 32 && Bit(k, word)))
  }

  lemma MixedStep(word: bv32, bits: seq<bool>)
    requires bits != []
    ensures WithoutLeading(Mixed(word, bits)) == Mixed(Step(WithBit(word, bits[0])), bits[1..])
  {
    hide Bit, Step, WithBit, Generator;
    var d, fed := Mixed(word, bits), WithBit(word, bits[0]);
    WithBitBits(0, word, bits[0]);
    BitAbove(word);
    forall k | 0 <= k < |d| - 1
      ensures WithoutLeading(d)[k] == Mixed(Step(fed), bits[1..])[k]
    {
      if k < 32 {
        StepBits(k, fed);
        WithBitBits(k + 1, word, bits[0]);
      }
    }
  }

  lemma {:induction false} DivideFeeds(word: bv32, bits: seq<bool>)
    ensures Divide(Mixed(word, bits)) == Window(Feed(word, bits))
    decreases |bits|
  {
    hide Bit, Step, WithBit, WithoutLeading;
    if bits == [] {
      assert Mixed(word, bits) == Window(word);
    } else {
      MixedStep(word, bits);
      DivideFeeds(Step(WithBit(word, bits[0])), bits[1..]);
    }
  }

  /* ---- bytes ---- */

  lemma {:induction false} FeedConcat(word: bv32, a: seq<bool>, b: seq<bool>)
    ensures Feed(word, a + b) == Feed(Feed(word, a), b)
    decreases |a|
  {
    hide Step, WithBit;
    if a == [] {
      assert a + b == b;
    } else {
      assert (a + b)[1..] == a[1..] + b;
      FeedConcat(Step(WithBit(word, a[0])), a[1..], b);
    }
  }

  // The lowest digit goes in now; the others are where the step will have moved them.
  lemma StepOfDigit(word: bv32, upper: bv32, digit: bool)
    requires upper <= 0x7F
    ensures Step(Xor(word, WithDigit(upper, digit))) == Xor(Step(WithBit(word, digit)), upper)
  {
    hide Xor, Step, WithDigit;
    DigitApart(upper, digit);
    var low: bv32 := if digit then 1 else 0;
    XorZero(word);
    XorAssociates(word, low, WithDigit(upper, false));
    StepLinear(Xor(word, low), WithDigit(upper, false));
    StepOfDoubled(upper);
  }

  lemma DigitApart(upper: bv32, digit: bool)
    requires upper <= 0x7F
    ensures WithDigit(upper, digit) == Xor(if digit then 1 else 0, WithDigit(upper, false))
  {
  }

  lemma StepOfDoubled(upper: bv32)
    requires upper <= 0x7F
    ensures Step(WithDigit(upper, false)) == upper
  {
  }

  lemma {:induction false} FeedDigits(n: nat, word: bv32, value: nat)
    requires n <= 8
    ensures Feed(word, ByteBits(n, value)) == Steps(n, Xor(word, Digits(n, value)))
  {
    hide Xor, Step, WithDigit, WithBit;
    if n == 0 {
      XorZero(word);
    } else {
      var upper, digit := Digits(n - 1, value / 2), value % 2 == 1;
      DigitsBelow(n - 1, value / 2);
      assert Limit(n - 1) <= 0x7F;
      StepOfDigit(word, upper, digit);
      FeedDigits(n - 1, Step(WithBit(word, digit)), value / 2);
      assert ByteBits(n, value)[1..] == ByteBits(n - 1, value / 2);
      StepsCompose(n - 1, 1, Xor(word, Digits(n, value)));
      OneStep(Xor(word, Digits(n, value)));
    }
  }

  lemma OneStep(word: bv32)
    ensures Steps(1, word) == Step(word)
  {
    hide Step;
    assert Steps(0, word) == word;
  }

  lemma {:induction false} FeedBytes(word: bv32, data: seq<byte>)
    ensures Feed(word, AllBits(data)) == Update(word, data)
    decreases |data|
  {
    hide Xor, Step, Steps, WithBit, Digits;
    if data != [] {
      var front, last := data[..|data| - 1], data[|data| - 1];
      FeedBytes(word, front);
      FeedConcat(word, AllBits(front), ByteBits(8, last));
      FeedDigits(8, Update(word, front), last);
    }
  }

  /* ---- the checksum ---- */

  lemma FourOnes(word: bv32)
    requires word & 0xF == 0xF
    ensures forall k | 0 <= k < 4 :: Bit(k, word)
  {
    hide Half, Odd, Bit;
    LowOnes(word);
    FourBits(word);
    forall k | 0 <= k < 4
      ensures Bit(k, word)
    {
      assert k == 0 || k == 1 || k == 2 || k == 3;
    }
  }

  lemma LowOnes(word: bv32)
    requires word & 0xF == 0xF
    ensures Odd(word) && Odd(Half(word)) && Odd(Half(Half(word))) && Odd(Half(Half(Half(word))))
  {
  }

  lemma OnesHalves()
    ensures Halves(0, ALL_ONES) == 0xFFFF_FFFF && Halves(4, ALL_ONES) == 0xFFF_FFFF
    ensures Halves(8, ALL_ONES) == 0xFF_FFFF && Halves(12, ALL_ONES) == 0xF_FFFF
    ensures Halves(16, ALL_ONES) == 0xFFFF && Halves(20, ALL_ONES) == 0xFFF
    ensures Halves(24, ALL_ONES) == 0xFF && Halves(28, ALL_ONES) == 0xF
  {
    hide Half;
    NextHalves(ALL_ONES, 0, 0xFFFF_FFFF, 0xFFF_FFFF);
    NextHalves(ALL_ONES, 4, 0xFFF_FFFF, 0xFF_FFFF);
    NextHalves(ALL_ONES, 8, 0xFF_FFFF, 0xF_FFFF);
    NextHalves(ALL_ONES, 12, 0xF_FFFF, 0xFFFF);
    NextHalves(ALL_ONES, 16, 0xFFFF, 0xFFF);
    NextHalves(ALL_ONES, 20, 0xFFF, 0xFF);
    NextHalves(ALL_ONES, 24, 0xFF, 0xF);
  }

  lemma BitOfOnes(k: nat)
    requires k < 32
    ensures Bit(k, ALL_ONES)
  {
    hide Bit, Halves;
    OnesHalves();
    var from := k / 4;
    BitBehind(4 * from, k % 4, ALL_ONES);
    assert from == 0 || from == 1 || from == 2 || from == 3 || from == 4 || from == 5 || from == 6 || from == 7;
    FourOnes(Halves(4 * from, ALL_ONES));
  }

  lemma ComplementBit(k: nat, word: bv32)
    requires k < 32
    ensures Bit(k, !word) <==> !Bit(k, word)
  {
    hide Bit;
    ComplementIs(word);
    BitXor(k, word, ALL_ONES);
    BitOfOnes(k);
  }

  lemma ComplementIs(word: bv32)
    ensures !word == Xor(word, ALL_ONES)
  {
  }

  ghost function LowBits(n: nat, word: bv32): (bits: seq<bool>)
    ensures |bits| == n
  {
    if n == 0 then [] else [Odd(word)] + LowBits(n - 1, Half(word))
  }

  lemma {:induction false} LowBitsAre(n: nat, word: bv32, k: nat)
    requires k < n
    ensures LowBits(n, word)[k] == Bit(k, word)
  {
    hide Half, Odd;
    if k != 0 {
      LowBitsAre(n - 1, Half(word), k - 1);
    }
  }

  lemma DoubledEven(upper: bv32)
    requires upper <= 0x7FFF_FFFF
    ensures ((upper << 1) | 0) as int == (upper as int) * 2
  {
  }

  lemma DoubledOdd(upper: bv32)
    requires upper <= 0x7FFF_FFFF
    ensures ((upper << 1) | 1) as int == (upper as int) * 2 + 1
  {
  }

  lemma Apart(word: bv32)
    ensures word == if Odd(word) then (Half(word) << 1) | 1 else (Half(word) << 1) | 0
    ensures Half(word) <= 0x7FFF_FFFF
  {
  }

  lemma HalfNumber(word: bv32)
    ensures word as int == (if Odd(word) then 1 else 0) + 2 * (Half(word) as int)
  {
    hide Half, Odd;
    Apart(word);
    DoubledEven(Half(word));
    DoubledOdd(Half(word));
  }

  // A word that has no bits left after n halvings stands for the number with those n digits.
  lemma {:induction false} WordNumber(n: nat, word: bv32)
    requires Halves(n, word) == 0
    ensures word as int == Number(LowBits(n, word))
  {
    hide Half, Odd;
    if n != 0 {
      HalfNumber(word);
      WordNumber(n - 1, Half(word));
      assert LowBits(n, word)[1..] == LowBits(n - 1, Half(word));
    }
  }

  lemma FinishNumber(word: bv32)
    ensures Finish(word) == Number(Inverted(Window(word)))
  {
    hide Bit, Halves, Number;
    NothingAbove(!word);
    WordNumber(32, !word);
    forall k | 0 <= k < 32
      ensures LowBits(32, !word)[k] == Inverted(Window(word))[k]
    {
      LowBitsAre(32, !word, k);
      ComplementBit(k, word);
    }
    assert LowBits(32, !word) == Inverted(Window(word));
  }

  // The checksum of every string is the remainder of its division by the generator, inverted, the
  // highest coefficient being the lowest bit.
  lemma CrcIsRemainder(data: seq<byte>)
    ensures Crc(data) == Number(Inverted(Divide(Dividend(AllBits(data)))))
  {
    hide Bit, Update, Feed, Divide, Number, Finish;
    var bits := AllBits(data);
    forall k | 0 <= k < |bits| + 32
      ensures Dividend(bits)[k] == Mixed(ALL_ONES, bits)[k]
    {
      if k < 32 {
        BitOfOnes(k);
      }
    }
    assert Dividend(bits) == Mixed(ALL_ONES, bits);
    DivideFeeds(ALL_ONES, bits);
    FeedBytes(ALL_ONES, data);
    FinishNumber(Update(ALL_ONES, data));
  }
}
