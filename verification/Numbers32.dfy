/** The numbers that 32-bit words stand for, and what the word operations of XXH32 do to them: sums, products
    and differences modulo 2^32, and rotations and exclusive ors of digits. A proof about bits and a proof
    about numbers are kept apart, since together they are slow: products and exclusive ors go down by the
    halves of a word, shifts and rotations by one place at a time. */
module Numbers32 {
  import opened Bytes
  import opened Inputs
  import opened Integers
  import opened Modulo32
  import opened Words32

  function Value(x: bv32): nat {
    x as nat
  }

  lemma ValueBounds(x: bv32)
    ensures Value(x) < TWO_TO_THE_32
  {
  }

  lemma OnlyZeroIsZero(x: bv32)
    ensures Value(x) == 0 <==> x == 0
  {
  }

  lemma BitValues()
    ensures Value(0) == 0 && Value(1) == 1
  {
  }

  // ----- halves -----

  function Half(x: bv32): bv32 {
    x >> 1
  }

  function Low(x: bv32): bv32 {
    x & 1
  }

  function HighPart(x: bv32): bv31 {
    (x >> 1) as bv31
  }

  function LowPart(x: bv32): bv1 {
    (x & 1) as bv1
  }

  lemma JoinedHalves(high: bv31, low: bv1)
    ensures Value(((high as bv32) << 1) | (low as bv32)) == 2 * Value(high as bv32) + Value(low as bv32)
  {
  }

  lemma SplitInHalves(x: bv32)
    ensures x == ((HighPart(x) as bv32) << 1) | (LowPart(x) as bv32)
    ensures Half(x) == HighPart(x) as bv32 && Low(x) == LowPart(x) as bv32
  {
  }

  lemma LowIsBit(x: bv32)
    ensures Low(x) == 0 || Low(x) == 1
  {
  }

  lemma TwiceHalf(x: bv32)
    ensures x == Half(x) + Half(x) + Low(x)
  {
  }

  lemma JoinedValue(x: bv32)
    ensures Value(x) == 2 * Value(Half(x)) + Value(Low(x))
  {
    hide *;
    SplitInHalves(x);
    JoinedHalves(HighPart(x), LowPart(x));
  }

  lemma Halves(x: bv32)
    ensures Value(Half(x)) == Value(x) / 2 && Value(Low(x)) == Value(x) % 2
  {
    hide *;
    JoinedValue(x);
    LowIsBit(x);
    BitValues();
  }

  // ----- sums -----

  function WideValue(x: bv33): nat {
    x as nat
  }

  function WidePlus(a: bv32, b: bv32): bv33 {
    (a as bv33) + (b as bv33)
  }

  function Carry(a: bv32, b: bv32): bv1 {
    (WidePlus(a, b) >> 32) as bv1
  }

  lemma WidePlusValue(a: bv32, b: bv32)
    ensures WideValue(WidePlus(a, b)) == Value(a) + Value(b)
  {
  }

  lemma JoinedCarry(carry: bv1, low: bv32)
    ensures WideValue(((carry as bv33) << 32) | (low as bv33)) == TWO_TO_THE_32 * Value(carry as bv32) + Value(low)
  {
  }

  lemma CarryAndSum(a: bv32, b: bv32)
    ensures WidePlus(a, b) == ((Carry(a, b) as bv33) << 32) | ((a + b) as bv33)
  {
  }

  lemma SumValue(a: bv32, b: bv32)
    ensures Value(a + b) == Add(Value(a), Value(b))
  {
    hide Value, WideValue, WidePlus, Carry;
    CarryAndSum(a, b);
    WidePlusValue(a, b);
    JoinedCarry(Carry(a, b), a + b);
    ValueBounds(a + b);
  }

  /** The same as a predicate, for use on expressions. */
  ghost predicate SumLaw(a: bv32, b: bv32)
    ensures SumLaw(a, b) && Value(a + b) == Add(Value(a), Value(b))
  {
    SumValue(a, b);
    true
  }

  lemma PlusValue(a: bv32, b: bv32)
    ensures Value(Plus(a, b)) == Add(Value(a), Value(b))
  {
    hide Value;
    SumValue(a, b);
  }

  lemma MinusValue(a: bv32, b: bv32)
    ensures Value(Minus(a, b)) == Subtract(Value(a), Value(b))
  {
    hide Value, Plus;
    MinusPlus(a, b);
    PlusValue(Minus(a, b), b);
    ValueBounds(Minus(a, b));
    ValueBounds(a);
  }

  // ----- products -----

  function Times(x: bv32, c: bv32): bv32 {
    x * c
  }

  lemma ProductOfSum(h: bv32, low: bv32, c: bv32)
    ensures Value((h + h + low) * c) == Value(h * c + h * c + low * c)
  {
    hide *;
  }

  lemma SumOfProducts(h: bv32, low: bv32, c: bv32)
    ensures Value(h * c + h * c + low * c) == Add(Add(Value(h * c), Value(h * c)), Value(low * c))
  {
    hide *;
    assert SumLaw(h * c, h * c) && SumLaw(h * c + h * c, low * c);
  }

  lemma TimesDistributes(h: bv32, low: bv32, c: bv32)
    ensures Value(Times(h + h + low, c))
            == Add(Add(Value(Times(h, c)), Value(Times(h, c))), Value(Times(low, c)))
  {
    hide Value, Add;
    ProductOfSum(h, low, c);
    SumOfProducts(h, low, c);
  }

  lemma TimesHalves(x: bv32, c: bv32)
    ensures Value(Times(x, c))
            == Add(Add(Value(Times(Half(x), c)), Value(Times(Half(x), c))), Value(Times(Low(x), c)))
  {
    hide *;
    TwiceHalf(x);
    TimesDistributes(Half(x), Low(x), c);
  }

  lemma TimesBit(c: bv32)
    ensures Times(0, c) == 0 && Times(1, c) == c
  {
  }

  lemma LowTimesValue(x: bv32, c: bv32)
    ensures Value(Times(Low(x), c)) == if Value(x) % 2 == 0 then 0 else Value(c)
  {
    hide *;
    LowIsBit(x);
    Halves(x);
    BitValues();
    TimesBit(c);
  }

  lemma WrappedDouble(p: nat, q: nat)
    ensures Add(Add(p % TWO_TO_THE_32, p % TWO_TO_THE_32), q) == (p + p + q) % TWO_TO_THE_32
  {
  }

  lemma DoubledProduct(y: nat, c: nat, low: nat)
    requires low < 2
    ensures (2 * y + low) * c == y * c + y * c + if low == 0 then 0 else c
  {
  }

  lemma WrappedProduct(x: nat, c: nat)
    ensures Multiply(x, c)
            == Add(Add(Multiply(x / 2, c), Multiply(x / 2, c)), if x % 2 == 0 then 0 else c)
  {
    hide Add;
    DoubledProduct(x / 2, c, x % 2);
    WrappedDouble(x / 2 * c, if x % 2 == 0 then 0 else c);
  }

  lemma WrappedZero(c: nat)
    ensures Multiply(0, c) == 0
  {
  }

  lemma {:induction false} TimesValue(x: bv32, c: bv32)
    ensures Value(Times(x, c)) == Multiply(Value(x), Value(c))
    decreases Value(x)
  {
    hide *;
    if x == 0 {
      TimesBit(c);
      BitValues();
      WrappedZero(Value(c));
    } else {
      OnlyZeroIsZero(x);
      Halves(x);
      TimesValue(Half(x), c);
      TimesHalves(x, c);
      LowTimesValue(x, c);
      WrappedProduct(Value(x), Value(c));
    }
  }

  lemma PrimeValues()
    ensures Value(2654435761) == 2654435761
    ensures Value(2246822519) == 2246822519
    ensures Value(3266489917) == 3266489917
    ensures Value(668265263) == 668265263
    ensures Value(374761393) == 374761393
  {
  }

  lemma TimesPrime1Value(x: bv32)
    ensures Value(TimesPrime1(x)) == Multiply(Value(x), 2654435761)
  {
    TimesPrime1IsTimes(x);
    hide *;
    PrimeValues();
    TimesValue(x, 2654435761);
  }

  lemma TimesPrime1IsTimes(x: bv32)
    ensures TimesPrime1(x) == Times(x, 2654435761)
  {
    assert TimesPrime1(x) == x * 2654435761;
    assert Times(x, 2654435761) == x * 2654435761;
  }

  lemma TimesPrime2Value(x: bv32)
    ensures Value(TimesPrime2(x)) == Multiply(Value(x), 2246822519)
  {
    TimesPrime2IsTimes(x);
    hide *;
    PrimeValues();
    TimesValue(x, 2246822519);
  }

  lemma TimesPrime2IsTimes(x: bv32)
    ensures TimesPrime2(x) == Times(x, 2246822519)
  {
    assert TimesPrime2(x) == x * 2246822519;
    assert Times(x, 2246822519) == x * 2246822519;
  }

  lemma TimesPrime3Value(x: bv32)
    ensures Value(TimesPrime3(x)) == Multiply(Value(x), 3266489917)
  {
    TimesPrime3IsTimes(x);
    hide *;
    PrimeValues();
    TimesValue(x, 3266489917);
  }

  lemma TimesPrime3IsTimes(x: bv32)
    ensures TimesPrime3(x) == Times(x, 3266489917)
  {
    assert TimesPrime3(x) == x * 3266489917;
    assert Times(x, 3266489917) == x * 3266489917;
  }

  lemma TimesPrime4Value(x: bv32)
    ensures Value(TimesPrime4(x)) == Multiply(Value(x), 668265263)
  {
    TimesPrime4IsTimes(x);
    hide *;
    PrimeValues();
    TimesValue(x, 668265263);
  }

  lemma TimesPrime4IsTimes(x: bv32)
    ensures TimesPrime4(x) == Times(x, 668265263)
  {
    assert TimesPrime4(x) == x * 668265263;
    assert Times(x, 668265263) == x * 668265263;
  }

  lemma TimesPrime5Value(x: bv32)
    ensures Value(TimesPrime5(x)) == Multiply(Value(x), 374761393)
  {
    TimesPrime5IsTimes(x);
    hide *;
    PrimeValues();
    TimesValue(x, 374761393);
  }

  lemma TimesPrime5IsTimes(x: bv32)
    ensures TimesPrime5(x) == Times(x, 374761393)
  {
    assert TimesPrime5(x) == x * 374761393;
    assert Times(x, 374761393) == x * 374761393;
  }

  // ----- exclusive or -----

  lemma XorHalves(a: bv32, b: bv32)
    ensures Half(Xor(a, b)) == Xor(Half(a), Half(b)) && Low(Xor(a, b)) == Xor(Low(a), Low(b))
  {
  }

  lemma XorOfBits()
    ensures Xor(0, 0) == 0 && Xor(0, 1) == 1 && Xor(1, 0) == 1 && Xor(1, 1) == 0
  {
  }

  lemma LowOfXor(a: bv32, b: bv32)
    ensures Value(Xor(a, b)) % 2 == (Value(a) + Value(b)) % 2
  {
    hide *;
    XorHalves(a, b);
    XorOfBits();
    BitValues();
    LowIsBit(a);
    LowIsBit(b);
    Halves(a);
    Halves(b);
    Halves(Xor(a, b));
  }

  lemma {:induction false} XorValue(a: bv32, b: bv32)
    ensures Value(Xor(a, b)) == ExclusiveOr(Value(a), Value(b))
    decreases Value(a) + Value(b)
  {
    hide *;
    ExclusiveOrUnfolds(Value(a), Value(b));
    if a == 0 && b == 0 {
      XorOfBits();
      BitValues();
    } else {
      OnlyZeroIsZero(a);
      OnlyZeroIsZero(b);
      XorHalves(a, b);
      LowOfXor(a, b);
      Halves(a);
      Halves(b);
      Halves(Xor(a, b));
      XorValue(Half(a), Half(b));
    }
  }

  // ----- shifts and rotations -----

  /** y is x shifted right by k places. */
  predicate IsShift(x: bv32, k: nat, y: bv32) {
    Value(y) == WithoutLow(Value(x), k)
  }

  /** w is the word with bit k alone. */
  predicate IsPower(k: nat, w: bv32) {
    Value(w) == Power(k)
  }

  lemma NextShift(x: bv32, k: nat, y: bv32, z: bv32)
    requires k > 0 && IsShift(x, k - 1, y) && z == Half(y)
    ensures IsShift(x, k, z)
  {
    hide Value, Half;
    Halves(y);
    HalfOfQuotient(Value(x), Power(k - 1));
  }

  lemma NextPower(k: nat, w: bv32)
    requires 0 < k < 32 && IsPower(k - 1, w)
    ensures IsPower(k, w + w)
  {
    hide Value;
    PowerGrows(k, 31);
    HighestBits();
    SumValue(w, w);
  }
  lemma ShiftOfNone(x: bv32)
    ensures IsShift(x, 0, x >> 0) && IsPower(0, 1)
  {
    hide Value;
    BitValues();
  }

  /** The literal shifts and powers that the digest uses. */
  lemma LiteralShifts(x: bv32)
    ensures IsShift(x, 13, x >> 13) && IsShift(x, 14, x >> 14) && IsShift(x, 15, x >> 15)
    ensures IsShift(x, 16, x >> 16) && IsShift(x, 19, x >> 19) && IsShift(x, 20, x >> 20)
    ensures IsShift(x, 21, x >> 21) && IsShift(x, 25, x >> 25) && IsShift(x, 31, x >> 31)
  {
    hide Value, WithoutLow, IsShift;
    ShiftOfNone(x);
    NextShift(x, 1, x >> 0, x >> 1);
    NextShift(x, 2, x >> 1, x >> 2);
    NextShift(x, 3, x >> 2, x >> 3);
    NextShift(x, 4, x >> 3, x >> 4);
    NextShift(x, 5, x >> 4, x >> 5);
    NextShift(x, 6, x >> 5, x >> 6);
    NextShift(x, 7, x >> 6, x >> 7);
    NextShift(x, 8, x >> 7, x >> 8);
    NextShift(x, 9, x >> 8, x >> 9);
    NextShift(x, 10, x >> 9, x >> 10);
    NextShift(x, 11, x >> 10, x >> 11);
    NextShift(x, 12, x >> 11, x >> 12);
    NextShift(x, 13, x >> 12, x >> 13);
    NextShift(x, 14, x >> 13, x >> 14);
    NextShift(x, 15, x >> 14, x >> 15);
    NextShift(x, 16, x >> 15, x >> 16);
    NextShift(x, 17, x >> 16, x >> 17);
    NextShift(x, 18, x >> 17, x >> 18);
    NextShift(x, 19, x >> 18, x >> 19);
    NextShift(x, 20, x >> 19, x >> 20);
    NextShift(x, 21, x >> 20, x >> 21);
    NextShift(x, 22, x >> 21, x >> 22);
    NextShift(x, 23, x >> 22, x >> 23);
    NextShift(x, 24, x >> 23, x >> 24);
    NextShift(x, 25, x >> 24, x >> 25);
    NextShift(x, 26, x >> 25, x >> 26);
    NextShift(x, 27, x >> 26, x >> 27);
    NextShift(x, 28, x >> 27, x >> 28);
    NextShift(x, 29, x >> 28, x >> 29);
    NextShift(x, 30, x >> 29, x >> 30);
    NextShift(x, 31, x >> 30, x >> 31);
  }

  lemma LiteralPowers()
    ensures IsPower(1, 0x2) && IsPower(7, 0x80) && IsPower(11, 0x800) && IsPower(12, 0x1000)
    ensures IsPower(13, 0x2000) && IsPower(17, 0x2_0000) && IsPower(18, 0x4_0000)
  {
    hide *;
    ShiftOfNone(0);
    NextPower(1, 0x1);
    NextPower(2, 0x2);
    NextPower(3, 0x4);
    NextPower(4, 0x8);
    NextPower(5, 0x10);
    NextPower(6, 0x20);
    NextPower(7, 0x40);
    NextPower(8, 0x80);
    NextPower(9, 0x100);
    NextPower(10, 0x200);
    NextPower(11, 0x400);
    NextPower(12, 0x800);
    NextPower(13, 0x1000);
    NextPower(14, 0x2000);
    NextPower(15, 0x4000);
    NextPower(16, 0x8000);
    NextPower(17, 0x1_0000);
    NextPower(18, 0x2_0000);
  }

  lemma RotateUnfolds(v: nat, r: nat)
    requires r < 32
    ensures Rotate(v, r, 32) == Add(Multiply(v, Power(r)), WithoutLow(v, 32 - r))
  {
    hide WithoutLow, Power, Add;
    BytePowers();
    SumOfWrapped(v * Power(r), WithoutLow(v, 32 - r));
  }

  lemma SumOfWrapped(p: nat, q: nat)
    ensures Add(p % TWO_TO_THE_32, q) == (p + q) % TWO_TO_THE_32
  {
  }

  lemma RotationValue(x: bv32, r: nat, left: bv32, high: bv32)
    requires r < 32 && IsPower(r, left) && IsShift(x, 32 - r, high)
    ensures Value(Plus(Times(x, left), high)) == Rotate(Value(x), r, 32)
  {
    hide Value, Plus, Times, Rotate, WithoutLow, Add, Multiply, Power;
    RotateUnfolds(Value(x), r);
    TimesValue(x, left);
    PlusValue(Times(x, left), high);
  }

  lemma Rotate1IsSum(x: bv32)
    ensures RotateLeft1(x) == Plus(Times(x, 0x2), x >> 31)
  {
  }

  lemma Rotate1Value(x: bv32)
    ensures Value(RotateLeft1(x)) == Rotate(Value(x), 1, 32)
  {
    hide *;
    LiteralShifts(x);
    LiteralPowers();
    Rotate1IsSum(x);
    RotationValue(x, 1, 0x2, x >> 31);
  }

  lemma Rotate7IsSum(x: bv32)
    ensures RotateLeft7(x) == Plus(Times(x, 0x80), x >> 25)
  {
  }

  lemma Rotate7Value(x: bv32)
    ensures Value(RotateLeft7(x)) == Rotate(Value(x), 7, 32)
  {
    hide *;
    LiteralShifts(x);
    LiteralPowers();
    Rotate7IsSum(x);
    RotationValue(x, 7, 0x80, x >> 25);
  }

  lemma Rotate11IsSum(x: bv32)
    ensures RotateLeft11(x) == Plus(Times(x, 0x800), x >> 21)
  {
  }

  lemma Rotate11Value(x: bv32)
    ensures Value(RotateLeft11(x)) == Rotate(Value(x), 11, 32)
  {
    hide *;
    LiteralShifts(x);
    LiteralPowers();
    Rotate11IsSum(x);
    RotationValue(x, 11, 0x800, x >> 21);
  }

  lemma Rotate12IsSum(x: bv32)
    ensures RotateLeft12(x) == Plus(Times(x, 0x1000), x >> 20)
  {
  }

  lemma Rotate12Value(x: bv32)
    ensures Value(RotateLeft12(x)) == Rotate(Value(x), 12, 32)
  {
    hide *;
    LiteralShifts(x);
    LiteralPowers();
    Rotate12IsSum(x);
    RotationValue(x, 12, 0x1000, x >> 20);
  }

  lemma Rotate13IsSum(x: bv32)
    ensures RotateLeft13(x) == Plus(Times(x, 0x2000), x >> 19)
  {
  }

  lemma Rotate13Value(x: bv32)
    ensures Value(RotateLeft13(x)) == Rotate(Value(x), 13, 32)
  {
    hide *;
    LiteralShifts(x);
    LiteralPowers();
    Rotate13IsSum(x);
    RotationValue(x, 13, 0x2000, x >> 19);
  }

  lemma Rotate17IsSum(x: bv32)
    ensures RotateLeft17(x) == Plus(Times(x, 0x2_0000), x >> 15)
  {
  }

  lemma Rotate17Value(x: bv32)
    ensures Value(RotateLeft17(x)) == Rotate(Value(x), 17, 32)
  {
    hide *;
    LiteralShifts(x);
    LiteralPowers();
    Rotate17IsSum(x);
    RotationValue(x, 17, 0x2_0000, x >> 15);
  }

  lemma Rotate18IsSum(x: bv32)
    ensures RotateLeft18(x) == Plus(Times(x, 0x4_0000), x >> 14)
  {
  }

  lemma Rotate18Value(x: bv32)
    ensures Value(RotateLeft18(x)) == Rotate(Value(x), 18, 32)
  {
    hide *;
    LiteralShifts(x);
    LiteralPowers();
    Rotate18IsSum(x);
    RotationValue(x, 18, 0x4_0000, x >> 14);
  }

  lemma XorShiftValue(x: bv32, k: nat, high: bv32)
    requires IsShift(x, k, high)
    ensures Value(Xor(x, high)) == ExclusiveOr(Value(x), WithoutLow(Value(x), k))
  {
    hide Value, WithoutLow, Xor;
    XorValue(x, high);
  }

  lemma XorShift13IsXor(x: bv32)
    ensures XorShift13(x) == Xor(x, x >> 13)
  {
  }

  lemma XorShift13Value(x: bv32)
    ensures Value(XorShift13(x)) == ExclusiveOr(Value(x), WithoutLow(Value(x), 13))
  {
    hide *;
    LiteralShifts(x);
    XorShift13IsXor(x);
    XorShiftValue(x, 13, x >> 13);
  }

  lemma XorShift15IsXor(x: bv32)
    ensures XorShift15(x) == Xor(x, x >> 15)
  {
  }

  lemma XorShift15Value(x: bv32)
    ensures Value(XorShift15(x)) == ExclusiveOr(Value(x), WithoutLow(Value(x), 15))
  {
    hide *;
    LiteralShifts(x);
    XorShift15IsXor(x);
    XorShiftValue(x, 15, x >> 15);
  }

  lemma XorShift16IsXor(x: bv32)
    ensures XorShift16(x) == Xor(x, x >> 16)
  {
  }

  lemma XorShift16Value(x: bv32)
    ensures Value(XorShift16(x)) == ExclusiveOr(Value(x), WithoutLow(Value(x), 16))
  {
    hide *;
    LiteralShifts(x);
    XorShift16IsXor(x);
    XorShiftValue(x, 16, x >> 16);
  }

  // ----- bytes and words -----

  lemma ByteValue(b: bv8)
    ensures Value(b as bv32) == ByteNumber(b)
  {
  }

  lemma PackValue(a: bv8, b: bv8, c: bv8, d: bv8)
    ensures Value(Pack(a, b, c, d))
            == ByteNumber(a) + 0x100 * ByteNumber(b) + 0x1_0000 * ByteNumber(c) + 0x100_0000 * ByteNumber(d)
  {
  }

  lemma WordValue(s: seq<bv8>, p: nat)
    requires p + 4 <= |s|
    ensures Value(Word(s, p)) == Number(s[p..p + 4])
  {
    hide Value, ByteNumber, Pack;
    PackValue(s[p], s[p + 1], s[p + 2], s[p + 3]);
    NumberOfFour(s, p, p + 4);
  }
}
