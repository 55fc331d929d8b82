/** The numbers that 64-bit words stand for, and what the word operations of XXH64 do to them: sums, products
    and differences modulo 2^64, and rotations and exclusive ors of digits. A proof about bits and a proof
    about numbers are kept apart, since together they are slow: products and exclusive ors go down by the
    halves of a word, shifts and rotations by one place at a time. */
module Numbers64 {
  import opened Bytes
  import opened Integers
  import opened Modulo64
  import Numbers32
  import opened Words64

  function Value(x: bv64): nat {
    x as nat
  }

  lemma ValueBounds(x: bv64)
    ensures Value(x) < TWO_TO_THE_64
  {
  }

  lemma OnlyZeroIsZero(x: bv64)
    ensures Value(x) == 0 <==> x == 0
  {
  }

  lemma BitValues()
    ensures Value(0) == 0 && Value(1) == 1
  {
  }

  // ----- halves -----

  function Half(x: bv64): bv64 {
    x >> 1
  }

  function Low(x: bv64): bv64 {
    x & 1
  }

  function HighPart(x: bv64): bv63 {
    (x >> 1) as bv63
  }

  function LowPart(x: bv64): bv1 {
    (x & 1) as bv1
  }

  lemma JoinedHalves(high: bv63, low: bv1)
    ensures Value(((high as bv64) << 1) | (low as bv64)) == 2 * Value(high as bv64) + Value(low as bv64)
  {
  }

  lemma SplitInHalves(x: bv64)
    ensures x == ((HighPart(x) as bv64) << 1) | (LowPart(x) as bv64)
    ensures Half(x) == HighPart(x) as bv64 && Low(x) == LowPart(x) as bv64
  {
  }

  lemma LowIsBit(x: bv64)
    ensures Low(x) == 0 || Low(x) == 1
  {
  }

  lemma TwiceHalf(x: bv64)
    ensures x == Half(x) + Half(x) + Low(x)
  {
  }

  lemma JoinedValue(x: bv64)
    ensures Value(x) == 2 * Value(Half(x)) + Value(Low(x))
  {
    hide *;
    SplitInHalves(x);
    JoinedHalves(HighPart(x), LowPart(x));
  }

  lemma Halves(x: bv64)
    ensures Value(Half(x)) == Value(x) / 2 && Value(Low(x)) == Value(x) % 2
  {
    hide *;
    JoinedValue(x);
    LowIsBit(x);
    BitValues();
  }

  // ----- sums -----

  function WideValue(x: bv65): nat {
    x as nat
  }

  function WidePlus(a: bv64, b: bv64): bv65 {
    (a as bv65) + (b as bv65)
  }

  function Carry(a: bv64, b: bv64): bv1 {
    (WidePlus(a, b) >> 64) as bv1
  }

  lemma WidePlusValue(a: bv64, b: bv64)
    ensures WideValue(WidePlus(a, b)) == Value(a) + Value(b)
  {
  }

  lemma JoinedCarry(carry: bv1, low: bv64)
    ensures WideValue(((carry as bv65) << 64) | (low as bv65)) == TWO_TO_THE_64 * Value(carry as bv64) + Value(low)
  {
  }

  lemma CarryAndSum(a: bv64, b: bv64)
    ensures WidePlus(a, b) == ((Carry(a, b) as bv65) << 64) | ((a + b) as bv65)
  {
  }

  lemma SumValue(a: bv64, b: bv64)
    ensures Value(a + b) == Add(Value(a), Value(b))
  {
    hide Value, WideValue, WidePlus, Carry;
    CarryAndSum(a, b);
    WidePlusValue(a, b);
    JoinedCarry(Carry(a, b), a + b);
    ValueBounds(a + b);
  }

  /** The same as a predicate, for use on expressions. */
  ghost predicate SumLaw(a: bv64, b: bv64)
    ensures SumLaw(a, b) && Value(a + b) == Add(Value(a), Value(b))
  {
    SumValue(a, b);
    true
  }

  lemma PlusValue(a: bv64, b: bv64)
    ensures Value(Plus(a, b)) == Add(Value(a), Value(b))
  {
    hide Value;
    SumValue(a, b);
  }

  lemma MinusValue(a: bv64, b: bv64)
    ensures Value(Minus(a, b)) == Subtract(Value(a), Value(b))
  {
    hide Value, Plus;
    MinusPlus(a, b);
    PlusValue(Minus(a, b), b);
    ValueBounds(Minus(a, b));
    ValueBounds(a);
  }

  // ----- products -----

  function Times(x: bv64, c: bv64): bv64 {
    x * c
  }

  lemma ProductOfSum(h: bv64, low: bv64, c: bv64)
    ensures Value((h + h + low) * c) == Value(h * c + h * c + low * c)
  {
    hide *;
  }

  lemma SumOfProducts(h: bv64, low: bv64, c: bv64)
    ensures Value(h * c + h * c + low * c) == Add(Add(Value(h * c), Value(h * c)), Value(low * c))
  {
    hide *;
    assert SumLaw(h * c, h * c) && SumLaw(h * c + h * c, low * c);
  }

  lemma TimesDistributes(h: bv64, low: bv64, c: bv64)
    ensures Value(Times(h + h + low, c))
            == Add(Add(Value(Times(h, c)), Value(Times(h, c))), Value(Times(low, c)))
  {
    hide Value, Add;
    ProductOfSum(h, low, c);
    SumOfProducts(h, low, c);
  }

  lemma TimesHalves(x: bv64, c: bv64)
    ensures Value(Times(x, c))
            == Add(Add(Value(Times(Half(x), c)), Value(Times(Half(x), c))), Value(Times(Low(x), c)))
  {
    hide *;
    TwiceHalf(x);
    TimesDistributes(Half(x), Low(x), c);
  }

  lemma TimesBit(c: bv64)
    ensures Times(0, c) == 0 && Times(1, c) == c
  {
  }

  lemma LowTimesValue(x: bv64, c: bv64)
    ensures Value(Times(Low(x), c)) == if Value(x) % 2 == 0 then 0 else Value(c)
  {
    hide *;
    LowIsBit(x);
    Halves(x);
    BitValues();
    TimesBit(c);
  }

  lemma WrappedDouble(p: nat, q: nat)
    ensures Add(Add(p % TWO_TO_THE_64, p % TWO_TO_THE_64), q) == (p + p + q) % TWO_TO_THE_64
  {
  }

  lemma DoubledProduct(y: nat, c: nat, low: nat)
    requires low < 2
    ensures (2 * y + low) * c == y * c + y * c + if low == 0 then 0 else c
  {
  }

  lemma WrappedProduct(x: nat, c: nat)
    ensures Multiply(x, c)
            == Add(Add(Multiply(x / 2, c), Multiply(x / 2, c)), if x % 2 == 0 then 0 else c)
  {
    hide Add;
    DoubledProduct(x / 2, c, x % 2);
    WrappedDouble(x / 2 * c, if x % 2 == 0 then 0 else c);
  }

  lemma WrappedZero(c: nat)
    ensures Multiply(0, c) == 0
  {
  }

  lemma {:induction false} TimesValue(x: bv64, c: bv64)
    ensures Value(Times(x, c)) == Multiply(Value(x), Value(c))
    decreases Value(x)
  {
    hide *;
    if x == 0 {
      TimesBit(c);
      BitValues();
      WrappedZero(Value(c));
    } else {
      OnlyZeroIsZero(x);
      Halves(x);
      TimesValue(Half(x), c);
      TimesHalves(x, c);
      LowTimesValue(x, c);
      WrappedProduct(Value(x), Value(c));
    }
  }

  lemma PrimeValues()
    ensures Value(11400714785074694791) == 11400714785074694791
    ensures Value(14029467366897019727) == 14029467366897019727
    ensures Value(1609587929392839161) == 1609587929392839161
    ensures Value(9650029242287828579) == 9650029242287828579
    ensures Value(2870177450012600261) == 2870177450012600261
  {
  }

  lemma TimesPrime1Value(x: bv64)
    ensures Value(TimesPrime1(x)) == Multiply(Value(x), 11400714785074694791)
  {
    TimesPrime1IsTimes(x);
    hide *;
    PrimeValues();
    TimesValue(x, 11400714785074694791);
  }

  lemma TimesPrime1IsTimes(x: bv64)
    ensures TimesPrime1(x) == Times(x, 11400714785074694791)
  {
    assert TimesPrime1(x) == x * 11400714785074694791;
    assert Times(x, 11400714785074694791) == x * 11400714785074694791;
  }

  lemma TimesPrime2Value(x: bv64)
    ensures Value(TimesPrime2(x)) == Multiply(Value(x), 14029467366897019727)
  {
    TimesPrime2IsTimes(x);
    hide *;
    PrimeValues();
    TimesValue(x, 14029467366897019727);
  }

  lemma TimesPrime2IsTimes(x: bv64)
    ensures TimesPrime2(x) == Times(x, 14029467366897019727)
  {
    assert TimesPrime2(x) == x * 14029467366897019727;
    assert Times(x, 14029467366897019727) == x * 14029467366897019727;
  }

  lemma TimesPrime3Value(x: bv64)
    ensures Value(TimesPrime3(x)) == Multiply(Value(x), 1609587929392839161)
  {
    TimesPrime3IsTimes(x);
    hide *;
    PrimeValues();
    TimesValue(x, 1609587929392839161);
  }

  lemma TimesPrime3IsTimes(x: bv64)
    ensures TimesPrime3(x) == Times(x, 1609587929392839161)
  {
    assert TimesPrime3(x) == x * 1609587929392839161;
    assert Times(x, 1609587929392839161) == x * 1609587929392839161;
  }

  lemma TimesPrime5Value(x: bv64)
    ensures Value(TimesPrime5(x)) == Multiply(Value(x), 2870177450012600261)
  {
    TimesPrime5IsTimes(x);
    hide *;
    PrimeValues();
    TimesValue(x, 2870177450012600261);
  }

  lemma TimesPrime5IsTimes(x: bv64)
    ensures TimesPrime5(x) == Times(x, 2870177450012600261)
  {
    assert TimesPrime5(x) == x * 2870177450012600261;
    assert Times(x, 2870177450012600261) == x * 2870177450012600261;
  }

  // ----- exclusive or -----

  lemma XorHalves(a: bv64, b: bv64)
    ensures Half(Xor(a, b)) == Xor(Half(a), Half(b)) && Low(Xor(a, b)) == Xor(Low(a), Low(b))
  {
  }

  lemma XorOfBits()
    ensures Xor(0, 0) == 0 && Xor(0, 1) == 1 && Xor(1, 0) == 1 && Xor(1, 1) == 0
  {
  }

  lemma LowOfXor(a: bv64, b: bv64)
    ensures Value(Xor(a, b)) % 2 == (Value(a) + Value(b)) % 2
  {
    hide *;
    XorHalves(a, b);
    XorOfBits();
    BitValues();
    LowIsBit(a);
    LowIsBit(b);
    Halves(a);
    Halves(b);
    Halves(Xor(a, b));
  }

  lemma {:induction false} XorValue(a: bv64, b: bv64)
    ensures Value(Xor(a, b)) == ExclusiveOr(Value(a), Value(b))
    decreases Value(a) + Value(b)
  {
    hide *;
    ExclusiveOrUnfolds(Value(a), Value(b));
    if a == 0 && b == 0 {
      XorOfBits();
      BitValues();
    } else {
      OnlyZeroIsZero(a);
      OnlyZeroIsZero(b);
      XorHalves(a, b);
      LowOfXor(a, b);
      Halves(a);
      Halves(b);
      Halves(Xor(a, b));
      XorValue(Half(a), Half(b));
    }
  }

  // ----- shifts and rotations -----

  /** y is x shifted right by k places. */
  predicate IsShift(x: bv64, k: nat, y: bv64) {
    Value(y) == WithoutLow(Value(x), k)
  }

  /** w is the word with bit k alone. */
  predicate IsPower(k: nat, w: bv64) {
    Value(w) == Power(k)
  }

  lemma NextShift(x: bv64, k: nat, y: bv64, z: bv64)
    requires k > 0 && IsShift(x, k - 1, y) && z == Half(y)
    ensures IsShift(x, k, z)
  {
    hide Value, Half;
    Halves(y);
    HalfOfQuotient(Value(x), Power(k - 1));
  }

  lemma NextPower(k: nat, w: bv64)
    requires 0 < k < 64 && IsPower(k - 1, w)
    ensures IsPower(k, w + w)
  {
    hide Value;
    PowerGrows(k, 63);
    HighestBits();
    SumValue(w, w);
  }
  lemma ShiftOfNone(x: bv64)
    ensures IsShift(x, 0, x >> 0) && IsPower(0, 1)
  {
    hide Value;
    BitValues();
  }

  /** The literal shifts and powers that the digest uses. */
  lemma LiteralShifts(x: bv64)
    ensures IsShift(x, 29, x >> 29) && IsShift(x, 32, x >> 32)
  {
    hide Value, WithoutLow, IsShift;
    ShiftOfNone(x);
    NextShift(x, 1, x >> 0, x >> 1);
    NextShift(x, 2, x >> 1, x >> 2);
    NextShift(x, 3, x >> 2, x >> 3);
    NextShift(x, 4, x >> 3, x >> 4);
    NextShift(x, 5, x >> 4, x >> 5);
    NextShift(x, 6, x >> 5, x >> 6);
    NextShift(x, 7, x >> 6, x >> 7);
    NextShift(x, 8, x >> 7, x >> 8);
    NextShift(x, 9, x >> 8, x >> 9);
    NextShift(x, 10, x >> 9, x >> 10);
    NextShift(x, 11, x >> 10, x >> 11);
    NextShift(x, 12, x >> 11, x >> 12);
    NextShift(x, 13, x >> 12, x >> 13);
    NextShift(x, 14, x >> 13, x >> 14);
    NextShift(x, 15, x >> 14, x >> 15);
    NextShift(x, 16, x >> 15, x >> 16);
    NextShift(x, 17, x >> 16, x >> 17);
    NextShift(x, 18, x >> 17, x >> 18);
    NextShift(x, 19, x >> 18, x >> 19);
    NextShift(x, 20, x >> 19, x >> 20);
    NextShift(x, 21, x >> 20, x >> 21);
    NextShift(x, 22, x >> 21, x >> 22);
    NextShift(x, 23, x >> 22, x >> 23);
    NextShift(x, 24, x >> 23, x >> 24);
    NextShift(x, 25, x >> 24, x >> 25);
    NextShift(x, 26, x >> 25, x >> 26);
    NextShift(x, 27, x >> 26, x >> 27);
    NextShift(x, 28, x >> 27, x >> 28);
    NextShift(x, 29, x >> 28, x >> 29);
    NextShift(x, 30, x >> 29, x >> 30);
    NextShift(x, 31, x >> 30, x >> 31);
    NextShift(x, 32, x >> 31, x >> 32);
  }

  lemma LongLiteralShifts(x: bv64)
    ensures IsShift(x, 33, x >> 33) && IsShift(x, 37, x >> 37) && IsShift(x, 41, x >> 41)
    ensures IsShift(x, 46, x >> 46) && IsShift(x, 52, x >> 52) && IsShift(x, 53, x >> 53)
    ensures IsShift(x, 57, x >> 57) && IsShift(x, 63, x >> 63)
  {
    hide Value, WithoutLow, IsShift;
    LiteralShifts(x);
    NextShift(x, 33, x >> 32, x >> 33);
    NextShift(x, 34, x >> 33, x >> 34);
    NextShift(x, 35, x >> 34, x >> 35);
    NextShift(x, 36, x >> 35, x >> 36);
    NextShift(x, 37, x >> 36, x >> 37);
    NextShift(x, 38, x >> 37, x >> 38);
    NextShift(x, 39, x >> 38, x >> 39);
    NextShift(x, 40, x >> 39, x >> 40);
    NextShift(x, 41, x >> 40, x >> 41);
    NextShift(x, 42, x >> 41, x >> 42);
    NextShift(x, 43, x >> 42, x >> 43);
    NextShift(x, 44, x >> 43, x >> 44);
    NextShift(x, 45, x >> 44, x >> 45);
    NextShift(x, 46, x >> 45, x >> 46);
    NextShift(x, 47, x >> 46, x >> 47);
    NextShift(x, 48, x >> 47, x >> 48);
    NextShift(x, 49, x >> 48, x >> 49);
    NextShift(x, 50, x >> 49, x >> 50);
    NextShift(x, 51, x >> 50, x >> 51);
    NextShift(x, 52, x >> 51, x >> 52);
    NextShift(x, 53, x >> 52, x >> 53);
    NextShift(x, 54, x >> 53, x >> 54);
    NextShift(x, 55, x >> 54, x >> 55);
    NextShift(x, 56, x >> 55, x >> 56);
    NextShift(x, 57, x >> 56, x >> 57);
    NextShift(x, 58, x >> 57, x >> 58);
    NextShift(x, 59, x >> 58, x >> 59);
    NextShift(x, 60, x >> 59, x >> 60);
    NextShift(x, 61, x >> 60, x >> 61);
    NextShift(x, 62, x >> 61, x >> 62);
    NextShift(x, 63, x >> 62, x >> 63);
  }

  lemma LiteralPowers()
    ensures IsPower(1, 0x2) && IsPower(7, 0x80) && IsPower(11, 0x800) && IsPower(12, 0x1000)
    ensures IsPower(18, 0x4_0000) && IsPower(23, 0x80_0000) && IsPower(27, 0x800_0000)
    ensures IsPower(31, 0x8000_0000)
  {
    hide *;
    ShiftOfNone(0);
    NextPower(1, 0x1);
    NextPower(2, 0x2);
    NextPower(3, 0x4);
    NextPower(4, 0x8);
    NextPower(5, 0x10);
    NextPower(6, 0x20);
    NextPower(7, 0x40);
    NextPower(8, 0x80);
    NextPower(9, 0x100);
    NextPower(10, 0x200);
    NextPower(11, 0x400);
    NextPower(12, 0x800);
    NextPower(13, 0x1000);
    NextPower(14, 0x2000);
    NextPower(15, 0x4000);
    NextPower(16, 0x8000);
    NextPower(17, 0x1_0000);
    NextPower(18, 0x2_0000);
    NextPower(19, 0x4_0000);
    NextPower(20, 0x8_0000);
    NextPower(21, 0x10_0000);
    NextPower(22, 0x20_0000);
    NextPower(23, 0x40_0000);
    NextPower(24, 0x80_0000);
    NextPower(25, 0x100_0000);
    NextPower(26, 0x200_0000);
    NextPower(27, 0x400_0000);
    NextPower(28, 0x800_0000);
    NextPower(29, 0x1000_0000);
    NextPower(30, 0x2000_0000);
    NextPower(31, 0x4000_0000);
  }

  lemma RotateUnfolds(v: nat, r: nat)
    requires r < 64
    ensures Rotate(v, r, 64) == Add(Multiply(v, Power(r)), WithoutLow(v, 64 - r))
  {
    hide WithoutLow, Power, Add;
    BytePowers();
    SumOfWrapped(v * Power(r), WithoutLow(v, 64 - r));
  }

  lemma SumOfWrapped(p: nat, q: nat)
    ensures Add(p % TWO_TO_THE_64, q) == (p + q) % TWO_TO_THE_64
  {
  }

  lemma RotationValue(x: bv64, r: nat, left: bv64, high: bv64)
    requires r < 64 && IsPower(r, left) && IsShift(x, 64 - r, high)
    ensures Value(Plus(Times(x, left), high)) == Rotate(Value(x), r, 64)
  {
    hide Value, Plus, Times, Rotate, WithoutLow, Add, Multiply, Power;
    RotateUnfolds(Value(x), r);
    TimesValue(x, left);
    PlusValue(Times(x, left), high);
  }

  lemma Rotate1IsSum(x: bv64)
    ensures RotateLeft1(x) == Plus(Times(x, 0x2), x >> 63)
  {
  }

  lemma Rotate1Value(x: bv64)
    ensures Value(RotateLeft1(x)) == Rotate(Value(x), 1, 64)
  {
    hide *;
    LongLiteralShifts(x);
    LiteralPowers();
    Rotate1IsSum(x);
    RotationValue(x, 1, 0x2, x >> 63);
  }

  lemma Rotate7IsSum(x: bv64)
    ensures RotateLeft7(x) == Plus(Times(x, 0x80), x >> 57)
  {
  }

  lemma Rotate7Value(x: bv64)
    ensures Value(RotateLeft7(x)) == Rotate(Value(x), 7, 64)
  {
    hide *;
    LongLiteralShifts(x);
    LiteralPowers();
    Rotate7IsSum(x);
    RotationValue(x, 7, 0x80, x >> 57);
  }

  lemma Rotate11IsSum(x: bv64)
    ensures RotateLeft11(x) == Plus(Times(x, 0x800), x >> 53)
  {
  }

  lemma Rotate11Value(x: bv64)
    ensures Value(RotateLeft11(x)) == Rotate(Value(x), 11, 64)
  {
    hide *;
    LongLiteralShifts(x);
    LiteralPowers();
    Rotate11IsSum(x);
    RotationValue(x, 11, 0x800, x >> 53);
  }

  lemma Rotate12IsSum(x: bv64)
    ensures RotateLeft12(x) == Plus(Times(x, 0x1000), x >> 52)
  {
  }

  lemma Rotate12Value(x: bv64)
    ensures Value(RotateLeft12(x)) == Rotate(Value(x), 12, 64)
  {
    hide *;
    LongLiteralShifts(x);
    LiteralPowers();
    Rotate12IsSum(x);
    RotationValue(x, 12, 0x1000, x >> 52);
  }

  lemma Rotate18IsSum(x: bv64)
    ensures RotateLeft18(x) == Plus(Times(x, 0x4_0000), x >> 46)
  {
  }

  lemma Rotate18Value(x: bv64)
    ensures Value(RotateLeft18(x)) == Rotate(Value(x), 18, 64)
  {
    hide *;
    LongLiteralShifts(x);
    LiteralPowers();
    Rotate18IsSum(x);
    RotationValue(x, 18, 0x4_0000, x >> 46);
  }

  lemma Rotate23IsSum(x: bv64)
    ensures RotateLeft23(x) == Plus(Times(x, 0x80_0000), x >> 41)
  {
  }

  lemma Rotate23Value(x: bv64)
    ensures Value(RotateLeft23(x)) == Rotate(Value(x), 23, 64)
  {
    hide *;
    LongLiteralShifts(x);
    LiteralPowers();
    Rotate23IsSum(x);
    RotationValue(x, 23, 0x80_0000, x >> 41);
  }

  lemma Rotate27IsSum(x: bv64)
    ensures RotateLeft27(x) == Plus(Times(x, 0x800_0000), x >> 37)
  {
  }

  lemma Rotate27Value(x: bv64)
    ensures Value(RotateLeft27(x)) == Rotate(Value(x), 27, 64)
  {
    hide *;
    LongLiteralShifts(x);
    LiteralPowers();
    Rotate27IsSum(x);
    RotationValue(x, 27, 0x800_0000, x >> 37);
  }

  lemma Rotate31IsSum(x: bv64)
    ensures RotateLeft31(x) == Plus(Times(x, 0x8000_0000), x >> 33)
  {
  }

  lemma Rotate31Value(x: bv64)
    ensures Value(RotateLeft31(x)) == Rotate(Value(x), 31, 64)
  {
    hide *;
    LongLiteralShifts(x);
    LiteralPowers();
    Rotate31IsSum(x);
    RotationValue(x, 31, 0x8000_0000, x >> 33);
  }

  lemma XorShiftValue(x: bv64, k: nat, high: bv64)
    requires IsShift(x, k, high)
    ensures Value(Xor(x, high)) == ExclusiveOr(Value(x), WithoutLow(Value(x), k))
  {
    hide Value, WithoutLow, Xor;
    XorValue(x, high);
  }

  lemma XorShift29IsXor(x: bv64)
    ensures XorShift29(x) == Xor(x, x >> 29)
  {
  }

  lemma XorShift29Value(x: bv64)
    ensures Value(XorShift29(x)) == ExclusiveOr(Value(x), WithoutLow(Value(x), 29))
  {
    hide *;
    LiteralShifts(x);
    XorShift29IsXor(x);
    XorShiftValue(x, 29, x >> 29);
  }

  lemma XorShift32IsXor(x: bv64)
    ensures XorShift32(x) == Xor(x, x >> 32)
  {
  }

  lemma XorShift32Value(x: bv64)
    ensures Value(XorShift32(x)) == ExclusiveOr(Value(x), WithoutLow(Value(x), 32))
  {
    hide *;
    LiteralShifts(x);
    XorShift32IsXor(x);
    XorShiftValue(x, 32, x >> 32);
  }

  lemma XorShift33IsXor(x: bv64)
    ensures XorShift33(x) == Xor(x, x >> 33)
  {
  }

  lemma XorShift33Value(x: bv64)
    ensures Value(XorShift33(x)) == ExclusiveOr(Value(x), WithoutLow(Value(x), 33))
  {
    hide *;
    LongLiteralShifts(x);
    XorShift33IsXor(x);
    XorShiftValue(x, 33, x >> 33);
  }

  // ----- bytes, words and lanes -----

  lemma ByteValue(b: bv8)
    ensures Value(b as bv64) == ByteNumber(b)
  {
  }

  lemma WordValue(w: bv32)
    ensures Value(w as bv64) == Numbers32.Value(w)
  {
  }

  lemma JoinedWords(low: bv32, high: bv32)
    ensures Value((low as bv64) | ((high as bv64) << 32))
            == Numbers32.Value(low) + 0x1_0000_0000 * Numbers32.Value(high)
  {
  }
}
