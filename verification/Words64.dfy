/** The word operations of XXH64 (fs/hash.c) with the operations that undo them. Arithmetic wraps modulo
    2^64, as in C. A multiplication by a prime is undone by a multiplication by the prime's inverse, a
    rotation by the opposite rotation, and the exclusive or of a word with itself shifted to the right by
    shifting again until the low bits are back. Wrapping sums and differences undo each other. */
module Words64 {

  function TimesPrime1(x: bv64): bv64 {
    x * 11400714785074694791
  }

  function OverPrime1(x: bv64): bv64 {
    x * 614540362697595703
  }

  lemma Product1IsOne(x: bv64)
    ensures OverPrime1(x * 11400714785074694791) == x && TimesPrime1(x * 614540362697595703) == x
  {
  }

  lemma OverPrime1Undoes(x: bv64)
    ensures OverPrime1(TimesPrime1(x)) == x
  {
    hide OverPrime1;
    Product1IsOne(x);
  }

  function TimesPrime2(x: bv64): bv64 {
    x * 14029467366897019727
  }

  function OverPrime2(x: bv64): bv64 {
    x * 839798700976720815
  }

  lemma Product2IsOne(x: bv64)
    ensures OverPrime2(x * 14029467366897019727) == x && TimesPrime2(x * 839798700976720815) == x
  {
  }

  lemma OverPrime2Undoes(x: bv64)
    ensures OverPrime2(TimesPrime2(x)) == x
  {
    hide OverPrime2;
    Product2IsOne(x);
  }

  lemma TimesPrime2Undoes(x: bv64)
    ensures TimesPrime2(OverPrime2(x)) == x
  {
    hide TimesPrime2;
    Product2IsOne(x);
  }

  function TimesPrime3(x: bv64): bv64 {
    x * 1609587929392839161
  }

  function OverPrime3(x: bv64): bv64 {
    x * 16855272203555305545
  }

  lemma Product3IsOne(x: bv64)
    ensures OverPrime3(x * 1609587929392839161) == x && TimesPrime3(x * 16855272203555305545) == x
  {
  }

  lemma OverPrime3Undoes(x: bv64)
    ensures OverPrime3(TimesPrime3(x)) == x
  {
    hide OverPrime3;
    Product3IsOne(x);
  }

  lemma TimesPrime3Undoes(x: bv64)
    ensures TimesPrime3(OverPrime3(x)) == x
  {
    hide TimesPrime3;
    Product3IsOne(x);
  }

  function TimesPrime4(x: bv64): bv64 {
    x * 9650029242287828579
  }

  function OverPrime4(x: bv64): bv64 {
    x * 15596783062780822347
  }

  lemma Product4IsOne(x: bv64)
    ensures OverPrime4(x * 9650029242287828579) == x && TimesPrime4(x * 15596783062780822347) == x
  {
  }

  lemma OverPrime4Undoes(x: bv64)
    ensures OverPrime4(TimesPrime4(x)) == x
  {
    hide OverPrime4;
    Product4IsOne(x);
  }

  function TimesPrime5(x: bv64): bv64 {
    x * 2870177450012600261
  }

  function OverPrime5(x: bv64): bv64 {
    x * 14236653164957433613
  }

  lemma Product5IsOne(x: bv64)
    ensures OverPrime5(x * 2870177450012600261) == x && TimesPrime5(x * 14236653164957433613) == x
  {
  }

  lemma OverPrime5Undoes(x: bv64)
    ensures OverPrime5(TimesPrime5(x)) == x
  {
    hide OverPrime5;
    Product5IsOne(x);
  }

  function RotateLeft1(x: bv64): bv64 {
    (x << 1) | (x >> 63)
  }

  function RotateRight1(x: bv64): bv64 {
    (x >> 1) | (x << 63)
  }

  lemma RotateRight1Undoes(x: bv64)
    ensures RotateRight1(RotateLeft1(x)) == x
  {
  }

  function RotateLeft7(x: bv64): bv64 {
    (x << 7) | (x >> 57)
  }

  function RotateRight7(x: bv64): bv64 {
    (x >> 7) | (x << 57)
  }

  lemma RotateRight7Undoes(x: bv64)
    ensures RotateRight7(RotateLeft7(x)) == x
  {
  }

  function RotateLeft12(x: bv64): bv64 {
    (x << 12) | (x >> 52)
  }

  function RotateRight12(x: bv64): bv64 {
    (x >> 12) | (x << 52)
  }

  lemma RotateRight12Undoes(x: bv64)
    ensures RotateRight12(RotateLeft12(x)) == x
  {
  }

  function RotateLeft18(x: bv64): bv64 {
    (x << 18) | (x >> 46)
  }

  function RotateRight18(x: bv64): bv64 {
    (x >> 18) | (x << 46)
  }

  lemma RotateRight18Undoes(x: bv64)
    ensures RotateRight18(RotateLeft18(x)) == x
  {
  }

  function RotateLeft31(x: bv64): bv64 {
    (x << 31) | (x >> 33)
  }

  function RotateRight31(x: bv64): bv64 {
    (x >> 31) | (x << 33)
  }

  lemma RotateRight31Undoes(x: bv64)
    ensures RotateRight31(RotateLeft31(x)) == x
  {
  }

  function RotateLeft27(x: bv64): bv64 {
    (x << 27) | (x >> 37)
  }

  function RotateRight27(x: bv64): bv64 {
    (x >> 27) | (x << 37)
  }

  lemma RotateRight27Undoes(x: bv64)
    ensures RotateRight27(RotateLeft27(x)) == x
  {
  }

  function RotateLeft23(x: bv64): bv64 {
    (x << 23) | (x >> 41)
  }

  function RotateRight23(x: bv64): bv64 {
    (x >> 23) | (x << 41)
  }

  lemma RotateRight23Undoes(x: bv64)
    ensures RotateRight23(RotateLeft23(x)) == x
  {
  }

  function RotateLeft11(x: bv64): bv64 {
    (x << 11) | (x >> 53)
  }

  function RotateRight11(x: bv64): bv64 {
    (x >> 11) | (x << 53)
  }

  lemma RotateRight11Undoes(x: bv64)
    ensures RotateRight11(RotateLeft11(x)) == x
  {
  }

  function XorShift33(x: bv64): bv64 {
    x ^ (x >> 33)
  }

  function UnXorShift33(y: bv64): bv64 {
    y ^ (y >> 33)
  }

  lemma Shift33Cancels(x: bv64)
    ensures UnXorShift33(x ^ (x >> 33)) == x
    ensures XorShift33(x ^ (x >> 33)) == x
  {
  }

  lemma UnXorShift33Undoes(x: bv64)
    ensures UnXorShift33(XorShift33(x)) == x
  {
    hide UnXorShift33;
    Shift33Cancels(x);
  }

  lemma XorShift33Undoes(x: bv64)
    ensures XorShift33(UnXorShift33(x)) == x
  {
    hide XorShift33;
    Shift33Cancels(x);
  }

  function XorShift29(x: bv64): bv64 {
    x ^ (x >> 29)
  }

  function UnXorShift29(y: bv64): bv64 {
    y ^ (y >> 29) ^ (y >> 58)
  }

  lemma Shift29Cancels(x: bv64)
    ensures UnXorShift29(x ^ (x >> 29)) == x
    ensures XorShift29(x ^ (x >> 29) ^ (x >> 58)) == x
  {
  }

  lemma UnXorShift29Undoes(x: bv64)
    ensures UnXorShift29(XorShift29(x)) == x
  {
    hide UnXorShift29;
    Shift29Cancels(x);
  }

  lemma XorShift29Undoes(x: bv64)
    ensures XorShift29(UnXorShift29(x)) == x
  {
    hide XorShift29;
    Shift29Cancels(x);
  }

  function XorShift32(x: bv64): bv64 {
    x ^ (x >> 32)
  }

  function UnXorShift32(y: bv64): bv64 {
    y ^ (y >> 32)
  }

  lemma Shift32Cancels(x: bv64)
    ensures UnXorShift32(x ^ (x >> 32)) == x
    ensures XorShift32(x ^ (x >> 32)) == x
  {
  }

  lemma UnXorShift32Undoes(x: bv64)
    ensures UnXorShift32(XorShift32(x)) == x
  {
    hide UnXorShift32;
    Shift32Cancels(x);
  }

  lemma XorShift32Undoes(x: bv64)
    ensures XorShift32(UnXorShift32(x)) == x
  {
    hide XorShift32;
    Shift32Cancels(x);
  }

  /** Wrapping addition. */
  function Plus(a: bv64, b: bv64): bv64 {
    a + b
  }

  function Minus(a: bv64, b: bv64): bv64 {
    a - b
  }

  lemma SumLessTerm(a: bv64, c: bv64)
    ensures Minus(a + c, c) == a && Minus(c + a, c) == a
  {
  }

  lemma SumsDiffer(a: bv64, b: bv64, c: bv64)
    ensures Plus(a, c) == Plus(b, c) <==> a == b
    ensures Plus(c, a) == Plus(c, b) <==> a == b
  {
    hide Minus;
    SumLessTerm(a, c);
    SumLessTerm(b, c);
  }

  lemma MinusPlus(a: bv64, b: bv64)
    ensures Plus(a - b, b) == a
  {
  }

  lemma MinusesDiffer(a: bv64, b: bv64, c: bv64)
    ensures Minus(a, c) == Minus(b, c) <==> a == b
  {
    hide Plus;
    MinusPlus(a, c);
    MinusPlus(b, c);
  }

  function Xor(a: bv64, b: bv64): bv64 {
    a ^ b
  }

  lemma XorsDiffer(a: bv64, b: bv64, c: bv64)
    ensures Xor(a, c) == Xor(b, c) <==> a == b
    ensures Xor(c, a) == Xor(c, b) <==> a == b
  {
  }
}
