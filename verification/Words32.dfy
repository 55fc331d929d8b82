/** The word operations of XXH32 (fs/hash.c) with the operations that undo them. Arithmetic wraps modulo
    2^32, as in C. A multiplication by a prime is undone by a multiplication by the prime's inverse, a
    rotation by the opposite rotation, and the exclusive or of a word with itself shifted to the right by
    shifting again until the low bits are back. Wrapping sums and differences undo each other. */
module Words32 {

  function TimesPrime1(x: bv32): bv32 {
    x * 2654435761
  }

  function OverPrime1(x: bv32): bv32 {
    x * 244002641
  }

  lemma Product1IsOne(x: bv32)
    ensures OverPrime1(x * 2654435761) == x && TimesPrime1(x * 244002641) == x
  {
  }

  lemma OverPrime1Undoes(x: bv32)
    ensures OverPrime1(TimesPrime1(x)) == x
  {
    hide OverPrime1;
    Product1IsOne(x);
  }

  function TimesPrime2(x: bv32): bv32 {
    x * 2246822519
  }

  function OverPrime2(x: bv32): bv32 {
    x * 3066638151
  }

  lemma Product2IsOne(x: bv32)
    ensures OverPrime2(x * 2246822519) == x && TimesPrime2(x * 3066638151) == x
  {
  }

  lemma OverPrime2Undoes(x: bv32)
    ensures OverPrime2(TimesPrime2(x)) == x
  {
    hide OverPrime2;
    Product2IsOne(x);
  }

  lemma TimesPrime2Undoes(x: bv32)
    ensures TimesPrime2(OverPrime2(x)) == x
  {
    hide TimesPrime2;
    Product2IsOne(x);
  }

  function TimesPrime3(x: bv32): bv32 {
    x * 3266489917
  }

  function OverPrime3(x: bv32): bv32 {
    x * 2828982549
  }

  lemma Product3IsOne(x: bv32)
    ensures OverPrime3(x * 3266489917) == x && TimesPrime3(x * 2828982549) == x
  {
  }

  lemma OverPrime3Undoes(x: bv32)
    ensures OverPrime3(TimesPrime3(x)) == x
  {
    hide OverPrime3;
    Product3IsOne(x);
  }

  lemma TimesPrime3Undoes(x: bv32)
    ensures TimesPrime3(OverPrime3(x)) == x
  {
    hide TimesPrime3;
    Product3IsOne(x);
  }

  function TimesPrime4(x: bv32): bv32 {
    x * 668265263
  }

  function OverPrime4(x: bv32): bv32 {
    x * 2701016015
  }

  lemma Product4IsOne(x: bv32)
    ensures OverPrime4(x * 668265263) == x && TimesPrime4(x * 2701016015) == x
  {
  }

  lemma OverPrime4Undoes(x: bv32)
    ensures OverPrime4(TimesPrime4(x)) == x
  {
    hide OverPrime4;
    Product4IsOne(x);
  }

  function TimesPrime5(x: bv32): bv32 {
    x * 374761393
  }

  function OverPrime5(x: bv32): bv32 {
    x * 2923004241
  }

  lemma Product5IsOne(x: bv32)
    ensures OverPrime5(x * 374761393) == x && TimesPrime5(x * 2923004241) == x
  {
  }

  lemma OverPrime5Undoes(x: bv32)
    ensures OverPrime5(TimesPrime5(x)) == x
  {
    hide OverPrime5;
    Product5IsOne(x);
  }

  function RotateLeft1(x: bv32): bv32 {
    (x << 1) | (x >> 31)
  }

  function RotateRight1(x: bv32): bv32 {
    (x >> 1) | (x << 31)
  }

  lemma RotateRight1Undoes(x: bv32)
    ensures RotateRight1(RotateLeft1(x)) == x
  {
  }

  function RotateLeft7(x: bv32): bv32 {
    (x << 7) | (x >> 25)
  }

  function RotateRight7(x: bv32): bv32 {
    (x >> 7) | (x << 25)
  }

  lemma RotateRight7Undoes(x: bv32)
    ensures RotateRight7(RotateLeft7(x)) == x
  {
  }

  function RotateLeft12(x: bv32): bv32 {
    (x << 12) | (x >> 20)
  }

  function RotateRight12(x: bv32): bv32 {
    (x >> 12) | (x << 20)
  }

  lemma RotateRight12Undoes(x: bv32)
    ensures RotateRight12(RotateLeft12(x)) == x
  {
  }

  function RotateLeft18(x: bv32): bv32 {
    (x << 18) | (x >> 14)
  }

  function RotateRight18(x: bv32): bv32 {
    (x >> 18) | (x << 14)
  }

  lemma RotateRight18Undoes(x: bv32)
    ensures RotateRight18(RotateLeft18(x)) == x
  {
  }

  function RotateLeft13(x: bv32): bv32 {
    (x << 13) | (x >> 19)
  }

  function RotateRight13(x: bv32): bv32 {
    (x >> 13) | (x << 19)
  }

  lemma RotateRight13Undoes(x: bv32)
    ensures RotateRight13(RotateLeft13(x)) == x
  {
  }

  function RotateLeft17(x: bv32): bv32 {
    (x << 17) | (x >> 15)
  }

  function RotateRight17(x: bv32): bv32 {
    (x >> 17) | (x << 15)
  }

  lemma RotateRight17Undoes(x: bv32)
    ensures RotateRight17(RotateLeft17(x)) == x
  {
  }

  function RotateLeft11(x: bv32): bv32 {
    (x << 11) | (x >> 21)
  }

  function RotateRight11(x: bv32): bv32 {
    (x >> 11) | (x << 21)
  }

  lemma RotateRight11Undoes(x: bv32)
    ensures RotateRight11(RotateLeft11(x)) == x
  {
  }

  function XorShift15(x: bv32): bv32 {
    x ^ (x >> 15)
  }

  function UnXorShift15(y: bv32): bv32 {
    y ^ (y >> 15) ^ (y >> 30)
  }

  lemma Shift15Cancels(x: bv32)
    ensures UnXorShift15(x ^ (x >> 15)) == x
    ensures XorShift15(x ^ (x >> 15) ^ (x >> 30)) == x
  {
  }

  lemma UnXorShift15Undoes(x: bv32)
    ensures UnXorShift15(XorShift15(x)) == x
  {
    hide UnXorShift15;
    Shift15Cancels(x);
  }

  lemma XorShift15Undoes(x: bv32)
    ensures XorShift15(UnXorShift15(x)) == x
  {
    hide XorShift15;
    Shift15Cancels(x);
  }

  function XorShift13(x: bv32): bv32 {
    x ^ (x >> 13)
  }

  function UnXorShift13(y: bv32): bv32 {
    y ^ (y >> 13) ^ (y >> 26)
  }

  lemma Shift13Cancels(x: bv32)
    ensures UnXorShift13(x ^ (x >> 13)) == x
    ensures XorShift13(x ^ (x >> 13) ^ (x >> 26)) == x
  {
  }

  lemma UnXorShift13Undoes(x: bv32)
    ensures UnXorShift13(XorShift13(x)) == x
  {
    hide UnXorShift13;
    Shift13Cancels(x);
  }

  lemma XorShift13Undoes(x: bv32)
    ensures XorShift13(UnXorShift13(x)) == x
  {
    hide XorShift13;
    Shift13Cancels(x);
  }

  function XorShift16(x: bv32): bv32 {
    x ^ (x >> 16)
  }

  function UnXorShift16(y: bv32): bv32 {
    y ^ (y >> 16)
  }

  lemma Shift16Cancels(x: bv32)
    ensures UnXorShift16(x ^ (x >> 16)) == x
    ensures XorShift16(x ^ (x >> 16)) == x
  {
  }

  lemma UnXorShift16Undoes(x: bv32)
    ensures UnXorShift16(XorShift16(x)) == x
  {
    hide UnXorShift16;
    Shift16Cancels(x);
  }

  lemma XorShift16Undoes(x: bv32)
    ensures XorShift16(UnXorShift16(x)) == x
  {
    hide XorShift16;
    Shift16Cancels(x);
  }

  /** Wrapping addition. */
  function Plus(a: bv32, b: bv32): bv32 {
    a + b
  }

  function Minus(a: bv32, b: bv32): bv32 {
    a - b
  }

  lemma SumLessTerm(a: bv32, c: bv32)
    ensures Minus(a + c, c) == a && Minus(c + a, c) == a
  {
  }

  lemma SumsDiffer(a: bv32, b: bv32, c: bv32)
    ensures Plus(a, c) == Plus(b, c) <==> a == b
    ensures Plus(c, a) == Plus(c, b) <==> a == b
  {
    hide Minus;
    SumLessTerm(a, c);
    SumLessTerm(b, c);
  }

  lemma MinusPlus(a: bv32, b: bv32)
    ensures Plus(a - b, b) == a
  {
  }

  lemma MinusesDiffer(a: bv32, b: bv32, c: bv32)
    ensures Minus(a, c) == Minus(b, c) <==> a == b
  {
    hide Plus;
    MinusPlus(a, c);
    MinusPlus(b, c);
  }

  function Xor(a: bv32, b: bv32): bv32 {
    a ^ b
  }
}
