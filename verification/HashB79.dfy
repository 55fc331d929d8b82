/** The order-preserving word code of fs/hash.c: ten base-79 digits, one per character class. */
module HashB79 {
  import opened Bytes

  const BASE: int := 79
  const WORD_LENGTH: nat := 10

  /** A row of the class table: the codes below lim that no earlier row covers get val, or distinct
      values from val on when the row is graded. */
  datatype Row = Row(lim: int, val: int, graded: bool)

  const TABLE: seq<Row> := [
    Row(1, 0, false), Row(0x20, 1, false), Row(0x22, 2, true), Row(0x28, 4, false),
    Row(0x2a, 5, true), Row(0x2d, 7, false), Row(0x3a, 8, true), Row(0x41, 21, false),
    Row(0x5b, 22, true), Row(0x5e, 48, false), Row(0x61, 49, false), Row(0x7b, 50, true),
    Row(0x7d, 76, false), Row(0x7f, 77, false), Row(256, 78, false), Row(0, 0, false)]

  /** The class of a character code: NUL, controls, the graded characters in code order, and the
      punctuation between them in lumps; -1 outside 0..255. */
  function ClassOf(c: int): (code: int)
    ensures 0 <= c < 256 ==> 0 <= code < BASE
  {
    if c < 0 || c >= 256 then -1
    else if c == 0 then 0
    else if c < 0x20 then 1
    else if c < 0x22 then c - 0x1e
    else if c < 0x28 then 4
    else if c < 0x2a then c - 0x23
    else if c < 0x2d then 7
    else if c < 0x3a then c - 0x25
    else if c < 0x41 then 21
    else if c < 0x5b then c - 0x2b
    else if c < 0x5e then 48
    else if c < 0x61 then 49
    else if c < 0x7b then c - 0x2f
    else if c < 0x7d then 76
    else if c < 0x7f then 77
    else 78
  }

  /** The classes keep the order of the codes, and two codes share one exactly when both are in one of
      the ranges that are lumped together. */
  lemma ClassesFollowCodes(c: int, d: int)
    requires 0 <= c <= d < 256
    ensures ClassOf(c) <= ClassOf(d)
    ensures ClassOf(c) == ClassOf(d) <==> c == d || SameLump(c, d)
  {
  }

  predicate SameLump(c: int, d: int) {
    || (1 <= c <= d <= 0x1f)
    || ('\"' as int <= c <= d <= '\'' as int) || ('*' as int <= c <= d <= ',' as int)
    || (':' as int <= c <= d <= '@' as int) || ('[' as int <= c <= d <= ']' as int)
    || ('^' as int <= c <= d <= '`' as int) || ('{' as int <= c <= d <= '|' as int)
    || ('}' as int <= c <= d <= '~' as int) || (0x7f <= c <= d)
  }

  /** Every class from 0 to 78 is some code's. With the order this leaves one choice for each class. */
  lemma EveryClassIsUsed(k: int) returns (c: int)
    requires 0 <= k < BASE
    ensures 0 <= c < 256 && ClassOf(c) == k
  {
    c := if k == 0 then 0
         else if k == 1 then 1
         else if k <= 3 then k + 0x1e
         else if k == 4 then 0x22
         else if k <= 6 then k + 0x23
         else if k == 7 then 0x2a
         else if k <= 20 then k + 0x25
         else if k == 21 then 0x3a
         else if k <= 47 then k + 0x2b
         else if k == 48 then 0x5b
         else if k == 49 then 0x5e
         else if k <= 75 then k + 0x2f
         else if k == 76 then 0x7b
         else if k == 77 then 0x7d
         else 0x7f;
  }

  method Ascii2Mx79(c: int) returns (cc: int)
    ensures cc == ClassOf(c)
  {
    var i := 0;
    var limInf, limSup := 0, 0;
    while TABLE[i].lim != 0
      invariant 0 <= i < |TABLE|
      invariant limSup == if i == 0 then 0 else TABLE[i - 1].lim
      invariant i > 0 ==> c < 0 || c >= limSup
      decreases |TABLE| - i
    {
      limInf := limSup;
      limSup := TABLE[i].lim;
      if c >= limInf && c < limSup {
        cc := if !TABLE[i].graded then TABLE[i].val else c - limInf + TABLE[i].val;
        return;
      }
      i := i + 1;
    }
    return -1;
  }

  // ----- words and digits -----

  /** A NUL-free string of bytes. */
  ghost predicate Word(s: seq<int>) {
    forall i | 0 <= i < |s| :: 1 <= s[i] <= 255
  }

  ghost predicate SevenBit(s: seq<int>) {
    forall i | 0 <= i < |s| :: 1 <= s[i] <= 127
  }

  /** A byte read through a signed char. */
  function SignedChar(b: int): int {
    if b >= 128 then b - 256 else b
  }

  function Digit(s: seq<int>, i: nat): int {
    if i < |s| then ClassOf(SignedChar(s[i])) else 0
  }

  /** The first n digits of a word, zero-padded. */
  function Digits(s: seq<int>, n: nat): (d: seq<int>)
    ensures |d| == n
  {
    seq(n, i requires 0 <= i < n => Digit(s, i))
  }

  /** The number that a digit sequence denotes. */
  function Value(d: seq<int>): int {
    if d == [] then 0 else BASE * Value(d[..|d| - 1]) + d[|d| - 1]
  }

  method HashB79(s: seq<int>) returns (h: nat)
    requires Word(s)
    ensures h == Value(Digits(s, WORD_LENGTH)) % TWO_TO_THE_64
  {
    h := 0;
    for i := 0 to WORD_LENGTH
      invariant h == Value(Digits(s, i)) % TWO_TO_THE_64
    {
      var cc := 0;
      if i < |s| {
        var c := SignedChar(s[i]);
        cc := Ascii2Mx79(c);
      }
      assert Digits(s, i + 1)[..i] == Digits(s, i);
      WrapsOnce(Value(Digits(s, i)), cc);
      h := h * BASE % TWO_TO_THE_64;
      h := (h + cc) % TWO_TO_THE_64;
    }
  }

  /** Reducing after every step is the same as reducing once. */
  lemma WrapsOnce(v: int, cc: int)
    ensures (v % TWO_TO_THE_64 * BASE % TWO_TO_THE_64 + cc) % TWO_TO_THE_64 == (BASE * v + cc) % TWO_TO_THE_64
  {
    var q := v / TWO_TO_THE_64;
    var r := v % TWO_TO_THE_64;
    var q2 := r * BASE / TWO_TO_THE_64;
    assert BASE * v + cc == (r * BASE % TWO_TO_THE_64 + cc) + (BASE * q + q2) * TWO_TO_THE_64;
    SameModulo(r * BASE % TWO_TO_THE_64 + cc, BASE * q + q2);
  }

  lemma SameModulo(a: int, k: int)
    ensures (a + k * TWO_TO_THE_64) % TWO_TO_THE_64 == a % TWO_TO_THE_64
  {
  }

  // ----- order and collisions -----

  ghost predicate ProperDigits(d: seq<int>) {
    forall i | 0 <= i < |d| :: 0 <= d[i] < BASE
  }

  function Pow79(n: nat): nat {
    if n == 0 then 1 else BASE * Pow79(n - 1)
  }

  lemma {:induction false} ValueBounds(d: seq<int>)
    requires ProperDigits(d)
    ensures 0 <= Value(d) < Pow79(|d|)
  {
    if d != [] {
      ValueBounds(d[..|d| - 1]);
    }
  }

  /** Two digit sequences agree up to k, and the first has the smaller digit at k. */
  ghost predicate LessAt(a: seq<int>, b: seq<int>, k: nat) {
    k < |a| && k < |b| && a[..k] == b[..k] && a[k] < b[k]
  }

  /** Numbers of equal length are ordered by their first differing digit. */
  lemma {:induction false} ValueIsMonotone(a: seq<int>, b: seq<int>, k: nat)
    requires |a| == |b| && ProperDigits(a) && ProperDigits(b) && LessAt(a, b, k)
    ensures Value(a) < Value(b)
    decreases |a|
  {
    var n := |a| - 1;
    if k < n {
      assert a[..n][..k] == a[..k] && b[..n][..k] == b[..k];
      ValueIsMonotone(a[..n], b[..n], k);
    } else {
      assert a[..n] == b[..n];
    }
  }

  lemma TenDigitsFit(s: seq<int>)
    requires SevenBit(s)
    ensures ProperDigits(Digits(s, WORD_LENGTH))
    ensures 0 <= Value(Digits(s, WORD_LENGTH)) < TWO_TO_THE_64
    ensures Hash(s) == Value(Digits(s, WORD_LENGTH))
  {
    ValueBounds(Digits(s, WORD_LENGTH));
    assert Pow79(5) == 3077056399;
    assert Pow79(10) == 9468276082626847201;
  }

  /** hash_b79 as a function. */
  function Hash(s: seq<int>): int {
    Value(Digits(s, WORD_LENGTH)) % TWO_TO_THE_64
  }

  /** The digit sequence, its last digit lowered by `borrow`, with every digit below zero made good from
      its left neighbour, except the first, which has none. */
  function Settled(d: seq<int>, borrow: int): (r: seq<int>)
    ensures |r| == |d|
  {
    if d == [] then []
    else
      var n := |d| - 1;
      var x := d[n] - borrow;
      if n > 0 && x < 0 then Settled(d[..n], 1) + [x + BASE] else Settled(d[..n], 0) + [x]
  }

  /** Digits as the hash adds them up: from -1, for a byte above 0x7f, to 78. */
  ghost predicate SignedDigits(d: seq<int>) {
    forall i | 0 <= i < |d| :: -1 <= d[i] < BASE
  }

  /** Digits that are proper but for the first. */
  ghost predicate ProperTail(d: seq<int>) {
    forall i | 0 < i < |d| :: 0 <= d[i] < BASE
  }

  /** Borrowing changes the value by the borrow alone, and brings every digit behind the first into range. */
  lemma {:induction false} SettledMeaning(d: seq<int>, borrow: int)
    requires SignedDigits(d) && 0 <= borrow <= 1
    ensures ProperTail(Settled(d, borrow))
    ensures d != [] ==> Value(Settled(d, borrow)) == Value(d) - borrow
  {
    if d != [] {
      var n := |d| - 1;
      var x := d[n] - borrow;
      var b := if n > 0 && x < 0 then 1 else 0;
      SettledMeaning(d[..n], b);
      ValueOfLast(Settled(d[..n], b), x + b * BASE);
    }
  }

  lemma ValueOfLast(d: seq<int>, x: int)
    ensures Value(d + [x]) == BASE * Value(d) + x
  {
    assert (d + [x])[..|d|] == d;
  }

  /** Proper digits have nothing to borrow. */
  lemma {:induction false} ProperIsSettled(d: seq<int>)
    requires ProperDigits(d)
    ensures Settled(d, 0) == d
  {
    if d != [] {
      ProperIsSettled(d[..|d| - 1]);
      assert d == d[..|d| - 1] + [d[|d| - 1]];
    }
  }

  /** Sequences with a proper tail denote different numbers unless they are equal. */
  lemma {:induction false} ProperTailIsUnique(a: seq<int>, b: seq<int>)
    requires |a| == |b| && ProperTail(a) && ProperTail(b) && Value(a) == Value(b)
    ensures a == b
  {
    if a != [] {
      var n := |a| - 1;
      if n > 0 {
        assert Value(a[..n]) == Value(b[..n]);
        ProperTailIsUnique(a[..n], b[..n]);
      }
      assert a == a[..n] + [a[n]] && b == b[..n] + [b[n]];
    }
  }

  lemma {:induction false} SignedBounds(d: seq<int>)
    requires SignedDigits(d)
    ensures 1 - Pow79(|d|) <= 78 * Value(d) && Value(d) < Pow79(|d|)
  {
    if d != [] {
      SignedBounds(d[..|d| - 1]);
    }
  }

  lemma WordDigitsAreSigned(s: seq<int>)
    requires Word(s)
    ensures SignedDigits(Digits(s, WORD_LENGTH))
  {
  }

  lemma CloseNumbersMeetOnce(a: int, b: int)
    requires -TWO_TO_THE_64 < a - b < TWO_TO_THE_64
    ensures a % TWO_TO_THE_64 == b % TWO_TO_THE_64 <==> a == b
  {
  }

  /** The values of two words never meet modulo 2^64 unless they are equal. */
  lemma ValuesMeetOnlyWhenEqual(s: seq<int>, t: seq<int>)
    requires Word(s) && Word(t)
    ensures Hash(s) == Hash(t) <==> Value(Digits(s, WORD_LENGTH)) == Value(Digits(t, WORD_LENGTH))
  {
    hide Value, Digits, SignedDigits, Pow79;
    WordDigitsAreSigned(s);
    WordDigitsAreSigned(t);
    SignedBounds(Digits(s, WORD_LENGTH));
    SignedBounds(Digits(t, WORD_LENGTH));
    TenDigitNumbers();
    CloseNumbersMeetOnce(Value(Digits(s, WORD_LENGTH)), Value(Digits(t, WORD_LENGTH)));
  }

  lemma TenDigitNumbers()
    ensures Pow79(WORD_LENGTH) == 9468276082626847201
  {
    assert Pow79(5) == 3077056399;
  }

  /** Any two words collide exactly when the digit sequences of their first ten characters, zero-padded,
      agree after borrowing. */
  lemma CollideExactly(s: seq<int>, t: seq<int>)
    requires Word(s) && Word(t)
    ensures Hash(s) == Hash(t) <==> Settled(Digits(s, WORD_LENGTH), 0) == Settled(Digits(t, WORD_LENGTH), 0)
  {
    hide Value, Digits, Settled, Hash;
    ValuesMeetOnlyWhenEqual(s, t);
    WordDigitsAreSigned(s);
    WordDigitsAreSigned(t);
    SettledMeaning(Digits(s, WORD_LENGTH), 0);
    SettledMeaning(Digits(t, WORD_LENGTH), 0);
    if Hash(s) == Hash(t) {
      ProperTailIsUnique(Settled(Digits(s, WORD_LENGTH), 0), Settled(Digits(t, WORD_LENGTH), 0));
    }
  }

  /** Without bytes above 0x7f there is nothing to borrow: two 7-bit words collide exactly when their
      first ten class codes agree after zero padding. */
  lemma SevenBitWordsCollideExactly(s: seq<int>, t: seq<int>)
    requires SevenBit(s) && SevenBit(t)
    ensures Hash(s) == Hash(t) <==> Digits(s, WORD_LENGTH) == Digits(t, WORD_LENGTH)
  {
    hide Value, Digits, Settled, Hash;
    TenDigitsFit(s);
    TenDigitsFit(t);
    CollideExactly(s, t);
    ProperIsSettled(Digits(s, WORD_LENGTH));
    ProperIsSettled(Digits(t, WORD_LENGTH));
  }

  /** Beyond 7 bits the digits do not determine the hash: 0x22 0x80 and 0x21 0x7f collide although
      their digits differ, because a byte above 0x7f counts as -1. */
  lemma HighBitCollision()
    ensures var s, t := [0x22, 0x80], [0x21, 0x7f];
            Word(s) && Word(t) && Hash(s) == Hash(t) && Digits(s, WORD_LENGTH) != Digits(t, WORD_LENGTH)
  {
    var s, t := [0x22, 0x80], [0x21, 0x7f];
    assert Digits(s, 2) == [] + [4] + [-1] && Digits(t, 2) == [] + [3] + [78];
    ValueOfLast([], 4);
    ValueOfLast([] + [4], -1);
    ValueOfLast([], 3);
    ValueOfLast([] + [3], 78);
    EqualTails(s, t, 2, WORD_LENGTH);
    assert Digits(s, WORD_LENGTH)[0] == 4 && Digits(t, WORD_LENGTH)[0] == 3;
  }

  lemma {:induction false} EqualTails(s: seq<int>, t: seq<int>, m: nat, n: nat)
    requires |s| <= m <= n && |t| <= m && Value(Digits(s, m)) == Value(Digits(t, m))
    ensures Value(Digits(s, n)) == Value(Digits(t, n))
    decreases n
  {
    if m < n {
      EqualTails(s, t, m, n - 1);
      assert Digits(s, n)[..n - 1] == Digits(s, n - 1) && Digits(t, n)[..n - 1] == Digits(t, n - 1);
    }
  }

  /** space ! ( ) - . / 0-9 A-Z _ a-z; the underscore shares its class only with characters left out. */
  predicate Graded(c: int) {
    0x20 <= c < 0x22 || 0x28 <= c < 0x2a || 0x2d <= c < 0x3a || 0x41 <= c < 0x5b
    || c == 0x5f || 0x61 <= c < 0x7b
  }

  ghost predicate GradedWord(s: seq<int>) {
    forall i | 0 <= i < |s| :: Graded(s[i])
  }

  lemma GradedInOrder(c: int, d: int)
    requires Graded(c) && Graded(d)
    ensures ClassOf(c) < ClassOf(d) <==> c < d
    ensures ClassOf(c) > 0
  {
  }

  function First(s: seq<int>): seq<int> {
    if |s| <= WORD_LENGTH then s else s[..WORD_LENGTH]
  }

  /** Dictionary order: s runs out first, or has the smaller character at the first difference. */
  ghost predicate LexLess(s: seq<int>, t: seq<int>) {
    exists k: nat :: LexLessAt(s, t, k)
  }

  ghost predicate LexLessAt(s: seq<int>, t: seq<int>, k: nat) {
    k <= |s| && k < |t| && s[..k] == t[..k] && (k == |s| || s[k] < t[k])
  }

  lemma DigitsOfFirst(s: seq<int>, i: nat)
    requires i < WORD_LENGTH && GradedWord(s)
    ensures Digits(s, WORD_LENGTH)[i] == if i < |First(s)| then ClassOf(First(s)[i]) else 0
  {
  }

  /** A dictionary-order step shows up as a digit step at the same place. */
  lemma LexGivesDigits(s: seq<int>, t: seq<int>, k: nat)
    requires GradedWord(s) && GradedWord(t) && LexLessAt(First(s), First(t), k)
    ensures LessAt(Digits(s, WORD_LENGTH), Digits(t, WORD_LENGTH), k)
  {
    hide Digits, ClassOf;
    var a, b := Digits(s, WORD_LENGTH), Digits(t, WORD_LENGTH);
    forall i | 0 <= i < k
      ensures a[i] == b[i]
    {
      DigitsOfFirst(s, i);
      DigitsOfFirst(t, i);
      assert First(s)[..k][i] == First(t)[..k][i];
    }
    DigitsOfFirst(s, k);
    DigitsOfFirst(t, k);
    GradedInOrder(First(t)[k], First(t)[k]);
    if k < |First(s)| {
      GradedInOrder(First(s)[k], First(t)[k]);
    }
  }

  /** On graded words the numeric order of the hashes is the dictionary order of the first ten
      characters; in particular words of at most ten characters never collide. */
  lemma HashOrdersWords(s: seq<int>, t: seq<int>)
    requires GradedWord(s) && GradedWord(t)
    ensures Hash(s) < Hash(t) <==> LexLess(First(s), First(t))
    ensures Hash(s) == Hash(t) <==> First(s) == First(t)
    ensures |s| <= WORD_LENGTH && |t| <= WORD_LENGTH ==> (Hash(s) == Hash(t) <==> s == t)
  {
    hide Hash, Value, Digits;
    TenDigitsFit(s);
    TenDigitsFit(t);
    var a, b := First(s), First(t);
    if a == b {
      SamePrefixSameHash(s, t);
      NotBelowItself(a);
    } else {
      var k := PrefixDifference(a, b);
      if LexLessAt(a, b, k) {
        LexGivesDigits(s, t, k);
        ValueIsMonotone(Digits(s, WORD_LENGTH), Digits(t, WORD_LENGTH), k);
      } else {
        LexGivesDigits(t, s, k);
        ValueIsMonotone(Digits(t, WORD_LENGTH), Digits(s, WORD_LENGTH), k);
        LexIsAsymmetric(b, a, k);
      }
    }
  }

  lemma SamePrefixSameHash(s: seq<int>, t: seq<int>)
    requires GradedWord(s) && GradedWord(t) && First(s) == First(t)
    ensures Hash(s) == Hash(t)
  {
    hide Value;
    forall i: nat | i < WORD_LENGTH
      ensures Digits(s, WORD_LENGTH)[i] == Digits(t, WORD_LENGTH)[i]
    {
      DigitsOfFirst(s, i);
      DigitsOfFirst(t, i);
    }
    assert Digits(s, WORD_LENGTH) == Digits(t, WORD_LENGTH);
  }

  lemma NotBelowItself(a: seq<int>)
    ensures !LexLess(a, a)
  {
  }

  lemma PrefixDifference(a: seq<int>, b: seq<int>) returns (k: nat)
    requires a != b
    ensures LexLessAt(a, b, k) || LexLessAt(b, a, k)
  {
    k := 0;
    while k < |a| && k < |b| && a[k] == b[k]
      invariant k <= |a| && k <= |b| && a[..k] == b[..k]
    {
      k := k + 1;
    }
    assert a == a[..|a|] && b == b[..|b|];
  }

  lemma LexIsAsymmetric(a: seq<int>, b: seq<int>, k: nat)
    requires LexLessAt(a, b, k)
    ensures !LexLess(b, a)
  {
    forall m: nat
      ensures !LexLessAt(b, a, m)
    {
      if m < k && m < |b| {
        assert a[m] == a[..k][m] == b[..k][m] == b[m];
      } else if k < m && m <= |b| && m < |a| {
        assert a[..m][k] == a[k] && b[..m][k] == b[k];
      }
    }
  }
}
