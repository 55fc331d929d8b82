/** xxh64 of fs/hash.c, which is XXH64 of the xxHash fast digest algorithm. On machine words the digest is
    a function of the input and the seed; in integers it is that of Xxh64Steps. A change of the seed, or of
    one unit of the input behind the last whole stripe, changes the digest; a change of one word inside the
    stripes changes one of the four accumulators and is then a matter of their convergence. */
module XxHash64 {
  import Bytes
  import opened Inputs
  import opened Integers
  import opened Modulo64
  import Numbers32
  import opened Numbers64
  import Steps = Xxh64Steps
  import opened Words64

  const PRIME1: bv64 := 11400714785074694791
  const PRIME2: bv64 := 14029467366897019727
  const PRIME3: bv64 := 1609587929392839161
  const PRIME4: bv64 := 9650029242287828579
  const PRIME5: bv64 := 2870177450012600261

  // ----- the steps -----

  function Round(acc: bv64, input: bv64): bv64 {
    TimesPrime1(RotateLeft31(Plus(acc, TimesPrime2(input))))
  }

  function MergeRound(acc: bv64, val: bv64): bv64 {
    Plus(TimesPrime1(Xor(acc, Round(0, val))), PRIME4)
  }

  function Converge(v: seq<bv64>): bv64
    requires |v| == 4
  {
    var h := Plus(Plus(Plus(RotateLeft1(v[0]), RotateLeft7(v[1])), RotateLeft12(v[2])), RotateLeft18(v[3]));
    MergeRound(MergeRound(MergeRound(MergeRound(h, v[0]), v[1]), v[2]), v[3])
  }

  function MixLong(h: bv64, input: bv64): bv64 {
    Plus(TimesPrime1(RotateLeft27(Xor(h, Round(0, input)))), PRIME4)
  }

  function MixWord(h: bv64, input: bv32): bv64 {
    Plus(TimesPrime2(RotateLeft23(Xor(h, TimesPrime1(input as bv64)))), PRIME3)
  }

  function MixByte(h: bv64, input: bv8): bv64 {
    TimesPrime1(RotateLeft11(Xor(h, TimesPrime5(input as bv64))))
  }

  function Avalanche(h: bv64): bv64 {
    XorShift32(TimesPrime3(XorShift29(TimesPrime2(XorShift33(h)))))
  }

  function UndoAvalanche(h: bv64): bv64 {
    UnXorShift33(OverPrime2(UnXorShift29(OverPrime3(UnXorShift32(h)))))
  }

  function PackWords(low: bv32, high: bv32): bv64 {
    (low as bv64) | ((high as bv64) << 32)
  }

  /** The little-endian 64-bit word at byte p. */
  function Long(s: seq<bv8>, p: nat): bv64
    requires p + 8 <= |s|
  {
    PackWords(Word(s, p), Word(s, p + 4))
  }

  // ----- the digest -----

  function InitialLanes(seed: bv64): (v: seq<bv64>)
    ensures |v| == 4
  {
    [Plus(Plus(seed, PRIME1), PRIME2), Plus(seed, PRIME2), Plus(seed, 0), Minus(seed, PRIME1)]
  }

  function Stripe(u: seq<bv64>, s: seq<bv8>, p: nat): (v: seq<bv64>)
    requires |u| == 4 && p + 32 <= |s|
    ensures |v| == 4
  {
    [Round(u[0], Long(s, p)), Round(u[1], Long(s, p + 8)), Round(u[2], Long(s, p + 16)), Round(u[3], Long(s, p + 24))]
  }

  /** The four accumulators after n stripes of 32 bytes. */
  function Lanes(s: seq<bv8>, seed: bv64, n: nat): (v: seq<bv64>)
    requires 32 * n <= |s|
    ensures |v| == 4
  {
    if n == 0 then InitialLanes(seed) else Stripe(Lanes(s, seed, n - 1), s, 32 * (n - 1))
  }

  /** The length as a 64-bit word, from its binary digits. */
  function LengthWord(length: nat): bv64 {
    if length == 0 then 0
    else Plus(Plus(LengthWord(length / 2), LengthWord(length / 2)), if length % 2 == 0 then 0 else 1)
  }

  function Start(s: seq<bv8>, seed: bv64): bv64 {
    Plus(if |s| >= 32 then Converge(Lanes(s, seed, |s| / 32)) else Plus(seed, PRIME5), LengthWord(|s|))
  }

  function AfterLongs(s: seq<bv8>, h: bv64, base: nat, n: nat): bv64
    requires base + 8 * n <= |s|
  {
    if n == 0 then h else MixLong(AfterLongs(s, h, base, n - 1), Long(s, base + 8 * (n - 1)))
  }

  function AfterWord(s: seq<bv8>, h: bv64, p: nat): bv64
    requires p <= |s|
  {
    if p + 4 <= |s| then MixWord(h, Word(s, p)) else h
  }

  function AfterBytes(s: seq<bv8>, h: bv64, base: nat, n: nat): bv64
    requires base + n <= |s|
  {
    if n == 0 then h else MixByte(AfterBytes(s, h, base, n - 1), s[base + n - 1])
  }

  /** Where the stripes, the 8-byte words and the 4-byte word end. */
  function StripesEnd(length: nat): (e: nat)
    ensures e <= length < e + 32
  {
    32 * (length / 32)
  }

  function LongsEnd(length: nat): (e: nat)
    ensures StripesEnd(length) <= e <= length < e + 8
  {
    StripesEnd(length) + 8 * TailLongs(length)
  }

  function TailLongs(length: nat): nat {
    (length - StripesEnd(length)) / 8
  }

  function WordEnd(length: nat): (e: nat)
    ensures LongsEnd(length) <= e <= length < e + 4
  {
    if LongsEnd(length) + 4 <= length then LongsEnd(length) + 4 else LongsEnd(length)
  }

  /** The digest before the final mix. */
  function PreMix(s: seq<bv8>, seed: bv64): bv64 {
    var a := AfterLongs(s, Start(s, seed), StripesEnd(|s|), TailLongs(|s|));
    var b := AfterWord(s, a, LongsEnd(|s|));
    AfterBytes(s, b, WordEnd(|s|), |s| - WordEnd(|s|))
  }

  function Digest(s: seq<bv8>, seed: bv64): bv64 {
    Avalanche(PreMix(s, seed))
  }

  // ----- the digest in integers -----

  lemma RoundValue(acc: bv64, input: bv64)
    ensures Value(Round(acc, input)) == Steps.Round(Value(acc), Value(input))
  {
    hide Value, Plus, TimesPrime1, TimesPrime2, RotateLeft31, Add, Multiply, Rotate;
    TimesPrime2Value(input);
    PlusValue(acc, TimesPrime2(input));
    Rotate31Value(Plus(acc, TimesPrime2(input)));
    TimesPrime1Value(RotateLeft31(Plus(acc, TimesPrime2(input))));
  }

  lemma MergeRoundValue(acc: bv64, val: bv64)
    ensures Value(MergeRound(acc, val)) == Steps.MergeRound(Value(acc), Value(val))
  {
    hide Value, Plus, Xor, TimesPrime1, Round, Add, Multiply, ExclusiveOr, Steps.Round;
    BitValues();
    PrimeValues();
    RoundValue(0, val);
    XorValue(acc, Round(0, val));
    TimesPrime1Value(Xor(acc, Round(0, val)));
    PlusValue(TimesPrime1(Xor(acc, Round(0, val))), PRIME4);
  }

  lemma MixLongValue(h: bv64, input: bv64)
    ensures Value(MixLong(h, input))
            == Add(Multiply(Rotate(ExclusiveOr(Value(h), Steps.Round(0, Value(input))), 27, 64), Steps.PRIME1),
                   Steps.PRIME4)
  {
    hide Value, Plus, Xor, TimesPrime1, RotateLeft27, Round, Add, Multiply, Rotate, ExclusiveOr, Steps.Round;
    BitValues();
    PrimeValues();
    RoundValue(0, input);
    XorValue(h, Round(0, input));
    Rotate27Value(Xor(h, Round(0, input)));
    TimesPrime1Value(RotateLeft27(Xor(h, Round(0, input))));
    PlusValue(TimesPrime1(RotateLeft27(Xor(h, Round(0, input)))), PRIME4);
  }

  lemma MixWordValue(h: bv64, input: bv32)
    ensures Value(MixWord(h, input))
            == Add(Multiply(Rotate(ExclusiveOr(Value(h), Multiply(Numbers32.Value(input), Steps.PRIME1)), 23, 64),
                            Steps.PRIME2),
                   Steps.PRIME3)
  {
    hide Value, Numbers32.Value, Plus, Xor, TimesPrime1, TimesPrime2, RotateLeft23;
    hide Add, Multiply, Rotate, ExclusiveOr;
    PrimeValues();
    WordValue(input);
    var k := TimesPrime1(input as bv64);
    TimesPrime1Value(input as bv64);
    XorValue(h, k);
    Rotate23Value(Xor(h, k));
    TimesPrime2Value(RotateLeft23(Xor(h, k)));
    PlusValue(TimesPrime2(RotateLeft23(Xor(h, k))), PRIME3);
  }

  lemma MixByteValue(h: bv64, input: bv8)
    ensures Value(MixByte(h, input))
            == Multiply(Rotate(ExclusiveOr(Value(h), Multiply(ByteNumber(input), Steps.PRIME5)), 11, 64), Steps.PRIME1)
  {
    hide Value, ByteNumber, Xor, TimesPrime1, TimesPrime5, RotateLeft11, Multiply, Rotate, ExclusiveOr;
    ByteValue(input);
    var k := TimesPrime5(input as bv64);
    TimesPrime5Value(input as bv64);
    XorValue(h, k);
    Rotate11Value(Xor(h, k));
    TimesPrime1Value(RotateLeft11(Xor(h, k)));
  }

  lemma AvalancheValue(h: bv64)
    ensures Value(Avalanche(h)) == Steps.Avalanche(Value(h))
  {
    hide Value, XorShift33, XorShift29, XorShift32, TimesPrime2, TimesPrime3, Multiply, ExclusiveOr, WithoutLow;
    XorShift33Value(h);
    var a := TimesPrime2(XorShift33(h));
    TimesPrime2Value(XorShift33(h));
    XorShift29Value(a);
    var b := TimesPrime3(XorShift29(a));
    TimesPrime3Value(XorShift29(a));
    XorShift32Value(b);
  }

  lemma PackWordsValue(low: bv32, high: bv32)
    ensures Value(PackWords(low, high)) == Numbers32.Value(low) + 0x1_0000_0000 * Numbers32.Value(high)
  {
    hide Value, Numbers32.Value;
    JoinedWords(low, high);
  }

  lemma LongValue(s: seq<bv8>, p: nat)
    requires p + 8 <= |s|
    ensures Value(Long(s, p)) == Number(s[p..p + 8])
  {
    hide Value, Numbers32.Value, PackWords, Word, ByteNumber, Number;
    Numbers32.WordValue(s, p);
    Numbers32.WordValue(s, p + 4);
    PackWordsValue(Word(s, p), Word(s, p + 4));
    NumberOfFour(s, p, p + 4);
    NumberOfFour(s, p, p + 8);
    NumberOfNone(s, p + 4);
  }

  /** The numbers of the four accumulators. */
  function Values(v: seq<bv64>): Steps.Accumulators
    requires |v| == 4
  {
    Steps.Accumulators(Value(v[0]), Value(v[1]), Value(v[2]), Value(v[3]))
  }

  lemma InitialValues(seed: bv64)
    ensures Values(InitialLanes(seed)) == Steps.Initial(Value(seed))
  {
    hide Value, Plus, Minus, Add, Subtract;
    PrimeValues();
    BitValues();
    PlusValue(seed, PRIME1);
    PlusValue(Plus(seed, PRIME1), PRIME2);
    PlusValue(seed, PRIME2);
    PlusNone(seed);
    MinusValue(seed, PRIME1);
  }

  lemma PlusNone(x: bv64)
    ensures Plus(x, 0) == x
  {
  }

  lemma StripeValues(u: seq<bv64>, s: seq<bv8>, p: nat)
    requires |u| == 4 && p + 32 <= |s|
    ensures Values(Stripe(u, s, p)) == Steps.Accumulators(
      Steps.Round(Value(u[0]), Number(s[p..p + 8])), Steps.Round(Value(u[1]), Number(s[p + 8..p + 16])),
      Steps.Round(Value(u[2]), Number(s[p + 16..p + 24])), Steps.Round(Value(u[3]), Number(s[p + 24..p + 32])))
  {
    hide Value, Round, Long, Number, Steps.Round;
    LongValue(s, p);
    LongValue(s, p + 8);
    LongValue(s, p + 16);
    LongValue(s, p + 24);
    RoundValue(u[0], Long(s, p));
    RoundValue(u[1], Long(s, p + 8));
    RoundValue(u[2], Long(s, p + 16));
    RoundValue(u[3], Long(s, p + 24));
  }

  lemma {:induction false} LanesValues(s: seq<bv8>, seed: bv64, n: nat)
    requires 32 * n <= |s|
    ensures Steps.Stripes(s, 32 * n, Values(Lanes(s, seed, n))) == Values(Lanes(s, seed, |s| / 32))
    decreases |s| - 32 * n
  {
    hide Value, Stripe, InitialLanes, Number, Steps.Round;
    if 32 * n + 32 <= |s| {
      StripeValues(Lanes(s, seed, n), s, 32 * n);
      LanesValues(s, seed, n + 1);
    }
  }

  lemma ConvergeValue(v: seq<bv64>)
    requires |v| == 4
    ensures Value(Converge(v)) == Steps.Converge(Values(v))
  {
    hide Value, Plus, RotateLeft1, RotateLeft7, RotateLeft12, RotateLeft18, MergeRound;
    hide Add, Rotate, Steps.MergeRound;
    Rotate1Value(v[0]);
    Rotate7Value(v[1]);
    Rotate12Value(v[2]);
    Rotate18Value(v[3]);
    var a, b, c, d := RotateLeft1(v[0]), RotateLeft7(v[1]), RotateLeft12(v[2]), RotateLeft18(v[3]);
    PlusValue(a, b);
    PlusValue(Plus(a, b), c);
    PlusValue(Plus(Plus(a, b), c), d);
    var h := Plus(Plus(Plus(a, b), c), d);
    MergeRoundValue(h, v[0]);
    MergeRoundValue(MergeRound(h, v[0]), v[1]);
    MergeRoundValue(MergeRound(MergeRound(h, v[0]), v[1]), v[2]);
    MergeRoundValue(MergeRound(MergeRound(MergeRound(h, v[0]), v[1]), v[2]), v[3]);
  }

  lemma {:induction false} LongsValue(s: seq<bv8>, h: bv64, base: nat, i: nat, n: nat)
    requires i <= n && base + 8 * n <= |s| < base + 8 * n + 8
    ensures Steps.Longs(s, base + 8 * i, Value(AfterLongs(s, h, base, i)))
            == Steps.Word(s, base + 8 * n, Value(AfterLongs(s, h, base, n)))
    decreases n - i
  {
    hide Value, MixLong, Long, Number, Add, Multiply, Rotate, ExclusiveOr, Steps.Round, Steps.Word;
    if i < n {
      LongValue(s, base + 8 * i);
      MixLongValue(AfterLongs(s, h, base, i), Long(s, base + 8 * i));
      LongsValue(s, h, base, i + 1, n);
    }
  }

  lemma AfterWordValue(s: seq<bv8>, h: bv64, p: nat)
    requires p <= |s|
    ensures Steps.Word(s, p, Value(h))
            == Steps.Bytes(s, if p + 4 <= |s| then p + 4 else p, Value(AfterWord(s, h, p)))
  {
    hide Value, Numbers32.Value, MixWord, Word, Number, Add, Multiply, Rotate, ExclusiveOr, Steps.Bytes;
    if p + 4 <= |s| {
      Numbers32.WordValue(s, p);
      MixWordValue(h, Word(s, p));
    }
  }

  lemma {:induction false} BytesValue(s: seq<bv8>, h: bv64, base: nat, i: nat)
    requires base + i <= |s|
    ensures Steps.Bytes(s, base + i, Value(AfterBytes(s, h, base, i))) == Value(AfterBytes(s, h, base, |s| - base))
    decreases |s| - base - i
  {
    hide Value, ByteNumber, MixByte, Multiply, Rotate, ExclusiveOr;
    if base + i < |s| {
      MixByteValue(AfterBytes(s, h, base, i), s[base + i]);
      BytesValue(s, h, base, i + 1);
    }
  }

  lemma {:induction false} LengthValue(length: nat)
    ensures Value(LengthWord(length)) == length % Bytes.TWO_TO_THE_64
  {
    hide Value, Plus, Add;
    BitValues();
    if length > 0 {
      DoubleAndDigit(length);
      var half := LengthWord(length / 2);
      LengthValue(length / 2);
      PlusValue(half, half);
      PlusValue(Plus(half, half), if length % 2 == 0 then 0 else 1);
    }
  }

  lemma DoubleAndDigit(n: nat)
    ensures var half := n / 2 % Bytes.TWO_TO_THE_64;
            Add(Add(half, half), n % 2) == n % Bytes.TWO_TO_THE_64
  {
    var k, half := n / 2 / Bytes.TWO_TO_THE_64, n / 2 % Bytes.TWO_TO_THE_64;
    DropMultiple(2 * k, 2 * half + n % 2);
    WrapTwice(2 * half, n % 2);
  }

  lemma DropMultiple(q: nat, r: nat)
    ensures (Bytes.TWO_TO_THE_64 * q + r) % Bytes.TWO_TO_THE_64 == r % Bytes.TWO_TO_THE_64
  {
  }

  lemma WrapTwice(u: nat, v: nat)
    ensures (u % Bytes.TWO_TO_THE_64 + v) % Bytes.TWO_TO_THE_64 == (u + v) % Bytes.TWO_TO_THE_64
  {
  }

  lemma AddLength(u: nat, length: nat)
    ensures Add(u, length % Bytes.TWO_TO_THE_64) == Add(u, length)
  {
  }

  lemma StartValue(s: seq<bv8>, seed: bv64)
    ensures Value(Start(s, seed))
            == Add(if |s| >= 32 then Steps.Converge(Steps.Stripes(s, 0, Steps.Initial(Value(seed))))
                   else Add(Value(seed), Steps.PRIME5), |s|)
  {
    hide Value, Plus, Converge, InitialLanes, Stripe, LengthWord, Add, Steps.Converge, Steps.Stripes, Steps.Initial;
    PrimeValues();
    LengthValue(|s|);
    if |s| >= 32 {
      InitialValues(seed);
      LanesValues(s, seed, 0);
      ConvergeValue(Lanes(s, seed, |s| / 32));
      PlusValue(Converge(Lanes(s, seed, |s| / 32)), LengthWord(|s|));
      AddLength(Value(Converge(Lanes(s, seed, |s| / 32))), |s|);
    } else {
      PlusValue(seed, PRIME5);
      PlusValue(Plus(seed, PRIME5), LengthWord(|s|));
      AddLength(Value(Plus(seed, PRIME5)), |s|);
    }
  }

  /** The digest is what the steps of XXH64 give in integers, for every input and seed. */
  lemma DigestFollowsSteps(s: seq<bv8>, seed: bv64)
    ensures Value(Digest(s, seed)) == Steps.Digest(s, Value(seed))
  {
    hide Value, Start, AfterLongs, AfterWord, AfterBytes, Avalanche, Add;
    hide Steps.Converge, Steps.Stripes, Steps.Initial, Steps.Longs, Steps.Word, Steps.Bytes, Steps.Avalanche;
    var h, e, n := Start(s, seed), StripesEnd(|s|), TailLongs(|s|);
    var a := AfterLongs(s, h, e, n);
    var b := AfterWord(s, a, LongsEnd(|s|));
    StartValue(s, seed);
    NoLongs(s, h, e);
    LongsValue(s, h, e, 0, n);
    AfterWordValue(s, a, LongsEnd(|s|));
    NoBytes(s, b, WordEnd(|s|));
    BytesValue(s, b, WordEnd(|s|), 0);
    AvalancheValue(PreMix(s, seed));
  }

  lemma NoLongs(s: seq<bv8>, h: bv64, base: nat)
    requires base <= |s|
    ensures AfterLongs(s, h, base, 0) == h
  {
  }

  lemma NoBytes(s: seq<bv8>, h: bv64, base: nat)
    requires base <= |s|
    ensures AfterBytes(s, h, base, 0) == h
  {
  }

  // ----- the code -----

  method FirstLanes(seed: bv64) returns (v1: bv64, v2: bv64, v3: bv64, v4: bv64)
    ensures [v1, v2, v3, v4] == InitialLanes(seed)
  {
    v1 := Plus(Plus(seed, PRIME1), PRIME2);
    v2 := Plus(seed, PRIME2);
    v3 := Plus(seed, 0);
    v4 := Minus(seed, PRIME1);
  }

  method ConsumeStripe(v1: bv64, v2: bv64, v3: bv64, v4: bv64, input: seq<bv8>, from: nat)
    returns (w1: bv64, w2: bv64, w3: bv64, w4: bv64, p: nat)
    requires from + 32 <= |input|
    ensures [w1, w2, w3, w4] == Stripe([v1, v2, v3, v4], input, from) && p == from + 32
  {
    hide Round, Long;
    p := from;
    w1 := Round(v1, Long(input, p));
    p := p + 8;
    w2 := Round(v2, Long(input, p));
    p := p + 8;
    w3 := Round(v3, Long(input, p));
    p := p + 8;
    w4 := Round(v4, Long(input, p));
    p := p + 8;
  }

  /** The do-while loop over whole stripes, and the convergence; p is where the loop stops. */
  method ConsumeStripes(input: seq<bv8>, seed: bv64) returns (h64: bv64, p: nat)
    requires |input| >= 32
    ensures p == StripesEnd(|input|) && h64 == Converge(Lanes(input, seed, |input| / 32))
  {
    hide Stripe, InitialLanes, MergeRound, Plus;
    hide RotateLeft1, RotateLeft7, RotateLeft12, RotateLeft18;
    p := 0;
    var limit := |input| - 32;
    var v1, v2, v3, v4 := FirstLanes(seed);
    ghost var n := 0;
    while true
      invariant p == 32 * n <= limit
      invariant Lanes(input, seed, n) == [v1, v2, v3, v4]
      decreases limit - p
    {
      v1, v2, v3, v4, p := ConsumeStripe(v1, v2, v3, v4, input, p);
      n := n + 1;
      if !(p <= limit) {
        break;
      }
    }
    assert n == |input| / 32;
    h64 := Plus(Plus(Plus(RotateLeft1(v1), RotateLeft7(v2)), RotateLeft12(v3)), RotateLeft18(v4));
    h64 := MergeRound(h64, v1);
    h64 := MergeRound(h64, v2);
    h64 := MergeRound(h64, v3);
    h64 := MergeRound(h64, v4);
  }

  /** The loop over whole 8-byte words behind the stripes; p is where it stops. */
  method ConsumeLongs(input: seq<bv8>, h: bv64, from: nat) returns (h64: bv64, p: nat)
    requires from <= |input|
    ensures var n := (|input| - from) / 8; p == from + 8 * n && h64 == AfterLongs(input, h, from, n)
  {
    hide MixLong, Long;
    h64, p := h, from;
    ghost var i := 0;
    while p + 8 <= |input|
      invariant p == from + 8 * i <= |input|
      invariant h64 == AfterLongs(input, h, from, i)
    {
      h64 := MixLong(h64, Long(input, p));
      p := p + 8;
      i := i + 1;
    }
  }

  /** The loop over the bytes that remain. */
  method ConsumeBytes(input: seq<bv8>, h: bv64, from: nat) returns (h64: bv64)
    requires from <= |input|
    ensures h64 == AfterBytes(input, h, from, |input| - from)
  {
    hide MixByte;
    h64 := h;
    var p := from;
    while p < |input|
      invariant from <= p <= |input|
      invariant h64 == AfterBytes(input, h, from, p - from)
    {
      h64 := MixByte(h64, input[p]);
      p := p + 1;
    }
  }

  method Xxh64(input: seq<bv8>, seed: bv64) returns (h64: bv64)
    ensures h64 == Digest(input, seed)
    ensures Value(h64) == Steps.Digest(input, Value(seed))
  {
    hide Value, Plus, LengthWord, Word, Converge, Lanes, AfterLongs, AfterBytes, MixWord, Avalanche, Steps.Digest;
    DigestFollowsSteps(input, seed);
    ghost var e, n := StripesEnd(|input|), TailLongs(|input|);
    var p: nat := 0;
    var len := |input|;
    if len >= 32 {
      h64, p := ConsumeStripes(input, seed);
    } else {
      h64 := Plus(seed, PRIME5);
    }
    h64 := Plus(h64, LengthWord(len));
    assert h64 == Start(input, seed) && p == e;
    hide Start;
    h64, p := ConsumeLongs(input, h64, p);
    assert h64 == AfterLongs(input, Start(input, seed), e, n) && p == LongsEnd(len);
    if p + 4 <= len {
      h64 := MixWord(h64, Word(input, p));
      p := p + 4;
    }
    assert h64 == AfterWord(input, AfterLongs(input, Start(input, seed), e, n), LongsEnd(len));
    assert p == WordEnd(len);
    hide AfterWord;
    h64 := ConsumeBytes(input, h64, p);
    h64 := Avalanche(h64);
  }

  // ----- every step behind the stripes keeps a difference -----

  lemma RoundKeepsDifference(a: bv64, b: bv64, x: bv64, y: bv64)
    ensures Round(a, x) == Round(b, x) <==> a == b
    ensures Round(a, x) == Round(a, y) <==> x == y
  {
    hide Plus, TimesPrime1, OverPrime1, TimesPrime2, OverPrime2, RotateLeft31, RotateRight31;
    var u, w := TimesPrime2(x), TimesPrime2(y);
    OverPrime2Undoes(x);
    OverPrime2Undoes(y);
    SumsDiffer(a, b, u);
    SumsDiffer(u, w, a);
    RotateRight31Undoes(Plus(a, u));
    RotateRight31Undoes(Plus(b, u));
    RotateRight31Undoes(Plus(a, w));
    OverPrime1Undoes(RotateLeft31(Plus(a, u)));
    OverPrime1Undoes(RotateLeft31(Plus(b, u)));
    OverPrime1Undoes(RotateLeft31(Plus(a, w)));
  }

  lemma MixLongKeepsDifference(a: bv64, b: bv64, x: bv64, y: bv64)
    ensures MixLong(a, x) == MixLong(b, x) <==> a == b
    ensures MixLong(a, x) == MixLong(a, y) <==> x == y
  {
    hide Plus, Xor, Round, TimesPrime1, OverPrime1, RotateLeft27, RotateRight27;
    var u, w := Round(0, x), Round(0, y);
    RoundKeepsDifference(0, 0, x, y);
    XorsDiffer(a, b, u);
    XorsDiffer(u, w, a);
    RotateRight27Undoes(Xor(a, u));
    RotateRight27Undoes(Xor(b, u));
    RotateRight27Undoes(Xor(a, w));
    var p, q, r := RotateLeft27(Xor(a, u)), RotateLeft27(Xor(b, u)), RotateLeft27(Xor(a, w));
    OverPrime1Undoes(p);
    OverPrime1Undoes(q);
    OverPrime1Undoes(r);
    SumsDiffer(TimesPrime1(p), TimesPrime1(q), PRIME4);
    SumsDiffer(TimesPrime1(p), TimesPrime1(r), PRIME4);
  }

  lemma WordWideningIsInjective(x: bv32, y: bv32)
    ensures x as bv64 == y as bv64 <==> x == y
  {
  }

  lemma ByteWideningIsInjective(x: bv8, y: bv8)
    ensures x as bv64 == y as bv64 <==> x == y
  {
  }

  lemma MixWordKeepsDifference(a: bv64, b: bv64, x: bv32, y: bv32)
    ensures MixWord(a, x) == MixWord(b, x) <==> a == b
    ensures MixWord(a, x) == MixWord(a, y) <==> x == y
  {
    hide Plus, Xor, TimesPrime1, OverPrime1, TimesPrime2, OverPrime2, RotateLeft23, RotateRight23;
    WordWideningIsInjective(x, y);
    var u, w := TimesPrime1(x as bv64), TimesPrime1(y as bv64);
    OverPrime1Undoes(x as bv64);
    OverPrime1Undoes(y as bv64);
    XorsDiffer(a, b, u);
    XorsDiffer(u, w, a);
    RotateRight23Undoes(Xor(a, u));
    RotateRight23Undoes(Xor(b, u));
    RotateRight23Undoes(Xor(a, w));
    var p, q, r := RotateLeft23(Xor(a, u)), RotateLeft23(Xor(b, u)), RotateLeft23(Xor(a, w));
    OverPrime2Undoes(p);
    OverPrime2Undoes(q);
    OverPrime2Undoes(r);
    SumsDiffer(TimesPrime2(p), TimesPrime2(q), PRIME3);
    SumsDiffer(TimesPrime2(p), TimesPrime2(r), PRIME3);
  }

  lemma MixByteKeepsDifference(a: bv64, b: bv64, x: bv8, y: bv8)
    ensures MixByte(a, x) == MixByte(b, x) <==> a == b
    ensures MixByte(a, x) == MixByte(a, y) <==> x == y
  {
    hide Xor, TimesPrime1, OverPrime1, TimesPrime5, OverPrime5, RotateLeft11, RotateRight11;
    ByteWideningIsInjective(x, y);
    var u, w := TimesPrime5(x as bv64), TimesPrime5(y as bv64);
    OverPrime5Undoes(x as bv64);
    OverPrime5Undoes(y as bv64);
    XorsDiffer(a, b, u);
    XorsDiffer(u, w, a);
    RotateRight11Undoes(Xor(a, u));
    RotateRight11Undoes(Xor(b, u));
    RotateRight11Undoes(Xor(a, w));
    OverPrime1Undoes(RotateLeft11(Xor(a, u)));
    OverPrime1Undoes(RotateLeft11(Xor(b, u)));
    OverPrime1Undoes(RotateLeft11(Xor(a, w)));
  }

  /** The final mix is a bijection. */
  lemma AvalancheIsBijective(h: bv64)
    ensures UndoAvalanche(Avalanche(h)) == h
    ensures Avalanche(UndoAvalanche(h)) == h
  {
    hide XorShift33, UnXorShift33, XorShift29, UnXorShift29, XorShift32, UnXorShift32;
    hide TimesPrime2, OverPrime2, TimesPrime3, OverPrime3;
    var a := XorShift33(h);
    var b := TimesPrime2(a);
    var c := XorShift29(b);
    var d := TimesPrime3(c);
    UnXorShift33Undoes(h);
    OverPrime2Undoes(a);
    UnXorShift29Undoes(b);
    OverPrime3Undoes(c);
    UnXorShift32Undoes(d);
    var e := UnXorShift32(h);
    var f := OverPrime3(e);
    var g := UnXorShift29(f);
    var k := OverPrime2(g);
    XorShift33Undoes(k);
    TimesPrime2Undoes(g);
    XorShift29Undoes(f);
    TimesPrime3Undoes(e);
    XorShift32Undoes(h);
  }

  lemma PackWordsIsInjective(l: bv32, h: bv32, l': bv32, h': bv32)
    ensures PackWords(l, h) == PackWords(l', h') <==> l == l' && h == h'
  {
    assert PackWords(l, h) == (l as bv64) | ((h as bv64) << 32);
    assert PackWords(l', h') == (l' as bv64) | ((h' as bv64) << 32);
  }

  // ----- a changed unit changes the digest -----

  lemma LongsEqual(s: seq<bv8>, t: seq<bv8>, p: nat)
    requires p + 8 <= |s| == |t|
    ensures Long(s, p) == Long(t, p) <==> Agree(s, t, p, p + 8)
  {
    hide Word, PackWords;
    WordsEqual(s, t, p);
    WordsEqual(s, t, p + 4);
    PackWordsIsInjective(Word(s, p), Word(s, p + 4), Word(t, p), Word(t, p + 4));
  }

  lemma {:induction false} SameLanes(s: seq<bv8>, t: seq<bv8>, seed: bv64, n: nat)
    requires 32 * n <= |s| && Agree(s, t, 0, 32 * n)
    ensures Lanes(s, seed, n) == Lanes(t, seed, n)
  {
    hide Stripe, InitialLanes;
    if n > 0 {
      SameLanes(s, t, seed, n - 1);
      EqualStripe(Lanes(s, seed, n - 1), s, t, 32 * (n - 1));
    }
  }

  lemma EqualStripe(u: seq<bv64>, s: seq<bv8>, t: seq<bv8>, p: nat)
    requires |u| == 4 && p + 32 <= |s| && Agree(s, t, p, p + 32)
    ensures Stripe(u, s, p) == Stripe(u, t, p)
  {
    hide Long, Round;
    LongsEqual(s, t, p);
    LongsEqual(s, t, p + 8);
    LongsEqual(s, t, p + 16);
    LongsEqual(s, t, p + 24);
  }

  lemma SameStart(s: seq<bv8>, t: seq<bv8>, seed: bv64)
    requires Agree(s, t, 0, StripesEnd(|s|))
    ensures Start(s, seed) == Start(t, seed)
  {
    hide Lanes, Converge, Plus, LengthWord;
    SameLanes(s, t, seed, |s| / 32);
  }

  lemma {:induction false} TailLongsKeepDifference(s: seq<bv8>, t: seq<bv8>, g: bv64, h: bv64, base: nat, n: nat)
    requires base + 8 * n <= |s| && Agree(s, t, base, base + 8 * n)
    ensures AfterLongs(s, g, base, n) == AfterLongs(t, h, base, n) <==> g == h
    decreases n
  {
    hide Long, MixLong;
    if n > 0 {
      var p := base + 8 * (n - 1);
      TailLongsKeepDifference(s, t, g, h, base, n - 1);
      LongsEqual(s, t, p);
      MixLongKeepsDifference(AfterLongs(s, g, base, n - 1), AfterLongs(t, h, base, n - 1), Long(s, p), Long(t, p));
    }
  }

  lemma {:induction false} ChangedTailLong(s: seq<bv8>, t: seq<bv8>, h: bv64, base: nat, i: nat, n: nat)
    requires i < n && base + 8 * n <= |s| && DifferOnlyIn(s, t, base + 8 * i, base + 8 * i + 8)
    ensures AfterLongs(s, h, base, n) != AfterLongs(t, h, base, n)
    decreases n
  {
    hide Long, MixLong;
    var p := base + 8 * (n - 1);
    var a, b := AfterLongs(s, h, base, n - 1), AfterLongs(t, h, base, n - 1);
    if i < n - 1 {
      ChangedTailLong(s, t, h, base, i, n - 1);
    } else {
      TailLongsKeepDifference(s, t, h, h, base, n - 1);
      Disagree(s, t, p, p + 8);
    }
    LongsEqual(s, t, p);
    MixLongKeepsDifference(a, b, Long(s, p), Long(t, p));
  }

  lemma TailWordKeepsDifference(s: seq<bv8>, t: seq<bv8>, g: bv64, h: bv64, p: nat)
    requires p <= |s| == |t| && (p + 4 <= |s| ==> Agree(s, t, p, p + 4))
    ensures AfterWord(s, g, p) == AfterWord(t, h, p) <==> g == h
  {
    hide Word, MixWord;
    if p + 4 <= |s| {
      WordsEqual(s, t, p);
      MixWordKeepsDifference(g, h, Word(s, p), Word(t, p));
    }
  }

  lemma ChangedTailWord(s: seq<bv8>, t: seq<bv8>, h: bv64, p: nat)
    requires p + 4 <= |s| && DifferOnlyIn(s, t, p, p + 4)
    ensures AfterWord(s, h, p) != AfterWord(t, h, p)
  {
    hide Word, MixWord;
    Disagree(s, t, p, p + 4);
    WordsEqual(s, t, p);
    MixWordKeepsDifference(h, h, Word(s, p), Word(t, p));
  }

  lemma {:induction false} TailBytesKeepDifference(s: seq<bv8>, t: seq<bv8>, g: bv64, h: bv64, base: nat, n: nat)
    requires base + n <= |s| && Agree(s, t, base, base + n)
    ensures AfterBytes(s, g, base, n) == AfterBytes(t, h, base, n) <==> g == h
    decreases n
  {
    hide MixByte;
    if n > 0 {
      TailBytesKeepDifference(s, t, g, h, base, n - 1);
      MixByteKeepsDifference(AfterBytes(s, g, base, n - 1), AfterBytes(t, h, base, n - 1),
                             s[base + n - 1], t[base + n - 1]);
    }
  }

  lemma {:induction false} ChangedTailByte(s: seq<bv8>, t: seq<bv8>, h: bv64, base: nat, i: nat, n: nat)
    requires i < n && base + n <= |s| && DifferOnlyIn(s, t, base + i, base + i + 1)
    ensures AfterBytes(s, h, base, n) != AfterBytes(t, h, base, n)
    decreases n
  {
    hide MixByte;
    var a, b := AfterBytes(s, h, base, n - 1), AfterBytes(t, h, base, n - 1);
    if i < n - 1 {
      ChangedTailByte(s, t, h, base, i, n - 1);
    } else {
      TailBytesKeepDifference(s, t, h, h, base, n - 1);
    }
    MixByteKeepsDifference(a, b, s[base + n - 1], t[base + n - 1]);
  }

  /** The final mix loses nothing. */
  lemma DigestDecides(s: seq<bv8>, t: seq<bv8>, seed: bv64)
    ensures Digest(s, seed) == Digest(t, seed) <==> PreMix(s, seed) == PreMix(t, seed)
  {
    hide Avalanche, UndoAvalanche, PreMix;
    AvalancheIsBijective(PreMix(s, seed));
    AvalancheIsBijective(PreMix(t, seed));
  }

  /** [lo, hi) is one of the units behind the last whole stripe: an 8-byte word, the 4-byte word, or a
      single byte. */
  ghost predicate TailUnit(length: nat, lo: nat, hi: nat) {
    || (hi == lo + 8 && StripesEnd(length) <= lo && hi <= LongsEnd(length) && (lo - StripesEnd(length)) % 8 == 0)
    || (hi == lo + 4 && lo == LongsEnd(length) && hi == WordEnd(length))
    || (hi == lo + 1 && WordEnd(length) <= lo && hi <= length)
  }

  /** Two inputs of the same length that differ only inside one unit behind the last whole stripe hash
      differently. */
  lemma ChangedTailUnitChangesDigest(s: seq<bv8>, t: seq<bv8>, seed: bv64, lo: nat, hi: nat)
    requires TailUnit(|s|, lo, hi) && DifferOnlyIn(s, t, lo, hi)
    ensures Digest(s, seed) != Digest(t, seed)
  {
    hide Start, AfterLongs, AfterWord, AfterBytes, Digest;
    var e, n, l, w := StripesEnd(|s|), TailLongs(|s|), LongsEnd(|s|), WordEnd(|s|);
    SameStart(s, t, seed);
    var h := Start(s, seed);
    if hi == lo + 8 {
      ChangedTailLong(s, t, h, e, (lo - e) / 8, n);
    } else {
      TailLongsKeepDifference(s, t, h, h, e, n);
    }
    var a, a' := AfterLongs(s, h, e, n), AfterLongs(t, h, e, n);
    if hi == lo + 4 {
      ChangedTailWord(s, t, a, l);
    } else {
      TailWordKeepsDifference(s, t, a, a', l);
    }
    var b, b' := AfterWord(s, a, l), AfterWord(t, a', l);
    if hi == lo + 1 {
      ChangedTailByte(s, t, b, w, lo - w, |s| - w);
    } else {
      TailBytesKeepDifference(s, t, b, b', w, |s| - w);
    }
    DigestDecides(s, t, seed);
  }

  lemma EightBytesAreAUnit()
    ensures TailUnit(8, 0, 8)
  {
    assert StripesEnd(8) == 0;
    assert TailLongs(8) == 1;
  }

  /** xxh64 is injective on 8-byte inputs. */
  lemma InjectiveOnEightBytes(s: seq<bv8>, t: seq<bv8>, seed: bv64)
    requires |s| == 8 == |t|
    ensures Digest(s, seed) == Digest(t, seed) <==> s == t
  {
    hide Digest;
    EightBytesAreAUnit();
    hide TailUnit;
    if s != t {
      ChangedTailUnitChangesDigest(s, t, seed, 0, 8);
    }
  }

  // ----- a changed word inside the stripes -----

  /** Exactly accumulator j differs. */
  ghost predicate DifferInLane(u: seq<bv64>, v: seq<bv64>, j: nat) {
    |u| == 4 == |v| && j < 4 && u[j] != v[j] && forall i | 0 <= i < 4 && i != j :: u[i] == v[i]
  }

  lemma StripeAt(u: seq<bv64>, s: seq<bv8>, p: nat, j: nat)
    requires |u| == 4 && p + 32 <= |s| && j < 4
    ensures Stripe(u, s, p)[j] == Round(u[j], Long(s, p + 8 * j))
  {
    hide Long, Round;
  }

  /** A stripe with a changed word j changes exactly accumulator j. */
  lemma ChangedStripe(u: seq<bv64>, s: seq<bv8>, t: seq<bv8>, p: nat, j: nat)
    requires |u| == 4 && p + 32 <= |s| && j < 4 && DifferOnlyIn(s, t, p + 8 * j, p + 8 * j + 8)
    ensures DifferInLane(Stripe(u, s, p), Stripe(u, t, p), j)
  {
    hide Long, Round, Stripe;
    Disagree(s, t, p + 8 * j, p + 8 * j + 8);
    RoundKeepsDifference(u[j], u[j], Long(s, p + 8 * j), Long(t, p + 8 * j));
    forall i: nat | i < 4
      ensures Stripe(u, s, p)[i] == Stripe(u, t, p)[i] <==> i != j
    {
      StripeAt(u, s, p, i);
      StripeAt(u, t, p, i);
      LongsEqual(s, t, p + 8 * i);
    }
  }

  /** Later stripes with the same words keep a difference in one accumulator. */
  lemma {:induction false} LaneDifferenceStays(s: seq<bv8>, t: seq<bv8>, seed: bv64, k: nat, n: nat, j: nat)
    requires k <= n && 32 * n <= |s| && Agree(s, t, 32 * k, 32 * n)
    requires DifferInLane(Lanes(s, seed, k), Lanes(t, seed, k), j)
    ensures DifferInLane(Lanes(s, seed, n), Lanes(t, seed, n), j)
    decreases n
  {
    hide Long, Round, Stripe, InitialLanes;
    if k < n {
      LaneDifferenceStays(s, t, seed, k, n - 1, j);
      var u, v := Lanes(s, seed, n - 1), Lanes(t, seed, n - 1);
      var p := 32 * (n - 1);
      forall i: nat | i < 4
        ensures Stripe(u, s, p)[i] == Stripe(v, t, p)[i] <==> u[i] == v[i]
      {
        StripeAt(u, s, p, i);
        StripeAt(v, t, p, i);
        LongsEqual(s, t, p + 8 * i);
        RoundKeepsDifference(u[i], v[i], Long(s, p + 8 * i), Long(t, p + 8 * i));
      }
    }
  }

  /** Two inputs of the same length that differ only inside one aligned 8-byte word of the stripes reach
      the convergence with exactly one accumulator different. */
  lemma ChangedWordChangesOneLane(s: seq<bv8>, t: seq<bv8>, seed: bv64, w: nat)
    requires 8 * w + 8 <= StripesEnd(|s|) && DifferOnlyIn(s, t, 8 * w, 8 * w + 8)
    ensures DifferInLane(Lanes(s, seed, |s| / 32), Lanes(t, seed, |s| / 32), w % 4)
  {
    hide Stripe, InitialLanes;
    var k, j, n := w / 4, w % 4, |s| / 32;
    assert 32 * k + 8 * j == 8 * w && k < n;
    SameLanes(s, t, seed, k);
    ChangedStripe(Lanes(s, seed, k), s, t, 32 * k, j);
    LaneDifferenceStays(s, t, seed, k + 1, n, j);
  }

  /** The tail keeps every difference. */
  lemma TailDecides(s: seq<bv8>, t: seq<bv8>, seed: bv64)
    requires |s| == |t| && Agree(s, t, StripesEnd(|s|), |s|)
    ensures PreMix(s, seed) == PreMix(t, seed) <==> Start(s, seed) == Start(t, seed)
  {
    hide Start, AfterLongs, AfterWord, AfterBytes;
    var e, n, l, w := StripesEnd(|s|), TailLongs(|s|), LongsEnd(|s|), WordEnd(|s|);
    var h, h' := Start(s, seed), Start(t, seed);
    TailLongsKeepDifference(s, t, h, h', e, n);
    var a, a' := AfterLongs(s, h, e, n), AfterLongs(t, h', e, n);
    TailWordKeepsDifference(s, t, a, a', l);
    TailBytesKeepDifference(s, t, AfterWord(s, a, l), AfterWord(t, a', l), w, |s| - w);
  }

  /** Behind the stripes nothing is lost: inputs of the same length that agree there collide exactly when
      their accumulators converge to the same value. */
  lemma ConvergenceDecides(s: seq<bv8>, t: seq<bv8>, seed: bv64)
    requires |s| == |t| >= 32 && Agree(s, t, StripesEnd(|s|), |s|)
    ensures Digest(s, seed) == Digest(t, seed)
            <==> Converge(Lanes(s, seed, |s| / 32)) == Converge(Lanes(t, seed, |s| / 32))
  {
    hide Lanes, Converge, Plus, LengthWord, PreMix, Digest;
    DigestDecides(s, t, seed);
    TailDecides(s, t, seed);
    SumsDiffer(Converge(Lanes(s, seed, |s| / 32)), Converge(Lanes(t, seed, |s| / 32)), LengthWord(|s|));
  }

  // ----- the seed -----

  lemma SeedDecidesStart(a: bv64, b: bv64, j: nat)
    requires j < 4
    ensures InitialLanes(a)[j] == InitialLanes(b)[j] <==> a == b
  {
    hide Plus, Minus;
    SumsDiffer(a, b, PRIME1);
    SumsDiffer(Plus(a, PRIME1), Plus(b, PRIME1), PRIME2);
    SumsDiffer(a, b, PRIME2);
    SumsDiffer(a, b, 0);
    MinusesDiffer(a, b, PRIME1);
  }

  /** With different seeds all four accumulators differ after any number of stripes. */
  lemma {:induction false} SeedDecidesLanes(s: seq<bv8>, a: bv64, b: bv64, n: nat, j: nat)
    requires 32 * n <= |s| && j < 4
    ensures Lanes(s, a, n)[j] == Lanes(s, b, n)[j] <==> a == b
    decreases n
  {
    hide Long, Round, Stripe, InitialLanes;
    if n == 0 {
      SeedDecidesStart(a, b, j);
    } else {
      var u, v, p := Lanes(s, a, n - 1), Lanes(s, b, n - 1), 32 * (n - 1);
      SeedDecidesLanes(s, a, b, n - 1, j);
      StripeAt(u, s, p, j);
      StripeAt(v, s, p, j);
      RoundKeepsDifference(u[j], v[j], Long(s, p + 8 * j), Long(s, p + 8 * j));
    }
  }

  lemma TailKeepsDifference(s: seq<bv8>, a: bv64, b: bv64)
    ensures PreMix(s, a) == PreMix(s, b) <==> Start(s, a) == Start(s, b)
  {
    hide Start, AfterLongs, AfterWord, AfterBytes;
    var e, n := StripesEnd(|s|), TailLongs(|s|);
    var g, h := AfterLongs(s, Start(s, a), e, n), AfterLongs(s, Start(s, b), e, n);
    TailLongsKeepDifference(s, s, Start(s, a), Start(s, b), e, n);
    TailWordKeepsDifference(s, s, g, h, LongsEnd(|s|));
    var w := WordEnd(|s|);
    TailBytesKeepDifference(s, s, AfterWord(s, g, LongsEnd(|s|)), AfterWord(s, h, LongsEnd(|s|)), w, |s| - w);
  }

  /** On fewer than 32 bytes different seeds give different digests. */
  lemma SeedDecidesShort(s: seq<bv8>, a: bv64, b: bv64)
    requires |s| < 32
    ensures Digest(s, a) == Digest(s, b) <==> a == b
  {
    hide Plus, LengthWord, AfterLongs, AfterWord, AfterBytes, Avalanche, UndoAvalanche;
    SumsDiffer(a, b, PRIME5);
    SumsDiffer(Plus(a, PRIME5), Plus(b, PRIME5), LengthWord(|s|));
    TailKeepsDifference(s, a, b);
    AvalancheIsBijective(PreMix(s, a));
    AvalancheIsBijective(PreMix(s, b));
  }
}
