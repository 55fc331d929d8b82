/** xxh32 of fs/hash.c (XXH32 of the xxHash fast digest algorithm) and its resistance to changes of a
    single unit of the input. */
module XxHash32 {
  import Bytes
  import opened Inputs
  import opened Integers
  import opened Modulo32
  import opened Numbers32
  import Steps = Xxh32Steps
  import opened Words32

  const PRIME1: bv32 := 2654435761
  const PRIME2: bv32 := 2246822519
  const PRIME5: bv32 := 374761393

  // ----- the steps -----

  function Round(acc: bv32, input: bv32): bv32 {
    TimesPrime1(RotateLeft13(Plus(acc, TimesPrime2(input))))
  }

  function Converge(v: seq<bv32>): bv32
    requires |v| == 4
  {
    Plus(Plus(Plus(RotateLeft1(v[0]), RotateLeft7(v[1])), RotateLeft12(v[2])), RotateLeft18(v[3]))
  }

  function MixWord(h: bv32, input: bv32): bv32 {
    TimesPrime4(RotateLeft17(Plus(h, TimesPrime3(input))))
  }

  function MixByte(h: bv32, input: bv8): bv32 {
    TimesPrime1(RotateLeft11(Plus(h, TimesPrime5(input as bv32))))
  }

  function Avalanche(h: bv32): bv32 {
    XorShift16(TimesPrime3(XorShift13(TimesPrime2(XorShift15(h)))))
  }

  function UndoAvalanche(h: bv32): bv32 {
    UnXorShift15(OverPrime2(UnXorShift13(OverPrime3(UnXorShift16(h)))))
  }

  // ----- the digest -----

  function InitialLanes(seed: bv32): (v: seq<bv32>)
    ensures |v| == 4
  {
    [Plus(Plus(seed, PRIME1), PRIME2), Plus(seed, PRIME2), Plus(seed, 0), Minus(seed, PRIME1)]
  }

  function Stripe(u: seq<bv32>, s: seq<bv8>, p: nat): (v: seq<bv32>)
    requires |u| == 4 && p + 16 <= |s|
    ensures |v| == 4
  {
    [Round(u[0], Word(s, p)), Round(u[1], Word(s, p + 4)), Round(u[2], Word(s, p + 8)), Round(u[3], Word(s, p + 12))]
  }

  /** The four accumulators after n stripes of 16 bytes. */
  function Lanes(s: seq<bv8>, seed: bv32, n: nat): (v: seq<bv32>)
    requires 16 * n <= |s|
    ensures |v| == 4
  {
    if n == 0 then InitialLanes(seed) else Stripe(Lanes(s, seed, n - 1), s, 16 * (n - 1))
  }

  /** The length truncated to 32 bits, from its binary digits. */
  function LowLength(length: nat): bv32 {
    if length == 0 then 0
    else Plus(Plus(LowLength(length / 2), LowLength(length / 2)), if length % 2 == 0 then 0 else 1)
  }

  function Start(s: seq<bv8>, seed: bv32): bv32 {
    Plus(if |s| >= 16 then Converge(Lanes(s, seed, |s| / 16)) else Plus(seed, PRIME5), LowLength(|s|))
  }

  function AfterWords(s: seq<bv8>, h: bv32, base: nat, n: nat): bv32
    requires base + 4 * n <= |s|
  {
    if n == 0 then h else MixWord(AfterWords(s, h, base, n - 1), Word(s, base + 4 * (n - 1)))
  }

  function AfterBytes(s: seq<bv8>, h: bv32, base: nat, n: nat): bv32
    requires base + n <= |s|
  {
    if n == 0 then h else MixByte(AfterBytes(s, h, base, n - 1), s[base + n - 1])
  }

  /** Where the stripes end, how many words follow, and how many bytes after these. */
  function StripesEnd(length: nat): nat {
    16 * (length / 16)
  }

  function TailWords(length: nat): nat {
    (length - StripesEnd(length)) / 4
  }

  function TailBytes(length: nat): nat {
    length - StripesEnd(length) - 4 * TailWords(length)
  }

  lemma TailIsUnaligned(length: nat)
    ensures StripesEnd(length) + 4 * TailWords(length) == 4 * (length / 4)
  {
    var q, r := length / 16, length % 16;
    assert length == 4 * (4 * q) + r;
    QuotientsAdd(4 * q, r);
  }

  lemma QuotientsAdd(q: nat, r: nat)
    ensures (4 * q + r) / 4 == q + r / 4
  {
  }

  /** The digest before the final mix. */
  function PreMix(s: seq<bv8>, seed: bv32): bv32 {
    var e := StripesEnd(|s|);
    var w := TailWords(|s|);
    AfterBytes(s, AfterWords(s, Start(s, seed), e, w), e + 4 * w, TailBytes(|s|))
  }

  function Digest(s: seq<bv8>, seed: bv32): bv32 {
    Avalanche(PreMix(s, seed))
  }

  // ----- the digest in integers -----

  lemma RoundValue(acc: bv32, input: bv32)
    ensures Value(Round(acc, input)) == Steps.Round(Value(acc), Value(input))
  {
    hide Value, Plus, TimesPrime1, TimesPrime2, RotateLeft13, Add, Multiply, Rotate;
    TimesPrime2Value(input);
    PlusValue(acc, TimesPrime2(input));
    Rotate13Value(Plus(acc, TimesPrime2(input)));
    TimesPrime1Value(RotateLeft13(Plus(acc, TimesPrime2(input))));
  }

  lemma MixWordValue(h: bv32, input: bv32)
    ensures Value(MixWord(h, input))
            == Multiply(Rotate(Add(Value(h), Multiply(Value(input), Steps.PRIME3)), 17, 32), Steps.PRIME4)
  {
    hide Value, Plus, TimesPrime3, TimesPrime4, RotateLeft17, Add, Multiply, Rotate;
    TimesPrime3Value(input);
    var sum := Plus(h, TimesPrime3(input));
    PlusValue(h, TimesPrime3(input));
    Rotate17Value(sum);
    TimesPrime4Value(RotateLeft17(sum));
  }

  lemma MixByteValue(h: bv32, input: bv8)
    ensures Value(MixByte(h, input))
            == Multiply(Rotate(Add(Value(h), Multiply(ByteNumber(input), Steps.PRIME5)), 11, 32), Steps.PRIME1)
  {
    hide Value, ByteNumber, Plus, TimesPrime1, TimesPrime5, RotateLeft11, Add, Multiply, Rotate;
    ByteValue(input);
    var k := TimesPrime5(input as bv32);
    TimesPrime5Value(input as bv32);
    PlusValue(h, k);
    Rotate11Value(Plus(h, k));
    TimesPrime1Value(RotateLeft11(Plus(h, k)));
  }

  lemma AvalancheValue(h: bv32)
    ensures Value(Avalanche(h)) == Steps.Avalanche(Value(h))
  {
    hide Value, XorShift15, XorShift13, XorShift16, TimesPrime2, TimesPrime3, Multiply, ExclusiveOr, WithoutLow;
    XorShift15Value(h);
    var a := TimesPrime2(XorShift15(h));
    TimesPrime2Value(XorShift15(h));
    XorShift13Value(a);
    var b := TimesPrime3(XorShift13(a));
    TimesPrime3Value(XorShift13(a));
    XorShift16Value(b);
  }

  /** The numbers of the four accumulators. */
  function Values(v: seq<bv32>): Steps.Accumulators
    requires |v| == 4
  {
    Steps.Accumulators(Value(v[0]), Value(v[1]), Value(v[2]), Value(v[3]))
  }

  lemma InitialValues(seed: bv32)
    ensures Values(InitialLanes(seed)) == Steps.Initial(Value(seed))
  {
    hide Value, Plus, Minus, Add, Subtract;
    PrimeValues();
    BitValues();
    PlusValue(seed, PRIME1);
    PlusValue(Plus(seed, PRIME1), PRIME2);
    PlusValue(seed, PRIME2);
    PlusNone(seed);
    MinusValue(seed, PRIME1);
  }

  lemma PlusNone(x: bv32)
    ensures Plus(x, 0) == x
  {
  }

  lemma StripeValues(u: seq<bv32>, s: seq<bv8>, p: nat)
    requires |u| == 4 && p + 16 <= |s|
    ensures Values(Stripe(u, s, p)) == Steps.Accumulators(
      Steps.Round(Value(u[0]), Number(s[p..p + 4])), Steps.Round(Value(u[1]), Number(s[p + 4..p + 8])),
      Steps.Round(Value(u[2]), Number(s[p + 8..p + 12])), Steps.Round(Value(u[3]), Number(s[p + 12..p + 16])))
  {
    hide Value, Round, Word, Number, Steps.Round;
    WordValue(s, p);
    WordValue(s, p + 4);
    WordValue(s, p + 8);
    WordValue(s, p + 12);
    RoundValue(u[0], Word(s, p));
    RoundValue(u[1], Word(s, p + 4));
    RoundValue(u[2], Word(s, p + 8));
    RoundValue(u[3], Word(s, p + 12));
  }

  lemma {:induction false} LanesValues(s: seq<bv8>, seed: bv32, n: nat)
    requires 16 * n <= |s|
    ensures Steps.Stripes(s, 16 * n, Values(Lanes(s, seed, n))) == Values(Lanes(s, seed, |s| / 16))
    decreases |s| - 16 * n
  {
    hide Value, Stripe, InitialLanes, Number, Steps.Round;
    if 16 * n + 16 <= |s| {
      StripeValues(Lanes(s, seed, n), s, 16 * n);
      LanesValues(s, seed, n + 1);
    }
  }

  lemma ConvergeValue(v: seq<bv32>)
    requires |v| == 4
    ensures Value(Converge(v)) == Steps.Converge(Values(v))
  {
    hide Value, Plus, RotateLeft1, RotateLeft7, RotateLeft12, RotateLeft18, Add, Rotate;
    Rotate1Value(v[0]);
    Rotate7Value(v[1]);
    Rotate12Value(v[2]);
    Rotate18Value(v[3]);
    var a, b, c, d := RotateLeft1(v[0]), RotateLeft7(v[1]), RotateLeft12(v[2]), RotateLeft18(v[3]);
    PlusValue(a, b);
    PlusValue(Plus(a, b), c);
    PlusValue(Plus(Plus(a, b), c), d);
  }

  lemma {:induction false} WordsValue(s: seq<bv8>, h: bv32, base: nat, i: nat, n: nat)
    requires i <= n && base + 4 * n <= |s| < base + 4 * n + 4
    ensures Steps.Words(s, base + 4 * i, Value(AfterWords(s, h, base, i)))
            == Steps.Bytes(s, base + 4 * n, Value(AfterWords(s, h, base, n)))
    decreases n - i
  {
    hide Value, MixWord, Word, Number, Add, Multiply, Rotate, Steps.Bytes;
    if i < n {
      WordValue(s, base + 4 * i);
      MixWordValue(AfterWords(s, h, base, i), Word(s, base + 4 * i));
      WordsValue(s, h, base, i + 1, n);
    }
  }

  lemma {:induction false} BytesValue(s: seq<bv8>, h: bv32, base: nat, i: nat)
    requires base + i <= |s|
    ensures Steps.Bytes(s, base + i, Value(AfterBytes(s, h, base, i))) == Value(AfterBytes(s, h, base, |s| - base))
    decreases |s| - base - i
  {
    hide Value, ByteNumber, MixByte, Add, Multiply, Rotate;
    if base + i < |s| {
      MixByteValue(AfterBytes(s, h, base, i), s[base + i]);
      BytesValue(s, h, base, i + 1);
    }
  }

  lemma {:induction false} LengthValue(length: nat)
    ensures Value(LowLength(length)) == length % Bytes.TWO_TO_THE_32
  {
    hide Value, Plus, Add;
    BitValues();
    if length > 0 {
      DoubleAndDigit(length);
      var half := LowLength(length / 2);
      LengthValue(length / 2);
      PlusValue(half, half);
      PlusValue(Plus(half, half), if length % 2 == 0 then 0 else 1);
    }
  }

  lemma DoubleAndDigit(n: nat)
    ensures var half := n / 2 % Bytes.TWO_TO_THE_32;
            Add(Add(half, half), n % 2) == n % Bytes.TWO_TO_THE_32
  {
    var k, half := n / 2 / Bytes.TWO_TO_THE_32, n / 2 % Bytes.TWO_TO_THE_32;
    DropMultiple(2 * k, 2 * half + n % 2);
    WrapTwice(2 * half, n % 2);
  }

  lemma DropMultiple(q: nat, r: nat)
    ensures (Bytes.TWO_TO_THE_32 * q + r) % Bytes.TWO_TO_THE_32 == r % Bytes.TWO_TO_THE_32
  {
  }

  lemma WrapTwice(u: nat, v: nat)
    ensures (u % Bytes.TWO_TO_THE_32 + v) % Bytes.TWO_TO_THE_32 == (u + v) % Bytes.TWO_TO_THE_32
  {
  }

  lemma AddLength(u: nat, length: nat)
    ensures Add(u, length % Bytes.TWO_TO_THE_32) == Add(u, length)
  {
  }

  lemma StartValue(s: seq<bv8>, seed: bv32)
    ensures Value(Start(s, seed))
            == Add(if |s| >= 16 then Steps.Converge(Steps.Stripes(s, 0, Steps.Initial(Value(seed))))
                   else Add(Value(seed), Steps.PRIME5), |s|)
  {
    hide Value, Plus, Converge, InitialLanes, Stripe, LowLength, Add, Steps.Converge, Steps.Stripes, Steps.Initial;
    PrimeValues();
    LengthValue(|s|);
    if |s| >= 16 {
      InitialValues(seed);
      LanesValues(s, seed, 0);
      ConvergeValue(Lanes(s, seed, |s| / 16));
      PlusValue(Converge(Lanes(s, seed, |s| / 16)), LowLength(|s|));
      AddLength(Value(Converge(Lanes(s, seed, |s| / 16))), |s|);
    } else {
      PlusValue(seed, PRIME5);
      PlusValue(Plus(seed, PRIME5), LowLength(|s|));
      AddLength(Value(Plus(seed, PRIME5)), |s|);
    }
  }

  /** The digest is what the steps of XXH32 give in integers, for every input and seed. */
  lemma DigestFollowsSteps(s: seq<bv8>, seed: bv32)
    ensures Value(Digest(s, seed)) == Steps.Digest(s, Value(seed))
  {
    hide Value, Start, AfterWords, AfterBytes, Avalanche, Add;
    hide Steps.Converge, Steps.Stripes, Steps.Initial, Steps.Words, Steps.Bytes, Steps.Avalanche;
    var h, e, n := Start(s, seed), StripesEnd(|s|), TailWords(|s|);
    var a := AfterWords(s, h, e, n);
    StartValue(s, seed);
    NoWords(s, h, e);
    WordsValue(s, h, e, 0, n);
    NoBytes(s, a, e + 4 * n);
    BytesValue(s, a, e + 4 * n, 0);
    AvalancheValue(PreMix(s, seed));
  }

  lemma NoWords(s: seq<bv8>, h: bv32, base: nat)
    requires base <= |s|
    ensures AfterWords(s, h, base, 0) == h
  {
  }

  lemma NoBytes(s: seq<bv8>, h: bv32, base: nat)
    requires base <= |s|
    ensures AfterBytes(s, h, base, 0) == h
  {
  }

  // ----- the code -----

  method FirstLanes(seed: bv32) returns (v1: bv32, v2: bv32, v3: bv32, v4: bv32)
    ensures [v1, v2, v3, v4] == InitialLanes(seed)
  {
    v1 := Plus(Plus(seed, PRIME1), PRIME2);
    v2 := Plus(seed, PRIME2);
    v3 := Plus(seed, 0);
    v4 := Minus(seed, PRIME1);
  }

  method ConsumeStripe(v1: bv32, v2: bv32, v3: bv32, v4: bv32, input: seq<bv8>, from: nat)
    returns (w1: bv32, w2: bv32, w3: bv32, w4: bv32, p: nat)
    requires from + 16 <= |input|
    ensures [w1, w2, w3, w4] == Stripe([v1, v2, v3, v4], input, from) && p == from + 16
  {
    hide Round, Word;
    p := from;
    w1 := Round(v1, Word(input, p));
    p := p + 4;
    w2 := Round(v2, Word(input, p));
    p := p + 4;
    w3 := Round(v3, Word(input, p));
    p := p + 4;
    w4 := Round(v4, Word(input, p));
    p := p + 4;
  }

  /** The do-while loop over whole stripes; p is where it stops. */
  method ConsumeStripes(input: seq<bv8>, seed: bv32) returns (h32: bv32, p: nat)
    requires |input| >= 16
    ensures p == StripesEnd(|input|) && h32 == Converge(Lanes(input, seed, |input| / 16))
  {
    hide Stripe, Converge, InitialLanes;
    p := 0;
    var limit := |input| - 16;
    var v1, v2, v3, v4 := FirstLanes(seed);
    ghost var n := 0;
    while true
      invariant p == 16 * n <= limit
      invariant Lanes(input, seed, n) == [v1, v2, v3, v4]
      decreases limit - p
    {
      v1, v2, v3, v4, p := ConsumeStripe(v1, v2, v3, v4, input, p);
      n := n + 1;
      if !(p <= limit) {
        break;
      }
    }
    assert n == |input| / 16;
    h32 := Converge([v1, v2, v3, v4]);
  }

  /** The loop over whole words behind the stripes; p is where it stops. */
  method ConsumeWords(input: seq<bv8>, h: bv32, from: nat) returns (h32: bv32, p: nat)
    requires from <= |input|
    ensures var n := (|input| - from) / 4; p == from + 4 * n && h32 == AfterWords(input, h, from, n)
  {
    hide MixWord, Word;
    h32, p := h, from;
    ghost var i := 0;
    while p + 4 <= |input|
      invariant p == from + 4 * i <= |input|
      invariant h32 == AfterWords(input, h, from, i)
    {
      h32 := MixWord(h32, Word(input, p));
      p := p + 4;
      i := i + 1;
    }
  }

  /** The loop over the bytes that remain. */
  method ConsumeBytes(input: seq<bv8>, h: bv32, from: nat) returns (h32: bv32)
    requires from <= |input|
    ensures h32 == AfterBytes(input, h, from, |input| - from)
  {
    hide MixByte;
    h32 := h;
    var p := from;
    while p < |input|
      invariant from <= p <= |input|
      invariant h32 == AfterBytes(input, h, from, p - from)
    {
      h32 := MixByte(h32, input[p]);
      p := p + 1;
    }
  }

  method Xxh32(input: seq<bv8>, seed: bv32) returns (h32: bv32)
    ensures h32 == Digest(input, seed)
    ensures Value(h32) == Steps.Digest(input, Value(seed))
  {
    hide Value, Plus, LowLength, Word, Converge, Lanes, AfterWords, AfterBytes, Avalanche, Steps.Digest;
    DigestFollowsSteps(input, seed);
    ghost var e, n := StripesEnd(|input|), TailWords(|input|);
    var p: nat := 0;
    var len := |input|;
    if len >= 16 {
      h32, p := ConsumeStripes(input, seed);
    } else {
      h32 := Plus(seed, PRIME5);
    }
    h32 := Plus(h32, LowLength(len));
    assert h32 == Start(input, seed) && p == e;
    hide Start;
    h32, p := ConsumeWords(input, h32, p);
    assert h32 == AfterWords(input, Start(input, seed), e, n) && p == e + 4 * n;
    h32 := ConsumeBytes(input, h32, p);
    h32 := Avalanche(h32);
  }

  // ----- every step keeps a difference -----

  lemma RoundKeepsDifference(a: bv32, b: bv32, x: bv32, y: bv32)
    ensures Round(a, x) == Round(b, x) <==> a == b
    ensures Round(a, x) == Round(a, y) <==> x == y
  {
    hide Plus, TimesPrime1, OverPrime1, TimesPrime2, OverPrime2, RotateLeft13, RotateRight13;
    OverPrime2Undoes(x);
    OverPrime2Undoes(y);
    SumsDiffer(a, b, TimesPrime2(x));
    SumsDiffer(TimesPrime2(x), TimesPrime2(y), a);
    RotateRight13Undoes(Plus(a, TimesPrime2(x)));
    RotateRight13Undoes(Plus(b, TimesPrime2(x)));
    RotateRight13Undoes(Plus(a, TimesPrime2(y)));
    OverPrime1Undoes(RotateLeft13(Plus(a, TimesPrime2(x))));
    OverPrime1Undoes(RotateLeft13(Plus(b, TimesPrime2(x))));
    OverPrime1Undoes(RotateLeft13(Plus(a, TimesPrime2(y))));
  }

  lemma MixWordKeepsDifference(a: bv32, b: bv32, x: bv32, y: bv32)
    ensures MixWord(a, x) == MixWord(b, x) <==> a == b
    ensures MixWord(a, x) == MixWord(a, y) <==> x == y
  {
    hide Plus, TimesPrime4, OverPrime4, TimesPrime3, OverPrime3, RotateLeft17, RotateRight17;
    OverPrime3Undoes(x);
    OverPrime3Undoes(y);
    SumsDiffer(a, b, TimesPrime3(x));
    SumsDiffer(TimesPrime3(x), TimesPrime3(y), a);
    RotateRight17Undoes(Plus(a, TimesPrime3(x)));
    RotateRight17Undoes(Plus(b, TimesPrime3(x)));
    RotateRight17Undoes(Plus(a, TimesPrime3(y)));
    OverPrime4Undoes(RotateLeft17(Plus(a, TimesPrime3(x))));
    OverPrime4Undoes(RotateLeft17(Plus(b, TimesPrime3(x))));
    OverPrime4Undoes(RotateLeft17(Plus(a, TimesPrime3(y))));
  }

  lemma WideningIsInjective(x: bv8, y: bv8)
    ensures x as bv32 == y as bv32 <==> x == y
  {
  }

  lemma MixByteKeepsDifference(a: bv32, b: bv32, x: bv8, y: bv8)
    ensures MixByte(a, x) == MixByte(b, x) <==> a == b
    ensures MixByte(a, x) == MixByte(a, y) <==> x == y
  {
    hide Plus, TimesPrime1, OverPrime1, TimesPrime5, OverPrime5, RotateLeft11, RotateRight11;
    WideningIsInjective(x, y);
    var u, w := x as bv32, y as bv32;
    OverPrime5Undoes(u);
    OverPrime5Undoes(w);
    SumsDiffer(a, b, TimesPrime5(u));
    SumsDiffer(TimesPrime5(u), TimesPrime5(w), a);
    RotateRight11Undoes(Plus(a, TimesPrime5(u)));
    RotateRight11Undoes(Plus(b, TimesPrime5(u)));
    RotateRight11Undoes(Plus(a, TimesPrime5(w)));
    OverPrime1Undoes(RotateLeft11(Plus(a, TimesPrime5(u))));
    OverPrime1Undoes(RotateLeft11(Plus(b, TimesPrime5(u))));
    OverPrime1Undoes(RotateLeft11(Plus(a, TimesPrime5(w))));
  }

  /** The final mix is a bijection. */
  lemma AvalancheIsBijective(h: bv32)
    ensures UndoAvalanche(Avalanche(h)) == h
    ensures Avalanche(UndoAvalanche(h)) == h
  {
    hide XorShift15, UnXorShift15, XorShift13, UnXorShift13, XorShift16, UnXorShift16;
    hide TimesPrime2, OverPrime2, TimesPrime3, OverPrime3;
    var a := XorShift15(h);
    var b := TimesPrime2(a);
    var c := XorShift13(b);
    var d := TimesPrime3(c);
    UnXorShift15Undoes(h);
    OverPrime2Undoes(a);
    UnXorShift13Undoes(b);
    OverPrime3Undoes(c);
    UnXorShift16Undoes(d);
    var e := UnXorShift16(h);
    var f := OverPrime3(e);
    var g := UnXorShift13(f);
    var k := OverPrime2(g);
    XorShift15Undoes(k);
    TimesPrime2Undoes(g);
    XorShift13Undoes(f);
    TimesPrime3Undoes(e);
    XorShift16Undoes(h);
  }

  // ----- a changed unit changes the digest -----

  /** Exactly accumulator j differs. */
  ghost predicate DifferInLane(u: seq<bv32>, v: seq<bv32>, j: nat) {
    |u| == 4 == |v| && j < 4 && u[j] != v[j] && forall i | 0 <= i < 4 && i != j :: u[i] == v[i]
  }

  lemma {:induction false} SameLanes(s: seq<bv8>, t: seq<bv8>, seed: bv32, n: nat)
    requires 16 * n <= |s| && Agree(s, t, 0, 16 * n)
    ensures Lanes(s, seed, n) == Lanes(t, seed, n)
  {
    hide Word, Stripe, InitialLanes;
    if n > 0 {
      SameLanes(s, t, seed, n - 1);
      EqualStripe(Lanes(s, seed, n - 1), s, t, 16 * (n - 1));
    }
  }

  lemma EqualStripe(u: seq<bv32>, s: seq<bv8>, t: seq<bv8>, p: nat)
    requires |u| == 4 && p + 16 <= |s| && Agree(s, t, p, p + 16)
    ensures Stripe(u, s, p) == Stripe(u, t, p)
  {
    hide Word, Round;
    WordsEqual(s, t, p);
    WordsEqual(s, t, p + 4);
    WordsEqual(s, t, p + 8);
    WordsEqual(s, t, p + 12);
  }

  lemma SameStripe(s: seq<bv8>, t: seq<bv8>, p: nat)
    requires p + 16 <= |s| && Agree(s, t, p, p + 16)
    ensures forall j | 0 <= j < 4 :: Word(s, p + 4 * j) == Word(t, p + 4 * j)
  {
    hide Word;
    WordsEqual(s, t, p);
    WordsEqual(s, t, p + 4);
    WordsEqual(s, t, p + 8);
    WordsEqual(s, t, p + 12);
  }

  lemma StripeAt(u: seq<bv32>, s: seq<bv8>, p: nat, j: nat)
    requires |u| == 4 && p + 16 <= |s| && j < 4
    ensures Stripe(u, s, p)[j] == Round(u[j], Word(s, p + 4 * j))
  {
    hide Word, Round;
  }

  /** A stripe with a changed word j changes exactly accumulator j. */
  lemma ChangedStripe(u: seq<bv32>, s: seq<bv8>, t: seq<bv8>, p: nat, j: nat)
    requires |u| == 4 && p + 16 <= |s| && j < 4 && DifferOnlyIn(s, t, p + 4 * j, p + 4 * j + 4)
    ensures DifferInLane(Stripe(u, s, p), Stripe(u, t, p), j)
  {
    hide Word, Round, Stripe;
    WordsEqual(s, t, p + 4 * j);
    Disagree(s, t, p + 4 * j, p + 4 * j + 4);
    RoundKeepsDifference(u[j], u[j], Word(s, p + 4 * j), Word(t, p + 4 * j));
    forall i: nat | i < 4
      ensures Stripe(u, s, p)[i] == Stripe(u, t, p)[i] <==> i != j
    {
      StripeAt(u, s, p, i);
      StripeAt(u, t, p, i);
      if i != j {
        WordsEqual(s, t, p + 4 * i);
      }
    }
  }

  /** Later stripes with the same words keep a difference in one accumulator. */
  lemma {:induction false} LaneDifferenceStays(s: seq<bv8>, t: seq<bv8>, seed: bv32, k: nat, n: nat, j: nat)
    requires k <= n && 16 * n <= |s| && Agree(s, t, 16 * k, 16 * n)
    requires DifferInLane(Lanes(s, seed, k), Lanes(t, seed, k), j)
    ensures DifferInLane(Lanes(s, seed, n), Lanes(t, seed, n), j)
    decreases n
  {
    hide Word, Round, Stripe, InitialLanes;
    if k < n {
      LaneDifferenceStays(s, t, seed, k, n - 1, j);
      var u, v := Lanes(s, seed, n - 1), Lanes(t, seed, n - 1);
      var p := 16 * (n - 1);
      SameStripe(s, t, p);
      forall i: nat | i < 4
        ensures Stripe(u, s, p)[i] == Stripe(v, t, p)[i] <==> u[i] == v[i]
      {
        StripeAt(u, s, p, i);
        StripeAt(v, t, p, i);
        RoundKeepsDifference(u[i], v[i], Word(s, p + 4 * i), Word(t, p + 4 * i));
      }
    }
  }

  /** The convergence step keeps a difference in one accumulator. */
  lemma ConvergeKeepsDifference(u: seq<bv32>, v: seq<bv32>, j: nat)
    requires DifferInLane(u, v, j)
    ensures Converge(u) != Converge(v)
  {
    hide Plus, RotateLeft1, RotateLeft7, RotateLeft12, RotateLeft18;
    hide RotateRight1, RotateRight7, RotateRight12, RotateRight18;
    RotateRight1Undoes(u[0]);
    RotateRight1Undoes(v[0]);
    RotateRight7Undoes(u[1]);
    RotateRight7Undoes(v[1]);
    RotateRight12Undoes(u[2]);
    RotateRight12Undoes(v[2]);
    RotateRight18Undoes(u[3]);
    RotateRight18Undoes(v[3]);
    var a, b, c, d := RotateLeft1(u[0]), RotateLeft7(u[1]), RotateLeft12(u[2]), RotateLeft18(u[3]);
    var a', b', c', d' := RotateLeft1(v[0]), RotateLeft7(v[1]), RotateLeft12(v[2]), RotateLeft18(v[3]);
    SumsDiffer(a, a', b);
    SumsDiffer(b, b', a);
    SumsDiffer(Plus(a, b), Plus(a', b'), c);
    SumsDiffer(c, c', Plus(a, b));
    SumsDiffer(Plus(Plus(a, b), c), Plus(Plus(a', b'), c'), d);
    SumsDiffer(d, d', Plus(Plus(a, b), c));
  }

  lemma {:induction false} TailWordsKeepDifference(s: seq<bv8>, t: seq<bv8>, g: bv32, h: bv32, base: nat, n: nat)
    requires base + 4 * n <= |s| && Agree(s, t, base, base + 4 * n)
    ensures AfterWords(s, g, base, n) == AfterWords(t, h, base, n) <==> g == h
    decreases n
  {
    hide Word, MixWord;
    if n > 0 {
      TailWordsKeepDifference(s, t, g, h, base, n - 1);
      WordsEqual(s, t, base + 4 * (n - 1));
      MixWordKeepsDifference(AfterWords(s, g, base, n - 1), AfterWords(t, h, base, n - 1),
                             Word(s, base + 4 * (n - 1)), Word(t, base + 4 * (n - 1)));
    }
  }

  lemma {:induction false} ChangedTailWord(s: seq<bv8>, t: seq<bv8>, h: bv32, base: nat, i: nat, n: nat)
    requires i < n && base + 4 * n <= |s| && DifferOnlyIn(s, t, base + 4 * i, base + 4 * i + 4)
    ensures AfterWords(s, h, base, n) != AfterWords(t, h, base, n)
    decreases n
  {
    hide Word, MixWord;
    var p := base + 4 * (n - 1);
    var a, b := AfterWords(s, h, base, n - 1), AfterWords(t, h, base, n - 1);
    if i < n - 1 {
      ChangedTailWord(s, t, h, base, i, n - 1);
    } else {
      TailWordsKeepDifference(s, t, h, h, base, n - 1);
      Disagree(s, t, p, p + 4);
    }
    WordsEqual(s, t, p);
    MixWordKeepsDifference(a, b, Word(s, p), Word(t, p));
  }

  lemma {:induction false} TailBytesKeepDifference(s: seq<bv8>, t: seq<bv8>, g: bv32, h: bv32, base: nat, n: nat)
    requires base + n <= |s| && Agree(s, t, base, base + n)
    ensures AfterBytes(s, g, base, n) == AfterBytes(t, h, base, n) <==> g == h
    decreases n
  {
    hide MixByte;
    if n > 0 {
      TailBytesKeepDifference(s, t, g, h, base, n - 1);
      MixByteKeepsDifference(AfterBytes(s, g, base, n - 1), AfterBytes(t, h, base, n - 1),
                             s[base + n - 1], t[base + n - 1]);
    }
  }

  lemma {:induction false} ChangedTailByte(s: seq<bv8>, t: seq<bv8>, h: bv32, base: nat, i: nat, n: nat)
    requires i < n && base + n <= |s| && DifferOnlyIn(s, t, base + i, base + i + 1)
    ensures AfterBytes(s, h, base, n) != AfterBytes(t, h, base, n)
    decreases n
  {
    hide MixByte;
    var a, b := AfterBytes(s, h, base, n - 1), AfterBytes(t, h, base, n - 1);
    if i < n - 1 {
      ChangedTailByte(s, t, h, base, i, n - 1);
    } else {
      TailBytesKeepDifference(s, t, h, h, base, n - 1);
    }
    MixByteKeepsDifference(a, b, s[base + n - 1], t[base + n - 1]);
  }

  lemma SameStart(s: seq<bv8>, t: seq<bv8>, seed: bv32)
    requires Agree(s, t, 0, StripesEnd(|s|))
    ensures Start(s, seed) == Start(t, seed)
  {
    hide Lanes, Converge, Plus, LowLength;
    SameLanes(s, t, seed, |s| / 16);
  }

  lemma ChangedStart(s: seq<bv8>, t: seq<bv8>, seed: bv32, w: nat)
    requires 4 * w + 4 <= StripesEnd(|s|) && DifferOnlyIn(s, t, 4 * w, 4 * w + 4)
    ensures Start(s, seed) != Start(t, seed)
  {
    hide Stripe, Converge, Plus, LowLength, InitialLanes;
    var k, j, n := w / 4, w % 4, |s| / 16;
    assert 16 * k + 4 * j == 4 * w && k < n;
    SameLanes(s, t, seed, k);
    ChangedStripe(Lanes(s, seed, k), s, t, 16 * k, j);
    LaneDifferenceStays(s, t, seed, k + 1, n, j);
    ConvergeKeepsDifference(Lanes(s, seed, n), Lanes(t, seed, n), j);
    SumsDiffer(Converge(Lanes(s, seed, n)), Converge(Lanes(t, seed, n)), LowLength(|s|));
  }

  lemma PreMixDecides(s: seq<bv8>, t: seq<bv8>, seed: bv32)
    requires PreMix(s, seed) != PreMix(t, seed)
    ensures Digest(s, seed) != Digest(t, seed)
  {
    hide Avalanche, UndoAvalanche, PreMix;
    AvalancheIsBijective(PreMix(s, seed));
    AvalancheIsBijective(PreMix(t, seed));
  }

  /** Two inputs of the same length that differ only inside one aligned 4-byte word hash differently. */
  lemma ChangedWordChangesDigest(s: seq<bv8>, t: seq<bv8>, seed: bv32, w: nat)
    requires w < |s| / 4 && DifferOnlyIn(s, t, 4 * w, 4 * w + 4)
    ensures Digest(s, seed) != Digest(t, seed)
  {
    hide Start, AfterWords, AfterBytes, Digest;
    var e, n := StripesEnd(|s|), TailWords(|s|);
    TailIsUnaligned(|s|);
    var g, h := Start(s, seed), Start(t, seed);
    if 4 * w + 4 <= e {
      ChangedStart(s, t, seed, w);
      TailWordsKeepDifference(s, t, g, h, e, n);
    } else {
      SameStart(s, t, seed);
      var i := w - e / 4;
      ChangedTailWord(s, t, g, e, i, n);
    }
    TailBytesKeepDifference(s, t, AfterWords(s, g, e, n), AfterWords(t, h, e, n), e + 4 * n, TailBytes(|s|));
    PreMixDecides(s, t, seed);
  }

  /** Two inputs of the same length that differ only in one byte behind the last whole word hash
      differently. */
  lemma ChangedByteChangesDigest(s: seq<bv8>, t: seq<bv8>, seed: bv32, k: nat)
    requires 4 * (|s| / 4) <= k < |s| && DifferOnlyIn(s, t, k, k + 1)
    ensures Digest(s, seed) != Digest(t, seed)
  {
    hide Start, AfterWords, AfterBytes, Digest;
    var e, n := StripesEnd(|s|), TailWords(|s|);
    TailIsUnaligned(|s|);
    SameStart(s, t, seed);
    var h := Start(s, seed);
    TailWordsKeepDifference(s, t, h, h, e, n);
    ChangedTailByte(s, t, AfterWords(s, h, e, n), e + 4 * n, k - (e + 4 * n), TailBytes(|s|));
    PreMixDecides(s, t, seed);
  }

  /** A changed byte always changes the digest. */
  lemma OneByteChangesDigest(s: seq<bv8>, t: seq<bv8>, seed: bv32, k: nat)
    requires k < |s| && DifferOnlyIn(s, t, k, k + 1)
    ensures Digest(s, seed) != Digest(t, seed)
  {
    hide Digest;
    if k < 4 * (|s| / 4) {
      ChangedWordChangesDigest(s, t, seed, k / 4);
    } else {
      ChangedByteChangesDigest(s, t, seed, k);
    }
  }

  // ----- the seed -----

  lemma SeedDecidesStart(a: bv32, b: bv32, j: nat)
    requires j < 4
    ensures InitialLanes(a)[j] == InitialLanes(b)[j] <==> a == b
  {
    hide Plus, Minus;
    SumsDiffer(a, b, PRIME1);
    SumsDiffer(Plus(a, PRIME1), Plus(b, PRIME1), PRIME2);
    SumsDiffer(a, b, PRIME2);
    SumsDiffer(a, b, 0);
    MinusesDiffer(a, b, PRIME1);
  }

  /** With different seeds all four accumulators differ after any number of stripes. */
  lemma {:induction false} SeedDecidesLanes(s: seq<bv8>, a: bv32, b: bv32, n: nat, j: nat)
    requires 16 * n <= |s| && j < 4
    ensures Lanes(s, a, n)[j] == Lanes(s, b, n)[j] <==> a == b
    decreases n
  {
    hide Word, Round, Stripe, InitialLanes;
    if n == 0 {
      SeedDecidesStart(a, b, j);
    } else {
      var u, v, p := Lanes(s, a, n - 1), Lanes(s, b, n - 1), 16 * (n - 1);
      SeedDecidesLanes(s, a, b, n - 1, j);
      StripeAt(u, s, p, j);
      StripeAt(v, s, p, j);
      RoundKeepsDifference(u[j], v[j], Word(s, p + 4 * j), Word(s, p + 4 * j));
    }
  }

  /** On fewer than 16 bytes different seeds give different digests. */
  lemma SeedDecidesShort(s: seq<bv8>, a: bv32, b: bv32)
    requires |s| < 16
    ensures Digest(s, a) == Digest(s, b) <==> a == b
  {
    hide Plus, LowLength, AfterWords, AfterBytes, Avalanche, UndoAvalanche;
    var n := TailWords(|s|);
    var g, h := Start(s, a), Start(s, b);
    SumsDiffer(a, b, PRIME5);
    SumsDiffer(Plus(a, PRIME5), Plus(b, PRIME5), LowLength(|s|));
    TailWordsKeepDifference(s, s, g, h, 0, n);
    TailBytesKeepDifference(s, s, AfterWords(s, g, 0, n), AfterWords(s, h, 0, n), 4 * n, TailBytes(|s|));
    AvalancheIsBijective(PreMix(s, a));
    AvalancheIsBijective(PreMix(s, b));
  }
}
