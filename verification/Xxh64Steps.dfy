/** The steps of XXH64, as the specification of the xxHash fast digest algorithm gives them, on integers.
    A lane is the number of 8 bytes, a state a position in the input and a number below 2^64. */
module Xxh64Steps {
  import opened Integers
  import opened Modulo64

  const PRIME1: nat := 11400714785074694791
  const PRIME2: nat := 14029467366897019727
  const PRIME3: nat := 1609587929392839161
  const PRIME4: nat := 9650029242287828579
  const PRIME5: nat := 2870177450012600261

  datatype Accumulators = Accumulators(a1: nat, a2: nat, a3: nat, a4: nat)

  function Round(a: nat, lane: nat): nat {
    Multiply(Rotate(Add(a, Multiply(lane, PRIME2)), 31, 64), PRIME1)
  }

  function MergeRound(h: nat, a: nat): nat {
    Add(Multiply(ExclusiveOr(h, Round(0, a)), PRIME1), PRIME4)
  }

  function Initial(seed: nat): Accumulators {
    Accumulators(Add(Add(seed, PRIME1), PRIME2), Add(seed, PRIME2), seed, Subtract(seed, PRIME1))
  }

  /** The accumulators after all whole stripes of 32 bytes from p on. */
  function Stripes(s: seq<bv8>, p: nat, a: Accumulators): Accumulators
    decreases |s| - p
  {
    if p + 32 <= |s| then
      Stripes(s, p + 32, Accumulators(
        Round(a.a1, Number(s[p..p + 8])), Round(a.a2, Number(s[p + 8..p + 16])),
        Round(a.a3, Number(s[p + 16..p + 24])), Round(a.a4, Number(s[p + 24..p + 32]))))
    else a
  }

  function Converge(a: Accumulators): nat {
    var h := Add(Add(Add(Rotate(a.a1, 1, 64), Rotate(a.a2, 7, 64)), Rotate(a.a3, 12, 64)), Rotate(a.a4, 18, 64));
    MergeRound(MergeRound(MergeRound(MergeRound(h, a.a1), a.a2), a.a3), a.a4)
  }

  /** The input from p on: 8-byte lanes, then a 4-byte lane if there is one, then single bytes. */
  function Longs(s: seq<bv8>, p: nat, h: nat): nat
    decreases |s| - p
  {
    if p + 8 <= |s| then
      var mixed := ExclusiveOr(h, Round(0, Number(s[p..p + 8])));
      Longs(s, p + 8, Add(Multiply(Rotate(mixed, 27, 64), PRIME1), PRIME4))
    else Word(s, p, h)
  }

  function Word(s: seq<bv8>, p: nat, h: nat): nat {
    if p + 4 <= |s| then
      var mixed := ExclusiveOr(h, Multiply(Number(s[p..p + 4]), PRIME1));
      Bytes(s, p + 4, Add(Multiply(Rotate(mixed, 23, 64), PRIME2), PRIME3))
    else Bytes(s, p, h)
  }

  function Bytes(s: seq<bv8>, p: nat, h: nat): nat
    decreases |s| - p
  {
    if p < |s| then
      var mixed := ExclusiveOr(h, Multiply(ByteNumber(s[p]), PRIME5));
      Bytes(s, p + 1, Multiply(Rotate(mixed, 11, 64), PRIME1))
    else h
  }

  function Avalanche(h: nat): nat {
    var a := Multiply(ExclusiveOr(h, WithoutLow(h, 33)), PRIME2);
    var b := Multiply(ExclusiveOr(a, WithoutLow(a, 29)), PRIME3);
    ExclusiveOr(b, WithoutLow(b, 32))
  }

  function Digest(s: seq<bv8>, seed: nat): nat {
    var h := if |s| >= 32 then Converge(Stripes(s, 0, Initial(seed))) else Add(seed, PRIME5);
    Avalanche(Longs(s, |s| / 32 * 32, Add(h, |s|)))
  }
}
