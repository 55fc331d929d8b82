/** The steps of XXH32, as the specification of the xxHash fast digest algorithm gives them, on integers.
    A lane is the number of 4 bytes, a state a position in the input and a number below 2^32. */
module Xxh32Steps {
  import opened Integers
  import opened Modulo32

  const PRIME1: nat := 2654435761
  const PRIME2: nat := 2246822519
  const PRIME3: nat := 3266489917
  const PRIME4: nat := 668265263
  const PRIME5: nat := 374761393

  datatype Accumulators = Accumulators(a1: nat, a2: nat, a3: nat, a4: nat)

  function Round(a: nat, lane: nat): nat {
    Multiply(Rotate(Add(a, Multiply(lane, PRIME2)), 13, 32), PRIME1)
  }

  function Initial(seed: nat): Accumulators {
    Accumulators(Add(Add(seed, PRIME1), PRIME2), Add(seed, PRIME2), seed, Subtract(seed, PRIME1))
  }

  /** The accumulators after all whole stripes of 16 bytes from p on. */
  function Stripes(s: seq<bv8>, p: nat, a: Accumulators): Accumulators
    decreases |s| - p
  {
    if p + 16 <= |s| then
      Stripes(s, p + 16, Accumulators(
        Round(a.a1, Number(s[p..p + 4])), Round(a.a2, Number(s[p + 4..p + 8])),
        Round(a.a3, Number(s[p + 8..p + 12])), Round(a.a4, Number(s[p + 12..p + 16]))))
    else a
  }

  function Converge(a: Accumulators): nat {
    Add(Add(Add(Rotate(a.a1, 1, 32), Rotate(a.a2, 7, 32)), Rotate(a.a3, 12, 32)), Rotate(a.a4, 18, 32))
  }

  /** The input from p on: 4-byte lanes, then single bytes. */
  function Words(s: seq<bv8>, p: nat, h: nat): nat
    decreases |s| - p
  {
    if p + 4 <= |s| then
      var mixed := Add(h, Multiply(Number(s[p..p + 4]), PRIME3));
      Words(s, p + 4, Multiply(Rotate(mixed, 17, 32), PRIME4))
    else Bytes(s, p, h)
  }

  function Bytes(s: seq<bv8>, p: nat, h: nat): nat
    decreases |s| - p
  {
    if p < |s| then
      var mixed := Add(h, Multiply(ByteNumber(s[p]), PRIME5));
      Bytes(s, p + 1, Multiply(Rotate(mixed, 11, 32), PRIME1))
    else h
  }

  function Avalanche(h: nat): nat {
    var a := Multiply(ExclusiveOr(h, WithoutLow(h, 15)), PRIME2);
    var b := Multiply(ExclusiveOr(a, WithoutLow(a, 13)), PRIME3);
    ExclusiveOr(b, WithoutLow(b, 16))
  }

  function Digest(s: seq<bv8>, seed: nat): nat {
    var h := if |s| >= 16 then Converge(Stripes(s, 0, Initial(seed))) else Add(seed, PRIME5);
    Avalanche(Words(s, |s| / 16 * 16, Add(h, |s|)))
  }
}
