/** Sums, differences and products of numbers in words of 32 and of 64 bits. */
module Modulo32 {
  import opened Bytes

  function Add(u: nat, v: nat): nat {
    (u + v) % TWO_TO_THE_32
  }

  function Subtract(u: nat, v: nat): nat {
    (u - v) % TWO_TO_THE_32
  }

  function Multiply(u: nat, v: nat): nat {
    u * v % TWO_TO_THE_32
  }
}

module Modulo64 {
  import opened Bytes

  function Add(u: nat, v: nat): nat {
    (u + v) % TWO_TO_THE_64
  }

  function Subtract(u: nat, v: nat): nat {
    (u - v) % TWO_TO_THE_64
  }

  function Multiply(u: nat, v: nat): nat {
    u * v % TWO_TO_THE_64
  }
}
