/** Integer arithmetic in which the digests of fs/hash.c are stated without machine words. */
module Integers {

  function Power(k: nat): (p: nat)
    ensures p > 0
  {
    if k == 0 then 1 else 2 * Power(k - 1)
  }

  /** The number x of a word of the given width, rotated left by r places. */
  function Rotate(x: nat, r: nat, width: nat): nat
    requires r <= width
  {
    (x * Power(r) + WithoutLow(x, width - r)) % Power(width)
  }

  /** The number x without its k lowest binary digits. */
  function WithoutLow(x: nat, k: nat): nat {
    hide Power;
    x / Power(k)
  }

  /** Bitwise exclusive or of two numbers. */
  function ExclusiveOr(a: nat, b: nat): nat
    decreases a + b
  {
    if a == 0 && b == 0 then 0 else 2 * ExclusiveOr(a / 2, b / 2) + (a + b) % 2
  }

  function ByteNumber(b: bv8): nat {
    b as nat
  }

  /** The number that bytes stand for in little-endian order. */
  function Number(s: seq<bv8>): nat {
    if s == [] then 0 else ByteNumber(s[0]) + 0x100 * Number(s[1..])
  }

  lemma NumberUnfolds(s: seq<bv8>, lo: nat, hi: nat)
    requires lo < hi <= |s|
    ensures Number(s[lo..hi]) == ByteNumber(s[lo]) + 0x100 * Number(s[lo + 1..hi])
  {
    assert s[lo..hi][1..] == s[lo + 1..hi];
  }

  lemma NumberOfNone(s: seq<bv8>, p: nat)
    requires p <= |s|
    ensures Number(s[p..p]) == 0
  {
  }

  /** Four bytes and the number behind them. */
  lemma NumberOfFour(s: seq<bv8>, p: nat, hi: nat)
    requires p + 4 <= hi <= |s|
    ensures Number(s[p..hi])
            == ByteNumber(s[p]) + 0x100 * ByteNumber(s[p + 1]) + 0x1_0000 * ByteNumber(s[p + 2])
               + 0x100_0000 * ByteNumber(s[p + 3]) + 0x1_0000_0000 * Number(s[p + 4..hi])
  {
    hide Number, ByteNumber;
    NumberUnfolds(s, p, hi);
    NumberUnfolds(s, p + 1, hi);
    NumberUnfolds(s, p + 2, hi);
    NumberUnfolds(s, p + 3, hi);
  }

  lemma ExclusiveOrUnfolds(a: nat, b: nat)
    ensures ExclusiveOr(a, b) == 2 * ExclusiveOr(a / 2, b / 2) + (a + b) % 2
  {
  }

  lemma {:induction false} PowerAdds(j: nat, k: nat)
    ensures Power(j + k) == Power(j) * Power(k)
    decreases k
  {
    if k > 0 {
      PowerAdds(j, k - 1);
    }
  }

  lemma SmallPowers()
    ensures Power(1) == 0x2 && Power(2) == 0x4 && Power(3) == 0x8 && Power(4) == 0x10
    ensures Power(5) == 0x20 && Power(6) == 0x40 && Power(7) == 0x80 && Power(8) == 0x100
  {
    assert Power(2) == 4 && Power(4) == 16;
    assert Power(6) == 64;
  }

  lemma BytePowers()
    ensures Power(16) == 0x1_0000 && Power(24) == 0x100_0000 && Power(32) == 0x1_0000_0000
    ensures Power(64) == 0x1_0000_0000_0000_0000
  {
    SmallPowers();
    PowerAdds(8, 8);
    PowerAdds(16, 8);
    PowerAdds(16, 16);
    PowerAdds(32, 32);
  }

  lemma {:induction false} PowerGrows(j: nat, k: nat)
    requires j <= k
    ensures Power(j) <= Power(k)
    decreases k
  {
    if j < k {
      PowerGrows(j, k - 1);
    }
  }

  lemma HighestBits()
    ensures Power(31) == 0x8000_0000 && Power(63) == 0x8000_0000_0000_0000
  {
    BytePowers();
    assert Power(32) == 2 * Power(31) && Power(64) == 2 * Power(63);
  }

  lemma HalfOfQuotient(x: nat, b: nat)
    requires b > 0
    ensures x / b / 2 == x / (2 * b)
  {
    var q := x / b;
    var u, v := q / 2, q % 2;
    TwoHalves(b, u, v);
    QuotientIs(x, 2 * b, u, (if v == 0 then 0 else b) + x % b);
  }

  lemma TwoHalves(b: nat, u: nat, v: nat)
    requires v < 2
    ensures b * (2 * u + v) == 2 * b * u + if v == 0 then 0 else b
  {
  }

  lemma QuotientIs(n: nat, m: nat, q: nat, r: nat)
    requires n == m * q + r && r < m
    ensures n / m == q && n % m == r
  {
    var d := n / m - q;
    assert m * d == r - n % m;
  }
}
