/** Single-byte bit operations (the `byte_*` helpers of fs/map.c) and the view of a byte
    array as the plain sequence of bits that all bitmap properties are stated over. */
module Bytes {

  const TWO_TO_THE_32: int := 0x1_0000_0000
  const TWO_TO_THE_64: int := 0x1_0000_0000_0000_0000
  const INT_MAX: int := 0x7fff_ffff

  /** The value a 64-bit quantity takes when it is passed as a C `int`. */
  function ToInt32(x: int): int {
    var low := x % TWO_TO_THE_32;
    if low <= INT_MAX then low else low - TWO_TO_THE_32
  }

  /** The one-bit mask at position i, a 1 shifted left by i. */
  function Mask(i: nat): bv8
    requires i < 8
  {
    match i
    case 0 => 0x01
    case 1 => 0x02
    case 2 => 0x04
    case 3 => 0x08
    case 4 => 0x10
    case 5 => 0x20
    case 6 => 0x40
    case _ => 0x80
  }

  predicate Bit(b: bv8, i: nat)
    requires i < 8
  {
    b & Mask(i) != 0
  }

  lemma MaskIsShift(i: nat)
    requires i < 8
    ensures Mask(i) == (0x01 as bv8) << i
  {
  }

  lemma BitIsMaskTest(b: bv8, i: nat)
    requires i < 8
    ensures Bit(b, i) == (b & Mask(i) != 0)
  {
  }

  lemma BitOfMask(i: nat, j: nat)
    requires i < 8 && j < 8
    ensures Bit(Mask(i), j) == (i == j)
  {
  }

  lemma BitOfOr(a: bv8, b: bv8, j: nat)
    requires j < 8
    ensures Bit(a | b, j) == (Bit(a, j) || Bit(b, j))
  {
  }

  lemma BitOfAndNot(a: bv8, b: bv8, j: nat)
    requires j < 8
    ensures Bit(a & !b, j) == (Bit(a, j) && !Bit(b, j))
  {
  }

  /** A byte is 0xff (0x00) exactly when all its bits are set (clear). */
  lemma UniformByte(b: bv8)
    ensures b == 0xff <==> forall j | 0 <= j < 8 :: Bit(b, j)
    ensures b == 0x00 <==> forall j | 0 <= j < 8 :: !Bit(b, j)
  {
    if Bit(b, 0) && Bit(b, 1) && Bit(b, 2) && Bit(b, 3) && Bit(b, 4) && Bit(b, 5) && Bit(b, 6) && Bit(b, 7) {
      assert b == 0xff;
    }
    if !Bit(b, 0) && !Bit(b, 1) && !Bit(b, 2) && !Bit(b, 3) && !Bit(b, 4) && !Bit(b, 5) && !Bit(b, 6) && !Bit(b, 7) {
      assert b == 0x00;
    }
  }

  // ----- bit sequences -----

  /** Bit k of a map stored in bytes, least significant bit first. */
  function View(bytes: seq<bv8>): (v: seq<bool>)
    ensures |v| == 8 * |bytes|
  {
    seq(8 * |bytes|, k requires 0 <= k < 8 * |bytes| => Bit(bytes[k / 8], k % 8))
  }

  /** v with the positions in [lo, hi) set to val. */
  function Fill(v: seq<bool>, lo: nat, hi: nat, val: bool): (w: seq<bool>)
    requires lo <= hi <= |v|
    ensures |w| == |v|
    ensures forall k | 0 <= k < |v| :: w[k] == if lo <= k < hi then val else v[k]
  {
    seq(|v|, k requires 0 <= k < |v| => if lo <= k < hi then val else v[k])
  }

  ghost predicate AllEqual(v: seq<bool>, lo: nat, hi: nat, val: bool)
    requires hi <= |v|
  {
    forall k | lo <= k < hi :: v[k] == val
  }

  /** The length of the maximal run of val from a, capped at n. */
  function RunLen(v: seq<bool>, a: nat, n: nat, val: bool): (r: nat)
    requires a + n <= |v|
    ensures r <= n && AllEqual(v, a, a + r, val)
    ensures r < n ==> v[a + r] != val
    decreases n
  {
    if n == 0 || v[a] != val then 0 else 1 + RunLen(v, a + 1, n - 1, val)
  }

  /** The number of set bits. */
  function PopCount(v: seq<bool>): nat {
    if v == [] then 0 else PopCount(v[..|v| - 1]) + (if v[|v| - 1] then 1 else 0)
  }

  /** The only r that is a run of val cut off by n or by a different bit is RunLen. */
  lemma RunLenIsUnique(v: seq<bool>, a: nat, n: nat, val: bool, r: nat)
    requires r <= n && a + n <= |v|
    requires AllEqual(v, a, a + r, val)
    requires r < n ==> v[a + r] != val
    ensures r == RunLen(v, a, n, val)
  {
    if RunLen(v, a, n, val) < r {
      assert false;
    }
  }

  // ----- byte helpers -----

  /** Where a byte loop that starts at `start` stops: at most 8, and never before one bit was handled. */
  function StopBit(start: nat, numBits: int): (to: nat)
    requires start < 8
  {
    if start + numBits > 8 then 8 else if numBits <= 1 then start + 1 else start + numBits
  }

  /** mask has exactly the bits [lo, hi). */
  ghost predicate MaskOf(mask: bv8, lo: nat, hi: nat) {
    forall j | 0 <= j < 8 :: Bit(mask, j) == (lo <= j < hi)
  }

  lemma MaskGrows(mask: bv8, lo: nat, hi: nat)
    requires lo <= hi < 8 && MaskOf(mask, lo, hi)
    ensures MaskOf(mask | Mask(hi), lo, hi + 1)
  {
    var grown := mask | Mask(hi);
    forall j: nat | j < 8
      ensures Bit(grown, j) == (lo <= j < hi + 1)
    {
      BitOfMask(hi, j);
      BitOfOr(mask, Mask(hi), j);
    }
  }

  lemma ApplyMask(b: bv8, mask: bv8, lo: nat, hi: nat, setBit: bool, r: bv8)
    requires MaskOf(mask, lo, hi)
    requires setBit ==> r == b | mask
    requires !setBit ==> r == b & !mask
    ensures forall j | 0 <= j < 8 :: Bit(r, j) == if lo <= j < hi then setBit else Bit(b, j)
  {
    hide Bit;
    forall j: nat | j < 8
      ensures Bit(r, j) == if lo <= j < hi then setBit else Bit(b, j)
    {
      BitOfOr(b, mask, j);
      BitOfAndNot(b, mask, j);
    }
  }

  method ByteSetBits(start: nat, numBits: int, b: bv8, setBit: bool) returns (r: bv8)
    requires start < 8
    ensures forall j | 0 <= j < 8 ::
              Bit(r, j) == if start <= j < StopBit(start, numBits) then setBit else Bit(b, j)
  {
    hide Bit, Mask;
    var to := start + numBits;
    if to > 8 {
      to := 8;
    }
    var mask: bv8 := 0x00;
    var i := start;
    assert MaskOf(mask, start, i) by {
      UniformByte(mask);
    }
    while true
      invariant start <= i < 8 && (i == start || i < to)
      invariant MaskOf(mask, start, i)
      decreases 8 - i
    {
      MaskGrows(mask, start, i);
      MaskIsShift(i);
      mask := mask | ((0x01 as bv8) << i);
      i := i + 1;
      if !(i < to) {
        break;
      }
    }
    if setBit {
      r := b | mask;
    } else {
      r := b & !mask;
    }
    ApplyMask(b, mask, start, i, setBit, r);
  }

  method ByteGetBit(b: bv8, bit: nat) returns (rc: int)
    requires bit < 8
    ensures rc == if Bit(b, bit) then 1 else 0
  {
    var masked := b & Mask(bit);
    rc := if masked == 0 then 0 else 1;
  }

  method ByteCountBits(start: nat, numBits: int, b: bv8, setBit: bool) returns (count: nat)
    requires start < 8
    ensures start + count <= StopBit(start, numBits)
    ensures forall j | start <= j < start + count :: Bit(b, j) == setBit
    ensures start + count < StopBit(start, numBits) ==> Bit(b, start + count) != setBit
  {
    hide Bit, Mask;
    var to := start + numBits;
    if to > 8 {
      to := 8;
    }
    count := 0;
    var i := start;
    while true
      invariant start <= i < 8 && (i == start || i < to) && count == i - start
      invariant forall j | start <= j < i :: Bit(b, j) == setBit
      decreases 8 - i
    {
      BitIsMaskTest(b, i);
      if b & Mask(i) != 0 {
        if setBit {
          count := count + 1;
        } else {
          return;
        }
      } else {
        if !setBit {
          count := count + 1;
        } else {
          return;
        }
      }
      i := i + 1;
      if !(i < to) {
        break;
      }
    }
  }

  // ----- searching one byte for a gap -----

  /** Outcome of scanning bits [i, 8) of b with `run` clear bits pending since `at`:
      the return code of byte_find_gap and its final *count. */
  function GapScan(b: bv8, i: nat, run: nat, at: nat, numBits: int): (res: (int, nat))
    requires i <= 8
    ensures res.0 < 0 ==> res.0 == (if res.1 == 0 then -1 else -2) && res.1 <= run + 8 - i
    ensures res.0 < 0 && run < numBits ==> res.1 < numBits
    ensures res.0 >= 0 ==> res.1 == numBits > 0
    decreases 8 - i
  {
    if i == 8 then
      (if run == 0 then -1 else -2, run)
    else if Bit(b, i) then
      GapScan(b, i + 1, 0, i + 1, numBits)
    else if run + 1 == numBits then
      (at, numBits)
    else
      GapScan(b, i + 1, run + 1, at, numBits)
  }

  /** byte_find_gap: the gap's offset, or -1 (byte ends in a set bit), or -2 (byte ends in a
      clear run that is too short), with the length of the last clear run seen. */
  method ByteFindGap(start: nat, numBits: int, b: bv8) returns (rc: int, count: nat)
    requires start < 8
    ensures (rc, count) == GapScan(b, start, 0, start, numBits)
  {
    hide Bit, Mask;
    var foundGap := 0;
    var gapIndex := start;
    var i := start;
    count := 0;
    while i < 8
      invariant start <= i <= 8
      invariant foundGap == if count == 0 then 0 else 1
      invariant GapScan(b, start, 0, start, numBits) == GapScan(b, i, count, gapIndex, numBits)
    {
      BitIsMaskTest(b, i);
      var mask := Mask(i);
      i := i + 1;
      if b & mask != 0 {
        foundGap := 0;
        count := 0;
        gapIndex := i;
        continue;
      }
      foundGap := 1;
      count := count + 1;
      if count == numBits {
        return gapIndex, count;
      }
    }
    rc := if foundGap == 0 then -1 else -2;
  }

  /** Some bit of b in [x, x + n) is set. */
  ghost predicate Blocked(b: bv8, x: nat, n: nat) {
    exists j | x <= j < x + n && j < 8 :: Bit(b, j)
  }

  /** What the search knows about b when it has reached bit i with a pending run since `at`. */
  ghost predicate ScanInv(b: bv8, start: nat, i: nat, run: nat, at: nat, numBits: nat) {
    && start <= at <= i <= 8 && at + run == i && run < numBits
    && (forall j | at <= j < i :: !Bit(b, j))
    && (start < at ==> Bit(b, at - 1))
    && (forall x | start <= x && x + numBits <= i :: Blocked(b, x, numBits))
  }

  /** What the outcome of a search from `start` says about the bits of b. */
  ghost predicate GapMeaning(b: bv8, start: nat, numBits: nat, rc: int, count: nat) {
    if rc >= 0 then
      && start <= rc && rc + numBits <= 8 && count == numBits
      && (forall j | rc <= j < rc + numBits :: !Bit(b, j))
      && (start < rc ==> Bit(b, rc - 1))
      && (forall x | start <= x < rc :: Blocked(b, x, numBits))
    else
      && start + count <= 8 && count < numBits && rc == (if count == 0 then -1 else -2)
      && (forall j | 8 - count <= j < 8 :: !Bit(b, j))
      && (start + count < 8 ==> Bit(b, 7 - count))
      && (forall x | start <= x && x + numBits <= 8 :: Blocked(b, x, numBits))
  }

  lemma {:induction false} GapScanMeaning(b: bv8, start: nat, i: nat, run: nat, at: nat, numBits: nat)
    requires ScanInv(b, start, i, run, at, numBits)
    ensures var (rc, count) := GapScan(b, i, run, at, numBits); GapMeaning(b, start, numBits, rc, count)
    decreases 8 - i
  {
    hide Bit;
    if i == 8 {
    } else if Bit(b, i) {
      forall x: nat | start <= x && x + numBits <= i + 1
        ensures Blocked(b, x, numBits)
      {
        if x + numBits == i + 1 {
          assert x <= i < x + numBits;
        }
      }
      GapScanMeaning(b, start, i + 1, 0, i + 1, numBits);
    } else if run + 1 < numBits {
      forall x: nat | start <= x && x + numBits <= i + 1
        ensures Blocked(b, x, numBits)
      {
        if x + numBits == i + 1 {
          assert x <= at - 1 < x + numBits;
        }
      }
      GapScanMeaning(b, start, i + 1, run + 1, at, numBits);
    }
  }
}
