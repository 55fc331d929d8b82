/** The bitmap operations of fs/map.c that work byte by byte, proved against plain bit sequences. */
module Bitmap {
  import opened Bytes

  // ----- from byte updates to bit sequences -----

  lemma ByteUpdateFills(s: seq<bv8>, loc: nat, r: bv8, lo: nat, hi: nat, val: bool)
    requires loc < |s| && lo <= hi <= 8
    requires forall j | 0 <= j < 8 :: Bit(r, j) == if lo <= j < hi then val else Bit(s[loc], j)
    ensures View(s[loc := r]) == Fill(View(s), 8 * loc + lo, 8 * loc + hi, val)
  {
    hide Bit;
    var w := View(s[loc := r]);
    forall k: nat | k < 8 * |s|
      ensures w[k] == Fill(View(s), 8 * loc + lo, 8 * loc + hi, val)[k]
    {
      assert k == 8 * (k / 8) + k % 8;
    }
  }

  lemma MemsetFills(s: seq<bv8>, t: seq<bv8>, lo: nat, hi: nat, val: bool)
    requires lo <= hi <= |s| == |t|
    requires forall i | 0 <= i < |s| :: t[i] == if lo <= i < hi then (if val then 0xff else 0x00) else s[i]
    ensures View(t) == Fill(View(s), 8 * lo, 8 * hi, val)
  {
    hide Bit;
    forall k: nat | k < 8 * |s|
      ensures View(t)[k] == Fill(View(s), 8 * lo, 8 * hi, val)[k]
    {
      UniformByte(t[k / 8]);
      assert k == 8 * (k / 8) + k % 8;
    }
  }

  lemma FillJoins(v: seq<bool>, a: nat, b: nat, c: nat, val: bool)
    requires a <= b <= c <= |v|
    ensures Fill(Fill(v, a, b, val), b, c, val) == Fill(v, a, c, val)
  {
  }

  // ----- setting and reading one bit -----

  method BmSetBit(bm: array<bv8>, totalBits: nat, bitAddress: nat, setBit: bool) returns (rc: int)
    requires bitAddress < totalBits ==> bitAddress < 8 * bm.Length
    modifies bm
    ensures rc == if bitAddress < totalBits then 0 else -1
    ensures View(bm[..]) == if rc == 0 then old(View(bm[..]))[bitAddress := setBit] else old(View(bm[..]))
  {
    hide Bit;
    if bitAddress >= totalBits {
      return -1;
    }
    var locationInMap := bitAddress / 8;
    var bitToChange := bitAddress % 8;
    ghost var before := bm[..];
    var byte := ByteSetBits(bitToChange, 1, bm[locationInMap], setBit);
    bm[locationInMap] := byte;
    assert bm[..] == before[locationInMap := byte];
    ByteUpdateFills(before, locationInMap, byte, bitToChange, bitToChange + 1, setBit);
    return 0;
  }

  method BmGetBit(bm: array<bv8>, totalBits: nat, bitAddress: nat) returns (rc: int)
    requires bitAddress < totalBits ==> bitAddress < 8 * bm.Length
    ensures rc == if bitAddress >= totalBits then -1 else if View(bm[..])[bitAddress] then 1 else 0
  {
    hide Bit;
    if bitAddress >= totalBits {
      return -1;
    }
    rc := ByteGetBit(bm[bitAddress / 8], bitAddress % 8);
  }

  // ----- setting an extent -----

  /** The return code of bm_set_extent. */
  function SetExtentCode(totalBits: nat, addr: nat, num: nat): int {
    if addr + num > totalBits then -1
    else if num == 0 then (if addr % 8 == 0 then -2 else 0)
    else if num > 1 && (addr + num) % 8 == 1 then -2
    else 0
  }

  /** Where the bits written by bm_set_extent end: one short of the extent when it returns -2,
      and one past it when an unaligned extent is empty. */
  function SetExtentEnd(totalBits: nat, addr: nat, num: nat): nat {
    if addr + num > totalBits then addr
    else if num == 0 then (if addr % 8 == 0 then addr else addr + 1)
    else if SetExtentCode(totalBits, addr, num) == -2 then addr + num - 1
    else addr + num
  }

  /** Reads byte loc, changes bits from start on, and stores it back. */
  method UpdateByte(bm: array<bv8>, loc: nat, start: nat, numBits: nat, setBit: bool)
    requires loc < bm.Length && start < 8
    modifies bm
    ensures View(bm[..]) == Fill(old(View(bm[..])), 8 * loc + start, 8 * loc + StopBit(start, numBits), setBit)
  {
    hide Bit;
    ghost var before := bm[..];
    var byte := ByteSetBits(start, numBits, bm[loc], setBit);
    bm[loc] := byte;
    assert bm[..] == before[loc := byte];
    ByteUpdateFills(before, loc, byte, start, StopBit(start, numBits), setBit);
  }

  /** memset of whole bytes to all ones or all zeroes. */
  method Memset(bm: array<bv8>, from: nat, num: nat, setBit: bool)
    requires from + num <= bm.Length
    modifies bm
    ensures View(bm[..]) == Fill(old(View(bm[..])), 8 * from, 8 * (from + num), setBit)
  {
    hide Bit, View;
    ghost var before := bm[..];
    for i := from to from + num
      invariant forall k | 0 <= k < bm.Length ::
                  bm[k] == if from <= k < i then (if setBit then 0xff else 0x00) else before[k]
    {
      bm[i] := if setBit then 0xff else 0x00;
    }
    MemsetFills(before, bm[..], from, from + num, setBit);
  }

  /** The part of bm_set_extent that starts at a byte boundary: whole bytes, then the last
      bits, where a single left-over bit is refused. */
  method SetFromBoundary(bm: array<bv8>, loc: nat, pending: nat, setBit: bool) returns (rc: int, ghost end: nat)
    requires loc + (pending + 7) / 8 <= bm.Length
    modifies bm
    ensures rc == if pending == 0 || pending % 8 == 1 then -2 else 0
    ensures end == 8 * loc + pending - (if pending % 8 == 1 then 1 else 0)
    ensures View(bm[..]) == Fill(old(View(bm[..])), 8 * loc, end, setBit)
  {
    hide Bit, View, Fill;
    ghost var v := View(bm[..]);
    var locationInMap, pendingBits := loc, pending;
    var bytesToMark := pendingBits / 8;
    if bytesToMark >= 1 {
      Memset(bm, locationInMap, bytesToMark, setBit);
      locationInMap := locationInMap + bytesToMark;
      pendingBits := pendingBits - bytesToMark * 8;
      if pendingBits == 0 {
        return 0, 8 * locationInMap;
      }
    }
    var extraBits := pendingBits % 8;
    end := 8 * locationInMap;
    assert View(bm[..]) == Fill(v, 8 * loc, end, setBit);
    if extraBits > 1 {
      UpdateByte(bm, locationInMap, 0, extraBits, setBit);
      FillJoins(v, 8 * loc, end, end + extraBits, setBit);
      end := end + extraBits;
      pendingBits := pendingBits - extraBits;
      if pendingBits == 0 {
        return 0, end;
      }
    }
    return -2, end;
  }

  lemma OneBitOrOutside(totalBits: nat, addr: nat, num: nat)
    ensures addr + num > totalBits ==> SetExtentCode(totalBits, addr, num) == -1
    ensures addr + num <= totalBits && num == 1 ==>
              SetExtentCode(totalBits, addr, num) == 0 && SetExtentEnd(totalBits, addr, num) == addr + 1
  {
  }

  lemma HeadOnlyCode(totalBits: nat, addr: nat, num: nat)
    requires addr + num <= totalBits && num != 1
    requires addr % 8 != 0 && addr % 8 + num <= 8
    ensures SetExtentCode(totalBits, addr, num) == 0
    ensures SetExtentEnd(totalBits, addr, num) == 8 * (addr / 8) + StopBit(addr % 8, num)
  {
  }

  lemma RestCode(totalBits: nat, addr: nat, num: nat, loc: nat, pending: nat)
    requires addr + num <= totalBits && num != 1
    requires addr + num == 8 * loc + pending
    requires pending == 0 <==> num == 0
    ensures SetExtentCode(totalBits, addr, num) == if pending == 0 || pending % 8 == 1 then -2 else 0
    ensures SetExtentEnd(totalBits, addr, num) == 8 * loc + pending - (if pending % 8 == 1 then 1 else 0)
  {
  }

  method BmSetExtent(bm: array<bv8>, totalBits: nat, bitAddress: nat, numBits: nat, setBit: bool) returns (rc: int)
    requires bitAddress + numBits < TWO_TO_THE_64
    requires bitAddress + numBits <= totalBits ==> (bitAddress + numBits + 7) / 8 <= bm.Length
    modifies bm
    ensures rc == SetExtentCode(totalBits, bitAddress, numBits)
    ensures rc == -1 ==> View(bm[..]) == old(View(bm[..]))
    ensures rc != -1 ==>
              && SetExtentEnd(totalBits, bitAddress, numBits) <= 8 * bm.Length
              && View(bm[..]) == Fill(old(View(bm[..])), bitAddress, SetExtentEnd(totalBits, bitAddress, numBits), setBit)
  {
    hide Bit, View, Fill, SetExtentCode, SetExtentEnd;
    if bitAddress > totalBits || bitAddress + numBits > totalBits {
      OneBitOrOutside(totalBits, bitAddress, numBits);
      return -1;
    }
    ghost var v := View(bm[..]);
    if numBits == 1 {
      OneBitOrOutside(totalBits, bitAddress, numBits);
      rc := BmSetBit(bm, totalBits, bitAddress, setBit);
      assert View(bm[..]) == Fill(v, bitAddress, bitAddress + 1, setBit);
      return;
    }
    var locationInMap := bitAddress / 8;
    var pendingBits := numBits;
    var alignedToByte := bitAddress % 8;
    if alignedToByte != 0 {
      var bitsToMarkAtStart := if alignedToByte + numBits < 8 then numBits else 8 - alignedToByte;
      UpdateByte(bm, locationInMap, alignedToByte, bitsToMarkAtStart, setBit);
      pendingBits := pendingBits - bitsToMarkAtStart;
      locationInMap := locationInMap + 1;
      if pendingBits == 0 {
        HeadOnlyCode(totalBits, bitAddress, numBits);
        return 0;
      }
    }
    RestCode(totalBits, bitAddress, numBits, locationInMap, pendingBits);
    ghost var end;
    rc, end := SetFromBoundary(bm, locationInMap, pendingBits, setBit);
    FillJoins(v, bitAddress, 8 * locationInMap, end, setBit);
  }

  /** Setting an extent and clearing it again restores the map exactly when the extent was clear,
      provided neither call hit the one-bit tail. */
  lemma SetThenClearRestores(v: seq<bool>, totalBits: nat, addr: nat, num: nat)
    requires num >= 1 && SetExtentCode(totalBits, addr, num) == 0 && addr + num <= |v|
    ensures var end := SetExtentEnd(totalBits, addr, num);
            Fill(Fill(v, addr, end, true), addr, end, false) == v <==> AllEqual(v, addr, addr + num, false)
  {
    var w := Fill(Fill(v, addr, addr + num, true), addr, addr + num, false);
    if AllEqual(v, addr, addr + num, false) {
      assert forall k | 0 <= k < |v| :: w[k] == v[k];
    } else {
      var k :| addr <= k < addr + num && v[k];
      assert !w[k];
    }
  }

  lemma {:induction false} PopCountSplit(v: seq<bool>, w: seq<bool>)
    ensures PopCount(v + w) == PopCount(v) + PopCount(w)
    decreases |w|
  {
    if w == [] {
      assert v + w == v;
    } else {
      PopCountSplit(v, w[..|w| - 1]);
      assert (v + w)[..|v + w| - 1] == v + w[..|w| - 1];
    }
  }

  lemma {:induction false} PopCountUniform(v: seq<bool>, val: bool)
    requires AllEqual(v, 0, |v|, val)
    ensures PopCount(v) == if val then |v| else 0
  {
    if v != [] {
      PopCountUniform(v[..|v| - 1], val);
    }
  }

  /** Changing one bit changes the population count by one. */
  lemma PopCountOfUpdate(v: seq<bool>, k: nat, val: bool)
    requires k < |v|
    ensures PopCount(v[k := val]) == PopCount(v) + (if val then 1 else 0) - (if v[k] then 1 else 0)
  {
    var w := v[k := val];
    assert v == v[..k] + [v[k]] + v[k + 1..];
    assert w == v[..k] + [val] + v[k + 1..];
    PopCountSplit(v[..k] + [v[k]], v[k + 1..]);
    PopCountSplit(v[..k], [v[k]]);
    PopCountSplit(v[..k] + [val], v[k + 1..]);
    PopCountSplit(v[..k], [val]);
    assert [v[k]][..0] == [] && [val][..0] == [];
  }

  /** Filling a clear extent adds exactly its length to the population count. */
  lemma {:induction false} PopCountOfFill(v: seq<bool>, lo: nat, hi: nat)
    requires lo <= hi <= |v| && AllEqual(v, lo, hi, false)
    ensures PopCount(Fill(v, lo, hi, true)) == PopCount(v) + (hi - lo)
    decreases hi - lo
  {
    hide PopCount;
    if lo == hi {
      assert Fill(v, lo, hi, true) == v;
    } else {
      var w := Fill(v, lo, hi - 1, true);
      PopCountOfFill(v, lo, hi - 1);
      assert Fill(v, lo, hi, true) == w[hi - 1 := true];
      PopCountOfUpdate(w, hi - 1, true);
    }
  }

  // ----- counting a run -----

  /** How many bits of a byte byte_count_bits looks at when it is given `pending` bits as a C int. */
  function NarrowedCap(pending: nat): (cap: nat)
    ensures 1 <= cap <= 8
  {
    StopBit(0, ToInt32(pending))
  }

  /** A run stops inside a whole byte of which the narrowed pending count shows too few bits. */
  predicate NarrowingBites(addr: nat, num: nat, run: nat) {
    var stop := addr + run;
    var base := stop - stop % 8;
    run < num && base >= addr && stop % 8 > NarrowedCap(addr + num - base)
  }

  /** What is reported for a run of the given length. */
  function Narrowed(addr: nat, num: nat, run: nat): nat {
    var base := addr + run - (addr + run) % 8;
    if NarrowingBites(addr, num, run) then base - addr + NarrowedCap(addr + num - base) else run
  }

  /** What bm_count reports: the run length, or less when narrowing bites; and the one bit that
      an empty unaligned window is charged. */
  function CodedCount(v: seq<bool>, addr: nat, num: nat, val: bool): nat
    requires addr + num <= |v|
  {
    if num > 0 then Narrowed(addr, num, RunLen(v, addr, num, val))
    else if addr % 8 != 0 && addr < |v| && v[addr] == val then 1
    else 0
  }

  lemma CountStops(v: seq<bool>, addr: nat, num: nat, val: bool, r: nat)
    requires 0 < num && addr + num <= |v| && r <= num
    requires AllEqual(v, addr, addr + r, val)
    requires r < num ==> v[addr + r] != val && ((addr + r) % 8 == 0 || addr + r - (addr + r) % 8 < addr)
    ensures CodedCount(v, addr, num, val) == r
  {
    RunLenIsUnique(v, addr, num, val, r);
  }

  lemma CapWithinPending(pending: nat)
    requires 0 < pending
    ensures NarrowedCap(pending) <= pending
    ensures pending < 8 ==> NarrowedCap(pending) == pending
  {
  }

  lemma NarrowedInByte(addr: nat, num: nat, base: nat, t: nat, rest: nat)
    requires addr <= base < addr + num && base % 8 == 0
    requires t <= rest < 8 && base + rest <= addr + num
    requires base + rest == addr + num || t == rest || t == NarrowedCap(addr + num - base)
    requires t <= NarrowedCap(addr + num - base)
    requires base + rest == addr + num ==> t == rest
    ensures Narrowed(addr, num, base - addr + rest) == base - addr + t
  {
    var stop := base + rest;
    assert stop % 8 == rest;
  }

  lemma RunCovers(v: seq<bool>, a: nat, n: nat, val: bool, t: nat)
    requires t <= n && a + n <= |v| && AllEqual(v, a, a + t, val)
    ensures t <= RunLen(v, a, n, val)
    ensures t < n && v[a + t] != val ==> t == RunLen(v, a, n, val)
  {
  }

  lemma SubRange(v: seq<bool>, lo: nat, mid: nat, hi: nat, val: bool)
    requires lo <= mid <= hi <= |v| && AllEqual(v, lo, hi, val)
    ensures AllEqual(v, lo, mid, val) && AllEqual(v, mid, hi, val)
  {
  }

  /** A run that reaches base goes on as the run from base does, and stops before an odd bit. */
  lemma RunExtends(v: seq<bool>, addr: nat, base: nat, num: nat, window: nat, val: bool, odd: nat)
    requires addr <= base && base + window <= addr + num <= |v|
    requires AllEqual(v, addr, base, val)
    requires base + window == addr + num || odd < window
    requires base + odd < |v| && v[base + odd] != val
    ensures RunLen(v, addr, num, val) == base - addr + RunLen(v, base, window, val)
    ensures RunLen(v, base, window, val) <= odd
  {
    RunLenIsUnique(v, addr, num, val, base - addr + RunLen(v, base, window, val));
  }

  /** A byte that is neither all ones nor all zeroes stops the count, at the narrowed cap at the latest. */
  lemma CountStopsInMixedByte(v: seq<bool>, addr: nat, num: nat, val: bool, base: nat, t: nat, odd: nat)
    requires addr <= base < addr + num <= |v| && base % 8 == 0 && base + 8 <= |v|
    requires t <= NarrowedCap(addr + num - base)
    requires AllEqual(v, addr, base + t, val)
    requires t < NarrowedCap(addr + num - base) ==> v[base + t] != val
    requires odd < 8 && v[base + odd] != val
    ensures CodedCount(v, addr, num, val) == base - addr + t
  {
    hide Narrowed, NarrowedCap, AllEqual, RunLen;
    var pending := addr + num - base;
    CapWithinPending(pending);
    var window := if pending < 8 then pending else 8;
    var rest := RunLen(v, base, window, val);
    SubRange(v, addr, base, base + t, val);
    RunExtends(v, addr, base, num, window, val, odd);
    RunCovers(v, base, window, val, t);
    NarrowedInByte(addr, num, base, t, rest);
  }

  lemma ViewByte(s: seq<bv8>, loc: nat)
    requires loc < |s|
    ensures forall j | 0 <= j < 8 :: View(s)[8 * loc + j] == Bit(s[loc], j)
  {
    hide Bit;
  }

  /** What the byte at loc does to a count that has matched every bit before it. */
  lemma CountThroughByte(s: seq<bv8>, addr: nat, num: nat, val: bool, loc: nat)
    requires addr <= 8 * loc < addr + num <= 8 * |s|
    requires AllEqual(View(s), addr, 8 * loc, val)
    ensures s[loc] == (if val then 0xff else 0x00) ==> AllEqual(View(s), addr, 8 * loc + 8, val)
    ensures s[loc] == (if val then 0x00 else 0xff) ==> CodedCount(View(s), addr, num, val) == 8 * loc - addr
  {
    hide Bit, View, CodedCount, NarrowedCap;
    var v := View(s);
    var base := 8 * loc;
    UniformByte(s[loc]);
    ViewByte(s, loc);
    if s[loc] == (if val then 0xff else 0x00) {
      forall k | addr <= k < base + 8
        ensures v[k] == val
      {
        if k >= base {
          assert v[base + (k - base)] == Bit(s[loc], k - base);
        }
      }
    } else if s[loc] == (if val then 0x00 else 0xff) {
      assert v[base + 0] == Bit(s[loc], 0);
      CountStops(v, addr, num, val, base - addr);
    }
  }

  lemma CountIntoMixedByte(s: seq<bv8>, addr: nat, num: nat, val: bool, loc: nat, t: nat)
    requires addr <= 8 * loc < addr + num <= 8 * |s|
    requires AllEqual(View(s), addr, 8 * loc, val)
    requires s[loc] != 0x00 && s[loc] != 0xff
    requires t <= NarrowedCap(addr + num - 8 * loc)
    requires forall j | 0 <= j < t :: Bit(s[loc], j) == val
    requires t < NarrowedCap(addr + num - 8 * loc) ==> Bit(s[loc], t) != val
    ensures CodedCount(View(s), addr, num, val) == 8 * loc - addr + t
  {
    hide Bit, View, CodedCount, NarrowedCap;
    UniformByte(s[loc]);
    ViewByte(s, loc);
    var odd: nat :| odd < 8 && Bit(s[loc], odd) != val;
    assert View(s)[8 * loc + odd] != val;
    MatchedInByte(s, addr, val, loc, t);
    CountStopsInMixedByte(View(s), addr, num, val, 8 * loc, t, odd);
  }

  lemma MatchedInByte(s: seq<bv8>, addr: nat, val: bool, loc: nat, t: nat)
    requires addr <= 8 * loc && loc < |s| && t <= 8
    requires AllEqual(View(s), addr, 8 * loc, val)
    requires forall j | 0 <= j < t :: Bit(s[loc], j) == val
    ensures AllEqual(View(s), addr, 8 * loc + t, val)
  {
    hide Bit, View;
    ViewByte(s, loc);
    forall k | addr <= k < 8 * loc + t
      ensures View(s)[k] == val
    {
      if k >= 8 * loc {
        assert View(s)[8 * loc + (k - 8 * loc)] == Bit(s[loc], k - 8 * loc);
      }
    }
  }

  /** How many bits of the first, unaligned byte are looked at. */
  function ExpectedBits(addr: nat, num: nat): nat {
    if addr % 8 + num >= 8 then 8 - addr % 8 else num
  }

  /** What the first, unaligned byte contributes to the count. */
  lemma CountFirstByte(s: seq<bv8>, addr: nat, num: nat, val: bool, count: nat)
    requires addr % 8 != 0 && addr + num <= 8 * |s| && addr < 8 * |s|
    requires addr % 8 + count <= StopBit(addr % 8, ExpectedBits(addr, num))
    requires forall j | addr % 8 <= j < addr % 8 + count :: Bit(s[addr / 8], j) == val
    requires addr % 8 + count < StopBit(addr % 8, ExpectedBits(addr, num)) ==>
               Bit(s[addr / 8], addr % 8 + count) != val
    ensures num <= ExpectedBits(addr, num) || count < ExpectedBits(addr, num) ==>
              CodedCount(View(s), addr, num, val) == count
    ensures ExpectedBits(addr, num) < num && count >= ExpectedBits(addr, num) ==>
              addr + count == 8 * (addr / 8) + 8 && AllEqual(View(s), addr, addr + count, val)
  {
    hide Bit, View, CodedCount;
    var v := View(s);
    var loc, off := addr / 8, addr % 8;
    ViewByte(s, loc);
    forall k | addr <= k < addr + count
      ensures v[k] == val
    {
      assert v[8 * loc + (k - 8 * loc)] == Bit(s[loc], k - 8 * loc);
    }
    if off + count < 8 {
      assert v[8 * loc + (off + count)] == Bit(s[loc], off + count);
    }
    if num == 0 {
      CountNothing(v, addr, val);
    } else if num <= ExpectedBits(addr, num) || count < ExpectedBits(addr, num) {
      CountStops(v, addr, num, val, count);
    }
  }

  lemma CountNothing(v: seq<bool>, addr: nat, val: bool)
    requires addr < |v| && addr % 8 != 0
    ensures CodedCount(v, addr, 0, val) == if v[addr] == val then 1 else 0
  {
  }

  method BmCount(bm: array<bv8>, totalBits: nat, bitAddress: nat, numBits: nat, setBit: bool)
    returns (rc: int, count: nat)
    requires bitAddress + numBits < TWO_TO_THE_64 && numBits < TWO_TO_THE_64 / 2
    requires bitAddress < totalBits && bitAddress + numBits <= totalBits ==>
               (bitAddress + numBits + 7) / 8 <= bm.Length
    ensures rc == if bitAddress >= totalBits || bitAddress + numBits > totalBits then -1
                  else if numBits == 0 && bitAddress % 8 == 0 then -2 else 0
    ensures rc == 0 ==> bitAddress + numBits <= 8 * bm.Length
                        && count == CodedCount(View(bm[..]), bitAddress, numBits, setBit)
    ensures rc != 0 ==> count == 0
  {
    hide Bit, CodedCount, View, AllEqual, RunLen, ToInt32;
    count := 0;
    if bitAddress >= totalBits || bitAddress + numBits > totalBits {
      return -1, 0;
    }
    ghost var s := bm[..];
    var bitsCount := 0;
    var pendingBits := numBits;
    var locationInMap := bitAddress / 8;
    var alignedToByte := bitAddress % 8;
    if alignedToByte != 0 {
      var byte := bm[locationInMap];
      locationInMap := locationInMap + 1;
      var expectedBits := if alignedToByte + numBits >= 8 then 8 - alignedToByte else numBits;
      assert expectedBits == ExpectedBits(bitAddress, numBits);
      bitsCount := ByteCountBits(alignedToByte, expectedBits, byte, setBit);
      CountFirstByte(s, bitAddress, numBits, setBit, bitsCount);
      pendingBits := pendingBits - expectedBits;
      if pendingBits <= 0 || bitsCount < expectedBits {
        return 0, bitsCount;
      }
    } else {
      NothingCounted(View(s), bitAddress, setBit);
    }
    while bitsCount < numBits
      invariant pendingBits == numBits - bitsCount >= 0
      invariant numBits == 0 ==> bitAddress % 8 == 0
      invariant 0 < numBits ==> 0 < pendingBits
      invariant bitAddress + bitsCount == 8 * locationInMap
      invariant AllEqual(View(s), bitAddress, bitAddress + bitsCount, setBit)
    {
      var byte := bm[locationInMap];
      CountThroughByte(s, bitAddress, numBits, setBit, locationInMap);
      locationInMap := locationInMap + 1;
      if byte != 0xff && byte != 0x00 {
        var more := ByteCountBits(0, ToInt32(pendingBits), byte, setBit);
        CountIntoMixedByte(s, bitAddress, numBits, setBit, locationInMap - 1, more);
        bitsCount := bitsCount + more;
        return 0, bitsCount;
      } else if (setBit && byte == 0xff) || (!setBit && byte == 0x00) {
        if pendingBits <= 8 {
          FullCount(View(s), bitAddress, numBits, 8 * locationInMap, setBit);
          return 0, numBits;
        }
        bitsCount := bitsCount + 8;
        pendingBits := pendingBits - 8;
      } else {
        return 0, bitsCount;
      }
    }
    return -2, 0;
  }

  /** bm_count reports the true run length exactly when narrowing does not bite, which needs a
      window of more than INT_MAX bits. */
  lemma CountIsExactUnlessNarrowed(v: seq<bool>, addr: nat, num: nat, val: bool)
    requires 0 < num && addr + num <= |v|
    ensures CodedCount(v, addr, num, val) == RunLen(v, addr, num, val)
            <==> !NarrowingBites(addr, num, RunLen(v, addr, num, val))
    ensures NarrowingBites(addr, num, RunLen(v, addr, num, val)) ==> num > INT_MAX
    ensures CodedCount(v, addr, num, val) <= RunLen(v, addr, num, val)
    ensures CodedCount(v, addr, num, val) > 0 <==> v[addr] == val
    ensures CodedCount(v, addr, num, val) == num <==> RunLen(v, addr, num, val) == num
  {
    hide NarrowedCap;
    var run := RunLen(v, addr, num, val);
    var base := addr + run - (addr + run) % 8;
    if run < num && base >= addr {
      CapNarrowsOnlyAboveIntMax(addr + num - base);
    }
  }

  lemma CapNarrowsOnlyAboveIntMax(pending: nat)
    ensures 0 < pending <= INT_MAX ==> NarrowedCap(pending) == if pending < 8 then pending else 8
  {
  }

  /** A window of 2^32 bits that starts with a run of two bits is reported as a run of one. */
  lemma NarrowingCounterexample(v: seq<bool>)
    requires |v| >= TWO_TO_THE_32 && v[0] && v[1] && !v[2]
    ensures RunLen(v, 0, TWO_TO_THE_32, true) == 2
    ensures CodedCount(v, 0, TWO_TO_THE_32, true) == 1
  {
    RunLenIsUnique(v, 0, TWO_TO_THE_32, true, 2);
    assert ToInt32(TWO_TO_THE_32) == 0;
  }

  /** The pending count at the first byte boundary of the window. */
  function PendingAtBoundary(addr: nat, num: nat): int {
    num - (if addr % 8 == 0 then 0 else 8 - addr % 8)
  }

  ghost predicate CountIsExact(addr: nat, num: nat, val: bool) {
    forall v: seq<bool> | addr + num <= |v| :: CodedCount(v, addr, num, val) == RunLen(v, addr, num, val)
  }

  /** A byte boundary in the window at which the pending count narrows to no more than one bit. */
  function BadBoundary(addr: nat, num: nat): nat {
    var first := addr + num - PendingAtBoundary(addr, num);
    var excess := PendingAtBoundary(addr, num) - TWO_TO_THE_32;
    if excess <= 0 then first else first + (excess + 7) / 8 * 8
  }

  lemma BadBoundaryNarrows(addr: nat, num: nat)
    requires PendingAtBoundary(addr, num) > INT_MAX
    ensures var base := BadBoundary(addr, num);
            addr <= base && base % 8 == 0 && base + 2 < addr + num && NarrowedCap(addr + num - base) == 1
  {
    var pending := addr + num - BadBoundary(addr, num);
    assert INT_MAX < pending <= TWO_TO_THE_32;
    assert ToInt32(pending) <= 0;
  }

  lemma SmallPendingNeverBites(addr: nat, num: nat, run: nat)
    requires PendingAtBoundary(addr, num) <= INT_MAX
    ensures !NarrowingBites(addr, num, run)
  {
    hide NarrowedCap;
    var base := addr + run - (addr + run) % 8;
    if run < num && base >= addr {
      CapNarrowsOnlyAboveIntMax(addr + num - base);
    }
  }

  lemma LargePendingBites(addr: nat, num: nat)
    requires PendingAtBoundary(addr, num) > INT_MAX
    ensures var run := BadBoundary(addr, num) + 2 - addr;
            0 <= run < num && NarrowingBites(addr, num, run)
  {
    hide NarrowedCap, BadBoundary;
    BadBoundaryNarrows(addr, num);
  }

  /** Whatever the map, bm_count reports the true run length, if and only if the pending count at the
      first byte boundary of the window fits a C int. */
  lemma CountIsExactExactly(addr: nat, num: nat, val: bool)
    requires 0 < num
    ensures CountIsExact(addr, num, val) <==> PendingAtBoundary(addr, num) <= INT_MAX
  {
    hide CodedCount, NarrowingBites, BadBoundary, PendingAtBoundary, RunLen;
    if PendingAtBoundary(addr, num) <= INT_MAX {
      forall v: seq<bool> | addr + num <= |v|
        ensures CodedCount(v, addr, num, val) == RunLen(v, addr, num, val)
      {
        CountIsExactUnlessNarrowed(v, addr, num, val);
        SmallPendingNeverBites(addr, num, RunLen(v, addr, num, val));
      }
    } else {
      LargePendingBites(addr, num);
      var stop := BadBoundary(addr, num) + 2;
      var v := seq(addr + num, k => if k < stop then val else !val);
      RunLenIsUnique(v, addr, num, val, stop - addr);
      CountIsExactUnlessNarrowed(v, addr, num, val);
    }
  }

  // ----- growing an extent in place -----

  /** The window is a run of ones (possibly empty) followed by at least one zero up to its end. */
  ghost predicate OnesThenZeroes(v: seq<bool>, lo: nat, hi: nat)
    requires hi <= |v|
  {
    exists mid | lo <= mid < hi :: AllEqual(v, lo, mid, true) && AllEqual(v, mid, hi, false)
  }

  /** The outcome a window calls for: 0 it can grow, -3 it is full, -2 it starts clear but is not
      all clear, -5 a set bit follows the zeroes after the leading ones. */
  ghost function GrowClass(v: seq<bool>, lo: nat, hi: nat): int
    requires lo < hi <= |v|
  {
    if OnesThenZeroes(v, lo, hi) then 0
    else if AllEqual(v, lo, hi, true) then -3
    else if !v[lo] then -2
    else -5
  }

  /** The classification follows from the lengths of the leading run of zeroes, the leading run of
      ones, and the run of zeroes behind the ones. */
  lemma GrowClassFromRuns(v: seq<bool>, lo: nat, hi: nat)
    requires lo < hi <= |v|
    ensures var zeroes := RunLen(v, lo, hi - lo, false);
            var ones := RunLen(v, lo, hi - lo, true);
            && (zeroes > 0 ==> GrowClass(v, lo, hi) == if zeroes == hi - lo then 0 else -2)
            && (zeroes == 0 && ones == hi - lo ==> GrowClass(v, lo, hi) == -3)
            && (zeroes == 0 && ones < hi - lo ==>
                  GrowClass(v, lo, hi) ==
                  if RunLen(v, lo + ones, hi - lo - ones, false) == hi - lo - ones then 0 else -5)
  {
    var zeroes := RunLen(v, lo, hi - lo, false);
    var ones := RunLen(v, lo, hi - lo, true);
    if OnesThenZeroes(v, lo, hi) {
      var mid :| lo <= mid < hi && AllEqual(v, lo, mid, true) && AllEqual(v, mid, hi, false);
      RunLenIsUnique(v, lo, hi - lo, true, mid - lo);
      RunLenIsUnique(v, mid, hi - mid, false, hi - mid);
    }
  }

  lemma NoBiteOnEmptyRun(addr: nat, num: nat)
    ensures !NarrowingBites(addr, num, 0)
  {
    hide NarrowedCap;
  }

  /** What the three reported counts say about the class of the window. */
  lemma GrowClassFromCounts(v: seq<bool>, addr: nat, num: nat)
    requires 0 < num && addr + num <= |v|
    ensures var zeroes := CodedCount(v, addr, num, false);
            var ones := CodedCount(v, addr, num, true);
            var bites := NarrowingBites(addr, num, RunLen(v, addr, num, true));
            && ones <= num
            && (zeroes > 0 ==> !bites && GrowClass(v, addr, addr + num) == if zeroes == num then 0 else -2)
            && (zeroes == 0 ==> ones > 0)
            && (zeroes == 0 && ones == num ==> !bites && GrowClass(v, addr, addr + num) == -3)
            && (zeroes == 0 && ones < num ==>
                  (if bites then -5 else GrowClass(v, addr, addr + num)) ==
                  if CodedCount(v, addr + ones, num - ones, false) == num - ones then 0 else -5)
  {
    hide GrowClass, CodedCount, NarrowingBites;
    GrowClassFromRuns(v, addr, addr + num);
    CountIsExactUnlessNarrowed(v, addr, num, false);
    CountIsExactUnlessNarrowed(v, addr, num, true);
    NoBiteOnEmptyRun(addr, num);
    var run := RunLen(v, addr, num, true);
    var ones := CodedCount(v, addr, num, true);
    if ones < num {
      CountIsExactUnlessNarrowed(v, addr + ones, num - ones, false);
      if ones < run {
        assert v[addr + ones];
      }
    }
  }

  /** The code that bm_extent_can_grow gives a window in range: its class, except that a window whose
      leading ones are undercounted is always refused with -5. */
  ghost function GrowCode(v: seq<bool>, addr: nat, num: nat): int
    requires 0 < num && addr + num <= |v|
  {
    if NarrowingBites(addr, num, RunLen(v, addr, num, true)) then -5 else GrowClass(v, addr, addr + num)
  }

  method BmExtentCanGrow(bm: array<bv8>, totalBits: nat, bitAddress: nat, count: nat) returns (rc: int)
    requires bitAddress + count < TWO_TO_THE_64 && count < TWO_TO_THE_64 / 2
    requires bitAddress < totalBits && bitAddress + count <= totalBits ==>
               (bitAddress + count + 7) / 8 <= bm.Length
    ensures bitAddress >= totalBits || bitAddress + count > totalBits || count == 0 <==> rc == -1
    ensures rc != -1 ==>
              && bitAddress + count <= 8 * bm.Length
              && var v := View(bm[..]);
                 rc == GrowCode(v, bitAddress, count)
  {
    hide Bit, View, RunLen, GrowClass, CodedCount, NarrowingBites;
    if bitAddress >= totalBits || bitAddress + count > totalBits || count == 0 {
      return -1;
    }
    ghost var v := View(bm[..]);
    var result, countResult := BmCount(bm, totalBits, bitAddress, count, false);
    GrowClassFromCounts(v, bitAddress, count);
    if result != 0 {
      return -100;
    }
    if countResult > 0 {
      if countResult == count {
        return 0;
      }
      return -2;
    }
    result, countResult := BmCount(bm, totalBits, bitAddress, count, true);
    if result != 0 {
      return -101;
    }
    if countResult == count {
      return -3;
    }
    if countResult == 0 {
      return -4;
    }
    var ones := countResult;
    var expectedZeroes := count - ones;
    result, countResult := BmCount(bm, totalBits, bitAddress + ones, expectedZeroes, false);
    if result != 0 {
      return -102;
    }
    if expectedZeroes == countResult {
      return 0;
    }
    return -5;
  }

  lemma NothingCounted(v: seq<bool>, addr: nat, val: bool)
    requires addr <= |v|
    ensures AllEqual(v, addr, addr, val)
  {
  }

  lemma FullCount(v: seq<bool>, addr: nat, num: nat, end: nat, val: bool)
    requires 0 < num && addr + num <= end <= |v| && AllEqual(v, addr, end, val)
    ensures CodedCount(v, addr, num, val) == num
  {
    CountStops(v, addr, num, val, num);
  }

  /** Whatever the map, the code is the class of the window. */
  ghost predicate GrowIsExact(addr: nat, num: nat)
    requires 0 < num
  {
    forall v: seq<bool> | addr + num <= |v| :: GrowCode(v, addr, num) == GrowClass(v, addr, addr + num)
  }

  /** A map whose window is ones up to a boundary at which the pending count narrows, and two bits more. */
  function UndercountedMap(addr: nat, num: nat): (v: seq<bool>)
    ensures |v| == addr + num
  {
    seq(addr + num, k => k < BadBoundary(addr, num) + 2)
  }

  /** Its window is ones and then zeroes, and is refused nevertheless. */
  lemma GrowthIsRefused(addr: nat, num: nat)
    requires PendingAtBoundary(addr, num) > INT_MAX
    ensures 0 < num
    ensures GrowClass(UndercountedMap(addr, num), addr, addr + num) == 0
    ensures GrowCode(UndercountedMap(addr, num), addr, num) == -5
  {
    hide RunLen, NarrowingBites, BadBoundary, PendingAtBoundary;
    LargePendingBites(addr, num);
    var v, stop := UndercountedMap(addr, num), BadBoundary(addr, num) + 2;
    RunLenIsUnique(v, addr, num, true, stop - addr);
    assert AllEqual(v, addr, stop, true) && AllEqual(v, stop, addr + num, false);
  }

  /** Whatever the map, bm_extent_can_grow classifies the window rightly, if and only if the pending count
      at the window's first byte boundary fits a C int. */
  lemma GrowIsExactExactly(addr: nat, num: nat)
    requires 0 < num
    ensures GrowIsExact(addr, num) <==> PendingAtBoundary(addr, num) <= INT_MAX
  {
    hide GrowClass, NarrowingBites, PendingAtBoundary, RunLen, UndercountedMap;
    if PendingAtBoundary(addr, num) <= INT_MAX {
      forall v: seq<bool> | addr + num <= |v|
        ensures GrowCode(v, addr, num) == GrowClass(v, addr, addr + num)
      {
        SmallPendingNeverBites(addr, num, RunLen(v, addr, num, true));
      }
    } else {
      GrowthIsRefused(addr, num);
    }
  }
}
