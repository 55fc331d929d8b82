/** bm_find of fs/map.c: the search for a gap of clear bits, byte by byte, with a run of clear bits
    carried from one byte to the next. */
module BitmapFind {
  import opened Bytes
  import opened Wrappers
  import Bitmap

  /** Return code and *found_address. */
  datatype FindResult = FindResult(code: int, address: nat)

  /** There are enough bytes: the window rounded up to whole bytes, and after it one byte for
      every bit of a carried gap that may still be missing. */
  predicate Room(length: nat, gap: nat, loc: nat, aligned: nat, count: nat, missing: nat, carry: Option<nat>) {
    && 1 <= missing <= gap && aligned < 8
    && if count > 0 then
         loc + (aligned + count + 7) / 8 + gap - 1 <= length
       else
         carry.Some? && aligned == 0 && loc + missing <= length
  }

  /** The window bits left after the byte that starts at bit `aligned` was searched. */
  function LeftAfter(aligned: nat, count: nat): nat
    requires aligned < 8
  {
    if 8 - aligned > count then 0 else count - (8 - aligned)
  }

  lemma RoomForThisByte(length: nat, gap: nat, loc: nat, aligned: nat, count: nat, missing: nat, carry: Option<nat>)
    requires Room(length, gap, loc, aligned, count, missing, carry)
    ensures loc < length && aligned < 8 && 1 <= missing <= gap && (count == 0 ==> carry.Some?)
  {
  }

  lemma RoomForNextByte(length: nat, gap: nat, loc: nat, aligned: nat, count: nat, missing: nat, carry: Option<nat>,
                        missing': nat, carry': Option<nat>)
    requires Room(length, gap, loc, aligned, count, missing, carry)
    requires 1 <= missing' <= gap
    requires LeftAfter(aligned, count) > 0 || (carry'.Some? && missing' < missing)
    ensures Room(length, gap, loc + 1, 0, LeftAfter(aligned, count), missing', carry')
  {
  }

  lemma ToInt32Bounds(n: nat)
    ensures ToInt32(n) <= n
    ensures n <= INT_MAX ==> ToInt32(n) == n
  {
  }

  /** Searches one byte for the missing bits of the gap (as a C int). */
  function ScanByte(b: bv8, aligned: nat, missing: nat): (res: (int, nat))
    requires aligned < 8 && 1 <= missing
    ensures res.0 < 0 ==> res.0 == if res.1 == 0 then -1 else -2
    ensures res.0 < 0 ==> res.1 < missing && res.1 <= 8
    ensures res.0 >= 0 ==> 1 <= res.1 <= missing
  {
    hide GapScan, ToInt32;
    ToInt32Bounds(missing);
    GapScan(b, aligned, 0, aligned, ToInt32(missing))
  }

  /** The search loop from byte loc on: `count` bits of the window are left, `missing` bits of the
      gap are still to be found, and carry is where the carried run started. */
  function FindScan(s: seq<bv8>, gap: nat, loc: nat, aligned: nat, count: nat, missing: nat, carry: Option<nat>)
    : (res: FindResult)
    requires Room(|s|, gap, loc, aligned, count, missing, carry)
    decreases count, missing
  {
    var (rc, c) := ScanByte(s[loc], aligned, missing);
    var left := LeftAfter(aligned, count);
    if rc >= 0 then
      if carry.None? then FindResult(0, 8 * loc + rc)
      else if missing - c == 0 then FindResult(0, carry.value)
      else
        RoomForNextByte(|s|, gap, loc, aligned, count, missing, carry, missing - c, carry);
        FindScan(s, gap, loc + 1, 0, left, missing - c, carry)
    else if rc == -1 then
      if gap > left || left == 0 then FindResult(-1, 0)
      else
        RoomForNextByte(|s|, gap, loc, aligned, count, missing, carry, gap, None);
        FindScan(s, gap, loc + 1, 0, left, gap, None)
    else
      var carry' := if carry.Some? then carry else Some(8 * (loc + 1) - c);
      RoomForNextByte(|s|, gap, loc, aligned, count, missing, carry, missing - c, carry');
      FindScan(s, gap, loc + 1, 0, left, missing - c, carry')
  }

  /** One byte of the search: the answer, or the arguments with which it goes on. */
  lemma FindScanUnfolds(s: seq<bv8>, gap: nat, loc: nat, aligned: nat, count: nat, missing: nat, carry: Option<nat>)
    requires Room(|s|, gap, loc, aligned, count, missing, carry)
    ensures loc < |s| && aligned < 8 && 1 <= missing <= gap
    ensures var (rc, c) := ScanByte(s[loc], aligned, missing);
            var left := LeftAfter(aligned, count);
            var res := FindScan(s, gap, loc, aligned, count, missing, carry);
            && (rc >= 0 && carry.None? ==> res == FindResult(0, 8 * loc + rc))
            && (rc >= 0 && carry.Some? && missing == c ==> res == FindResult(0, carry.value))
            && (rc >= 0 && carry.Some? && missing > c ==>
                  && Room(|s|, gap, loc + 1, 0, left, missing - c, carry)
                  && res == FindScan(s, gap, loc + 1, 0, left, missing - c, carry))
            && (rc == -1 && (gap > left || left == 0) ==> res == FindResult(-1, 0))
            && (rc == -1 && gap <= left && left > 0 ==>
                  && Room(|s|, gap, loc + 1, 0, left, gap, None)
                  && res == FindScan(s, gap, loc + 1, 0, left, gap, None))
            && (rc == -2 ==>
                  var carry' := if carry.Some? then carry else Some(8 * (loc + 1) - c);
                  && Room(|s|, gap, loc + 1, 0, left, missing - c, carry')
                  && res == FindScan(s, gap, loc + 1, 0, left, missing - c, carry'))
  {
    hide ScanByte;
    RoomForThisByte(|s|, gap, loc, aligned, count, missing, carry);
    var (rc, c) := ScanByte(s[loc], aligned, missing);
    if rc >= 0 && carry.Some? && missing > c {
      RoomForNextByte(|s|, gap, loc, aligned, count, missing, carry, missing - c, carry);
    } else if rc == -1 && gap <= LeftAfter(aligned, count) && LeftAfter(aligned, count) > 0 {
      RoomForNextByte(|s|, gap, loc, aligned, count, missing, carry, gap, None);
    } else if rc == -2 {
      RoomForNextByte(|s|, gap, loc, aligned, count, missing, carry, missing - c,
                      if carry.Some? then carry else Some(8 * (loc + 1) - c));
    }
  }

  /** The bits of the window after it is clipped to the map. */
  function Clipped(totalBits: nat, addr: nat, count: nat): nat
    requires addr <= totalBits
  {
    if addr + count > totalBits then totalBits - addr else count
  }

  predicate GoodArguments(totalBits: nat, addr: nat, count: nat, gap: nat) {
    addr < totalBits && 0 < gap <= count
  }

  /** bm_find as a function of the map's bytes. */
  function Find(s: seq<bv8>, totalBits: nat, addr: nat, count: nat, gap: nat): FindResult
    requires GoodArguments(totalBits, addr, count, gap) ==>
               (addr + Clipped(totalBits, addr, count) + 7) / 8 + gap - 1 <= |s|
  {
    if GoodArguments(totalBits, addr, count, gap) then
      FindScan(s, gap, addr / 8, addr % 8, Clipped(totalBits, addr, count), gap, None)
    else FindResult(-1, 0)
  }

  method FindGapInByte(start: nat, missing: nat, b: bv8) returns (rc: int, count: nat)
    requires start < 8 && 1 <= missing
    ensures (rc, count) == ScanByte(b, start, missing)
  {
    rc, count := ByteFindGap(start, ToInt32(missing), b);
  }

  method BmFind(bm: array<bv8>, totalBits: nat, bitAddress: nat, count: nat, gapSize: nat)
    returns (rc: int, foundAddress: nat)
    requires bitAddress + count < TWO_TO_THE_64
    requires GoodArguments(totalBits, bitAddress, count, gapSize) ==>
               (bitAddress + Clipped(totalBits, bitAddress, count) + 7) / 8 + gapSize - 1 <= bm.Length
    ensures FindResult(rc, foundAddress) == Find(bm[..], totalBits, bitAddress, count, gapSize)
  {
    hide GapScan, ToInt32, ScanByte;
    var locationInMap: nat := bitAddress / 8;
    var alignedToByte: nat := bitAddress % 8;
    var mayHaveALargeGap := 0;
    foundAddress := 0;
    if bitAddress >= totalBits || gapSize == 0 || count == 0 || gapSize > count {
      return -1, 0;
    }
    var left: nat := count;
    if bitAddress + count > totalBits {
      left := totalBits - bitAddress;
    }
    ghost var s := bm[..];
    var updatedGapSize: nat := gapSize;
    ghost var wanted := Find(s, totalBits, bitAddress, count, gapSize);
    assert Room(|s|, gapSize, locationInMap, alignedToByte, left, updatedGapSize, None);
    assert wanted == FindScan(s, gapSize, locationInMap, alignedToByte, left, updatedGapSize, None);
    hide Room, FindScan, Find, Clipped;
    while true
      invariant mayHaveALargeGap == 0 || mayHaveALargeGap == 1
      invariant var carry := if mayHaveALargeGap == 1 then Some(foundAddress) else None;
                && Room(|s|, gapSize, locationInMap, alignedToByte, left, updatedGapSize, carry)
                && wanted == FindScan(s, gapSize, locationInMap, alignedToByte, left, updatedGapSize, carry)
      decreases left, updatedGapSize
    {
      FindScanUnfolds(s, gapSize, locationInMap, alignedToByte, left, updatedGapSize,
                      if mayHaveALargeGap == 1 then Some(foundAddress) else None);
      var byte := bm[locationInMap];
      var code, bitCount := FindGapInByte(alignedToByte, updatedGapSize, byte);
      if 8 - alignedToByte > left {
        left := 0;
      } else {
        left := left - (8 - alignedToByte);
      }
      if code >= 0 {
        if mayHaveALargeGap == 0 {
          return 0, locationInMap * 8 + code;
        } else {
          updatedGapSize := updatedGapSize - bitCount;
          if updatedGapSize == 0 {
            return 0, foundAddress;
          }
        }
      } else if code == -1 {
        if gapSize > left || left == 0 {
          return -1, 0;
        }
        updatedGapSize := gapSize;
        mayHaveALargeGap := 0;
      } else {
        if mayHaveALargeGap == 0 {
          mayHaveALargeGap := 1;
          foundAddress := (locationInMap + 1) * 8 - bitCount;
        }
        updatedGapSize := updatedGapSize - bitCount;
      }
      alignedToByte := 0;
      locationInMap := locationInMap + 1;
    }
  }

  // ----- what the search result means -----

  /** The n bits from x on are clear. */
  ghost predicate ClearRun(v: seq<bool>, x: nat, n: nat) {
    x + n <= |v| && AllEqual(v, x, x + n, false)
  }

  /** The bits in [x, end) are clear. */
  ghost predicate ClearUpTo(v: seq<bool>, x: nat, end: nat) {
    x <= end <= |v| && AllEqual(v, x, end, false)
  }

  /** No gap of `gap` clear bits lies inside [lo, hi). */
  ghost predicate NoGap(v: seq<bool>, gap: nat, lo: nat, hi: nat) {
    forall x: nat | lo <= x && x + gap <= hi :: !ClearRun(v, x, gap)
  }

  /** The first byte boundary after bit a. */
  function NextByte(a: nat): nat {
    8 * (a / 8) + 8
  }

  /** Every clear run from start on that reaches pos is at most n bits long. */
  ghost predicate TailsAtMost(v: seq<bool>, start: nat, pos: nat, n: int)
    requires pos <= |v|
  {
    forall x: nat | start <= x < pos && ClearUpTo(v, x, pos) :: pos - x <= n
  }

  /** What the loop knows when it has searched every bit of [start, pos): no gap was overlooked, a
      clear run that reaches pos is at least as short as the bits already accounted for, and the
      carried run started after a set bit (or at start) and is clear up to the next byte. */
  ghost predicate Searched(v: seq<bool>, gap: nat, start: nat, pos: nat, missing: nat, carry: Option<nat>) {
    && start <= pos <= |v| && 1 <= missing <= gap
    && NoGap(v, gap, start, pos)
    && TailsAtMost(v, start, pos, gap - missing)
    && (carry.None? ==> missing == gap)
    && (carry.Some? ==>
          && start <= carry.value && NextByte(carry.value) <= pos
          && carry.value + (gap - missing) <= pos
          && ClearUpTo(v, carry.value, NextByte(carry.value))
          && (start < carry.value ==> v[carry.value - 1]))
  }

  /** A set bit inside [x, x + n) rules out every gap that covers these bits. */
  lemma BlockedRulesOut(s: seq<bv8>, loc: nat, x: nat, n: nat, y: nat, gap: nat)
    requires loc < |s| && Blocked(s[loc], x, n)
    requires y <= 8 * loc + x && 8 * loc + x + n <= y + gap
    ensures !ClearRun(View(s), y, gap)
  {
    hide Bit, View;
    Bitmap.ViewByte(s, loc);
    var j: nat :| x <= j < x + n && j < 8 && Bit(s[loc], j);
    assert View(s)[8 * loc + j];
    assert y <= 8 * loc + j < y + gap;
  }

  /** A byte at pos whose search ended with -1 or -2 completes no gap. */
  lemma NoGapInByte(s: seq<bv8>, gap: nat, start: nat, loc: nat, aligned: nat, missing: nat, carry: Option<nat>)
    requires loc < |s| && aligned < 8 && (aligned > 0 ==> 8 * loc + aligned == start)
    requires Searched(View(s), gap, start, 8 * loc + aligned, missing, carry)
    requires forall x: nat | aligned <= x && x + missing <= 8 :: Blocked(s[loc], x, missing)
    ensures NoGap(View(s), gap, start, 8 * loc + 8)
  {
    hide Bit, View;
    var v := View(s);
    var pos := 8 * loc + aligned;
    forall x: nat | start <= x && x + gap <= 8 * loc + 8
      ensures !ClearRun(v, x, gap)
    {
      if pos <= x {
        BlockedRulesOut(s, loc, x - 8 * loc, missing, x, gap);
      } else if pos < x + gap && ClearUpTo(v, x, pos) {
        BlockedRulesOut(s, loc, pos - 8 * loc, missing, x, gap);
      }
    }
  }

  /** A byte that ends in a clear run of c bits: every clear run that reaches its end is accounted for. */
  lemma RunsAtByteEnd(s: seq<bv8>, gap: nat, start: nat, loc: nat, aligned: nat, missing: nat, carry: Option<nat>, c: nat)
    requires loc < |s| && aligned < 8 && (aligned > 0 ==> 8 * loc + aligned == start)
    requires Searched(View(s), gap, start, 8 * loc + aligned, missing, carry)
    requires aligned + c <= 8 && c < missing
    requires aligned + c < 8 ==> Bit(s[loc], 7 - c)
    ensures TailsAtMost(View(s), start, 8 * loc + 8, gap - missing + c)
  {
    hide Bit, View;
    var v := View(s);
    var pos := 8 * loc + aligned;
    Bitmap.ViewByte(s, loc);
    var end := 8 * loc + 8;
    forall x: nat | start <= x < end && ClearUpTo(v, x, end)
      ensures end - x <= gap - missing + c
    {
      if aligned + c < 8 {
        assert v[8 * loc + (7 - c)];
        assert x > 8 * loc + (7 - c);
      } else if x < pos {
        assert ClearUpTo(v, x, pos);
      }
    }
  }

  /** One byte that yields -2 keeps what the loop knows, with the byte's clear end carried on. */
  lemma SearchedAfterCarry(s: seq<bv8>, gap: nat, start: nat, loc: nat, aligned: nat, missing: nat,
                           carry: Option<nat>, c: nat)
    requires loc < |s| && aligned < 8 && (aligned > 0 ==> 8 * loc + aligned == start)
    requires Searched(View(s), gap, start, 8 * loc + aligned, missing, carry)
    requires GapMeaning(s[loc], aligned, missing, -2, c)
    ensures Searched(View(s), gap, start, 8 * loc + 8, missing - c,
                     if carry.Some? then carry else Some(8 * (loc + 1) - c))
  {
    hide Bit, View;
    NoGapInByte(s, gap, start, loc, aligned, missing, carry);
    RunsAtByteEnd(s, gap, start, loc, aligned, missing, carry, c);
    var v := View(s);
    Bitmap.ViewByte(s, loc);
    if carry.None? {
      var from := 8 * (loc + 1) - c;
      assert NextByte(from) == 8 * loc + 8;
      forall k | from <= k < 8 * loc + 8
        ensures !v[k]
      {
        assert v[8 * loc + (k - 8 * loc)] == Bit(s[loc], k - 8 * loc);
      }
      if aligned + c < 8 {
        assert v[8 * loc + (7 - c)];
      } else if start < from {
        assert !ClearUpTo(v, from - 1, from);
      }
    }
  }

  /** One byte that yields -1 keeps what the loop knows, with nothing carried. */
  lemma SearchedAfterReset(s: seq<bv8>, gap: nat, start: nat, loc: nat, aligned: nat, missing: nat, carry: Option<nat>)
    requires loc < |s| && aligned < 8 && (aligned > 0 ==> 8 * loc + aligned == start)
    requires Searched(View(s), gap, start, 8 * loc + aligned, missing, carry)
    requires GapMeaning(s[loc], aligned, missing, -1, 0)
    ensures Searched(View(s), gap, start, 8 * loc + 8, gap, None)
    ensures NoGap(View(s), gap, start, 8 * loc + 8)
    ensures View(s)[8 * loc + 7]
  {
    hide Bit, View;
    NoGapInByte(s, gap, start, loc, aligned, missing, carry);
    Bitmap.ViewByte(s, loc);
    assert View(s)[8 * loc + 7];
  }

  /** The meaning of an outcome of the search. A reported address is the lowest one at which a gap
      can be, the bits from it to the next byte boundary are clear, and only a gap that fits into
      one byte is known to be clear altogether; -1 says that the window holds no gap. */
  ghost predicate OutcomeMeaning(v: seq<bool>, gap: nat, start: nat, end: nat, res: FindResult) {
    if res.code == 0 then
      && start <= res.address && res.address + gap <= |v|
      && (if res.address + gap <= NextByte(res.address) then ClearRun(v, res.address, gap)
          else ClearUpTo(v, res.address, NextByte(res.address)))
      && forall x: nat | start <= x < res.address :: !ClearRun(v, x, gap)
    else
      res.code == -1 && NoGap(v, gap, start, end)
  }

  lemma {:induction false} FindScanMeaning(s: seq<bv8>, gap: nat, loc: nat, aligned: nat, count: nat, missing: nat,
                                           carry: Option<nat>, start: nat, end: nat)
    requires Room(|s|, gap, loc, aligned, count, missing, carry)
    requires gap <= TWO_TO_THE_32
    requires aligned > 0 ==> 8 * loc + aligned == start
    requires if count > 0 then 8 * loc + aligned + count == end else end <= 8 * loc + aligned
    requires Searched(View(s), gap, start, 8 * loc + aligned, missing, carry)
    ensures OutcomeMeaning(View(s), gap, start, end, FindScan(s, gap, loc, aligned, count, missing, carry))
    decreases count, missing
  {
    hide Bit, View, ScanByte, Searched, OutcomeMeaning, GapMeaning, NoGap;
    var b := s[loc];
    var (rc, c) := ScanByte(b, aligned, missing);
    SearchedBounds(View(s), gap, start, 8 * loc + aligned, missing, carry);
    ScanByteMeaning(b, aligned, missing);
    var left := LeftAfter(aligned, count);
    if rc >= 0 {
      FoundMeaning(s, gap, loc, aligned, missing, carry, start, end, rc);
    } else if rc == -1 {
      SearchedAfterReset(s, gap, start, loc, aligned, missing, carry);
      if gap > left || left == 0 {
        WindowExhausted(View(s), gap, start, 8 * loc + 8, end);
      } else {
        RoomForNextByte(|s|, gap, loc, aligned, count, missing, carry, gap, None);
        FindScanMeaning(s, gap, loc + 1, 0, left, gap, None, start, end);
      }
    } else {
      var carry' := if carry.Some? then carry else Some(8 * (loc + 1) - c);
      SearchedAfterCarry(s, gap, start, loc, aligned, missing, carry, c);
      RoomForNextByte(|s|, gap, loc, aligned, count, missing, carry, missing - c, carry');
      FindScanMeaning(s, gap, loc + 1, 0, left, missing - c, carry', start, end);
    }
  }

  lemma SearchedBounds(v: seq<bool>, gap: nat, start: nat, pos: nat, missing: nat, carry: Option<nat>)
    requires Searched(v, gap, start, pos, missing, carry)
    ensures start <= pos <= |v| && 1 <= missing <= gap
  {
  }

  /** A length that is zero or negative as a C int is found as little as one of more than eight bits. */
  lemma {:induction false} NeverFound(b: bv8, i: nat, run: nat, at: nat, n: int, missing: nat)
    requires run <= i <= 8 && n <= 0 && missing > 8
    ensures GapScan(b, i, run, at, n) == GapScan(b, i, run, at, missing)
    decreases 8 - i
  {
    hide Bit;
    if i < 8 {
      NeverFound(b, i + 1, if Bit(b, i) then 0 else run + 1, if Bit(b, i) then i + 1 else at, n, missing);
    }
  }

  /** Up to 2^32 bits, the narrowing of the missing length to a C int does no harm. */
  lemma ScanByteMeaning(b: bv8, aligned: nat, missing: nat)
    requires aligned < 8 && 1 <= missing <= TWO_TO_THE_32
    ensures var (rc, c) := ScanByte(b, aligned, missing);
            GapMeaning(b, aligned, missing, rc, c) && (rc >= 0 ==> c == missing) && (rc == -1 ==> c == 0)
  {
    hide Bit, GapScan;
    GapScanMeaning(b, aligned, aligned, 0, aligned, missing);
    if missing > INT_MAX {
      NeverFound(b, aligned, 0, aligned, ToInt32(missing), missing);
    }
  }

  /** A set bit just before pos and fewer than `gap` window bits behind it leave no gap. */
  lemma WindowExhausted(v: seq<bool>, gap: nat, start: nat, pos: nat, end: nat)
    requires 0 < pos <= |v| && NoGap(v, gap, start, pos) && v[pos - 1]
    requires end < pos + gap
    ensures OutcomeMeaning(v, gap, start, end, FindResult(-1, 0))
  {
    forall x: nat | start <= x && x + gap <= end
      ensures !ClearRun(v, x, gap)
    {
      if pos < x + gap {
        assert x <= pos - 1 < x + gap;
      }
    }
  }

  /** The byte in which the missing bits are found. */
  lemma FoundMeaning(s: seq<bv8>, gap: nat, loc: nat, aligned: nat, missing: nat, carry: Option<nat>, start: nat,
                     end: nat, rc: nat)
    requires loc < |s| && aligned < 8 && (aligned > 0 ==> 8 * loc + aligned == start)
    requires Searched(View(s), gap, start, 8 * loc + aligned, missing, carry)
    requires GapMeaning(s[loc], aligned, missing, rc, missing)
    ensures var res := FindResult(0, if carry.None? then 8 * loc + rc else carry.value);
            OutcomeMeaning(View(s), gap, start, end, res)
  {
    hide Bit, View;
    var v := View(s);
    var pos := 8 * loc + aligned;
    Bitmap.ViewByte(s, loc);
    if carry.Some? {
      NothingBefore(v, gap, start, pos, carry.value);
    } else {
      var at := 8 * loc + rc;
      forall k | at <= k < at + gap
        ensures !v[k]
      {
        assert v[8 * loc + (k - 8 * loc)] == Bit(s[loc], k - 8 * loc);
      }
      forall x: nat | start <= x < at
        ensures !ClearRun(v, x, gap)
      {
        if pos <= x {
          BlockedRulesOut(s, loc, x - 8 * loc, missing, x, gap);
        } else if pos < x + gap {
          assert !ClearUpTo(v, x, pos);
        }
      }
    }
  }

  lemma NothingBefore(v: seq<bool>, gap: nat, start: nat, pos: nat, at: nat)
    requires 0 < gap && start <= at <= pos <= |v|
    requires NoGap(v, gap, start, pos)
    requires start < at ==> v[at - 1]
    ensures forall x: nat | start <= x < at :: !ClearRun(v, x, gap)
  {
    forall x: nat | start <= x < at
      ensures !ClearRun(v, x, gap)
    {
      if pos < x + gap {
        assert x <= at - 1 < x + gap;
      }
    }
  }

  // ----- theorems about bm_find -----

  /** The end of the window of a call. */
  function WindowEnd(totalBits: nat, addr: nat, count: nat): nat {
    if addr + count <= totalBits then addr + count else totalBits
  }

  /** The arguments are good and in range, and the map has the bytes the search may read. */
  predicate Callable(s: seq<bv8>, totalBits: nat, addr: nat, count: nat, gap: nat) {
    && GoodArguments(totalBits, addr, count, gap) && addr + count < TWO_TO_THE_64
    && (WindowEnd(totalBits, addr, count) + 7) / 8 + gap - 1 <= |s|
  }

  /** Bad arguments, and only those, are refused without a search. */
  lemma BadArgumentsAreRefused(s: seq<bv8>, totalBits: nat, addr: nat, count: nat, gap: nat)
    ensures GoodArguments(totalBits, addr, count, gap) <==>
              addr < totalBits && gap != 0 && count != 0 && gap <= count
    ensures !GoodArguments(totalBits, addr, count, gap) ==> Find(s, totalBits, addr, count, gap) == FindResult(-1, 0)
  {
    hide FindScan;
  }

  lemma FindMeaning(s: seq<bv8>, totalBits: nat, addr: nat, count: nat, gap: nat)
    requires Callable(s, totalBits, addr, count, gap) && gap <= TWO_TO_THE_32
    ensures OutcomeMeaning(View(s), gap, addr, WindowEnd(totalBits, addr, count), Find(s, totalBits, addr, count, gap))
  {
    hide Bit, View, FindScan, OutcomeMeaning;
    var window := Clipped(totalBits, addr, count);
    assert Searched(View(s), gap, addr, addr, gap, None);
    FindScanMeaning(s, gap, addr / 8, addr % 8, window, gap, None, addr, addr + window);
  }

  /** n rounded up to a whole number of bytes, in bits. */
  function RoundUp(n: nat): nat {
    n + 7 - (n + 7) % 8
  }

  lemma RoundUpInLastByte(loc: nat, bits: nat)
    requires 1 <= bits <= 8
    ensures RoundUp(8 * loc + bits) == 8 * loc + 8
  {
  }

  /** The lowest clear bit of [from, to), or -1. */
  function LowestClear(v: seq<bool>, from: nat, to: nat): FindResult
    requires from <= to <= |v|
  {
    var ones := RunLen(v, from, to - from, true);
    if from + ones < to then FindResult(0, from + ones) else FindResult(-1, 0)
  }

  /** One byte searched for a single clear bit. */
  lemma ScanByteForOne(s: seq<bv8>, loc: nat, aligned: nat, to: nat)
    requires loc < |s| && aligned < 8 && 8 * loc + 8 <= to <= 8 * |s|
    ensures var (rc, c) := ScanByte(s[loc], aligned, 1);
            if rc >= 0 then LowestClear(View(s), 8 * loc + aligned, to) == FindResult(0, 8 * loc + rc)
            else rc == -1 && LowestClear(View(s), 8 * loc + aligned, to) == LowestClear(View(s), 8 * loc + 8, to)
  {
    hide Bit, View, ScanByte;
    var v := View(s);
    var (rc, c) := ScanByte(s[loc], aligned, 1);
    ScanByteMeaning(s[loc], aligned, 1);
    Bitmap.ViewByte(s, loc);
    var pos := 8 * loc + aligned;
    var stop := if rc >= 0 then rc else 8;
    forall k | pos <= k < 8 * loc + stop
      ensures v[k]
    {
      assert Blocked(s[loc], k - 8 * loc, 1);
      assert v[8 * loc + (k - 8 * loc)] == Bit(s[loc], k - 8 * loc);
    }
    if rc >= 0 {
      assert v[8 * loc + rc] == Bit(s[loc], rc);
      RunLenIsUnique(v, pos, to - pos, true, rc - aligned);
    } else {
      RunLenIsUnique(v, pos, to - pos, true, 8 - aligned + RunLen(v, 8 * loc + 8, to - (8 * loc + 8), true));
    }
  }

  /** One byte of the search for a single bit, with what it asks of the bytes behind it. */
  lemma FindScanForOneStep(s: seq<bv8>, loc: nat, aligned: nat, count: nat)
    requires Room(|s|, 1, loc, aligned, count, 1, None)
    ensures loc < |s| && aligned < 8
    ensures LeftAfter(aligned, count) > 0 ==> Room(|s|, 1, loc + 1, 0, LeftAfter(aligned, count), 1, None)
    ensures var (rc, c) := ScanByte(s[loc], aligned, 1);
            rc == -1 || rc >= 0 ==>
              FindScan(s, 1, loc, aligned, count, 1, None) ==
              if rc >= 0 then FindResult(0, 8 * loc + rc)
              else if LeftAfter(aligned, count) == 0 then FindResult(-1, 0)
              else FindScan(s, 1, loc + 1, 0, LeftAfter(aligned, count), 1, None)
  {
    hide Bit, ScanByte;
    if LeftAfter(aligned, count) > 0 {
      RoomForNextByte(|s|, 1, loc, aligned, count, 1, None, 1, None);
    }
  }

  lemma RoundUpInRoom(n: nat, loc: nat, aligned: nat, count: nat)
    requires Room(n, 1, loc, aligned, count, 1, None)
    ensures aligned < 8 && 8 * loc + 8 <= RoundUp(8 * loc + aligned + count) <= 8 * n
    ensures LeftAfter(aligned, count) == 0 ==> RoundUp(8 * loc + aligned + count) == 8 * loc + 8
  {
    if LeftAfter(aligned, count) == 0 {
      RoundUpInLastByte(loc, aligned + count);
    }
  }

  lemma {:induction false} FindScanForOne(s: seq<bv8>, loc: nat, aligned: nat, count: nat)
    requires Room(|s|, 1, loc, aligned, count, 1, None)
    ensures 8 * loc + aligned <= RoundUp(8 * loc + aligned + count) <= 8 * |s|
    ensures FindScan(s, 1, loc, aligned, count, 1, None)
            == LowestClear(View(s), 8 * loc + aligned, RoundUp(8 * loc + aligned + count))
    decreases count
  {
    hide Bit, View, ScanByte, FindScan, Room, RoundUp, RunLen;
    FindScanForOneStep(s, loc, aligned, count);
    RoundUpInRoom(|s|, loc, aligned, count);
    var left := LeftAfter(aligned, count);
    ScanByteForOne(s, loc, aligned, RoundUp(8 * loc + aligned + count));
    if left > 0 {
      RoundUpWindow(loc, aligned, count, left);
      FindScanForOne(s, loc + 1, 0, left);
    }
  }

  /** With gap_size 1 the search is exact on the window rounded up to whole bytes: it reports the
      lowest clear bit, and -1 only when there is none. */
  lemma FindOneBit(s: seq<bv8>, totalBits: nat, addr: nat, count: nat)
    requires Callable(s, totalBits, addr, count, 1)
    ensures RoundUp(WindowEnd(totalBits, addr, count)) <= 8 * |s|
    ensures Find(s, totalBits, addr, count, 1)
            == LowestClear(View(s), addr, RoundUp(WindowEnd(totalBits, addr, count)))
  {
    hide Bit, View, FindScan;
    FindScanForOne(s, addr / 8, addr % 8, Clipped(totalBits, addr, count));
  }

  // ----- searches of one byte for any length -----

  /** The length that the scan of one byte really looks for: the missing length as a C int, or more
      than a byte can hold when that is not positive. */
  function Sought(missing: nat): (n: nat)
    ensures n > 0
    ensures 1 <= missing <= 8 ==> n == missing
  {
    var n := ToInt32(missing);
    if n > 0 then n else 9
  }

  lemma NarrowScan(b: bv8, aligned: nat, missing: nat)
    requires aligned < 8 && 1 <= missing
    ensures var (rc, c) := ScanByte(b, aligned, missing);
            && GapMeaning(b, aligned, Sought(missing), rc, c)
            && (rc >= 0 ==> c == Sought(missing)) && (rc == -1 ==> c == 0)
  {
    hide Bit, GapScan;
    GapScanMeaning(b, aligned, aligned, 0, aligned, Sought(missing));
    if ToInt32(missing) <= 0 {
      NeverFound(b, aligned, 0, aligned, ToInt32(missing), 9);
    }
  }

  /** The byte whose lowest k bits are set. */
  function LowOnes(k: nat): bv8
    requires k <= 8
  {
    match k
    case 0 => 0x00
    case 1 => 0x01
    case 2 => 0x03
    case 3 => 0x07
    case 4 => 0x0f
    case 5 => 0x1f
    case 6 => 0x3f
    case 7 => 0x7f
    case _ => 0xff
  }

  lemma LowOnesBits(k: nat)
    requires k <= 8
    ensures forall j | 0 <= j < 8 :: Bit(LowOnes(k), j) == (j < k)
    ensures var b := !LowOnes(k); forall j | 0 <= j < 8 :: Bit(b, j) == (j >= k)
  {
    var b := LowOnes(k);
    assert Bit(b, 0) == (0 < k) && Bit(b, 1) == (1 < k) && Bit(b, 2) == (2 < k) && Bit(b, 3) == (3 < k);
    assert Bit(b, 4) == (4 < k) && Bit(b, 5) == (5 < k) && Bit(b, 6) == (6 < k) && Bit(b, 7) == (7 < k);
    assert Bit(!b, 0) == (0 >= k) && Bit(!b, 1) == (1 >= k) && Bit(!b, 2) == (2 >= k) && Bit(!b, 3) == (3 >= k);
    assert Bit(!b, 4) == (4 >= k) && Bit(!b, 5) == (5 >= k) && Bit(!b, 6) == (6 >= k) && Bit(!b, 7) == (7 >= k);
  }

  predicate BitAt(b: bv8, j: int) {
    0 <= j < 8 && Bit(b, j)
  }

  predicate BlockedAt(b: bv8, x: int, n: int) {
    exists j | x <= j < x + n :: BitAt(b, j)
  }

  /** A byte that ends in c clear bits, behind set ones. */
  lemma ScanClearEnd(c: nat, missing: nat)
    requires 1 <= c <= 8 && 1 <= missing
    ensures ScanByte(LowOnes(8 - c), 0, missing) == if Sought(missing) <= c then (8 - c, Sought(missing)) else (-2, c)
  {
    hide Bit, ScanByte, Sought, LowOnes;
    var b := LowOnes(8 - c);
    LowOnesBits(8 - c);
    NarrowScan(b, 0, missing);
    var n := Sought(missing);
    var (rc, found) := ScanByte(b, 0, missing);
    assert rc >= 0 ==> !BitAt(b, rc);
    assert rc > 8 - c ==> BitAt(b, rc - 1);
    assert rc < 0 && n <= c ==> BlockedAt(b, 8 - c, n);
    assert rc < 0 && found < c ==> BitAt(b, 7 - found);
    assert rc < 0 && found > c ==> !BitAt(b, 8 - found);
  }

  /** A byte that ends in set bits, behind too few clear ones. */
  lemma ScanSetEnd(e: nat, missing: nat)
    requires 1 <= missing && e < Sought(missing) && e < 8
    ensures ScanByte(!LowOnes(e), 0, missing) == (-1, 0)
  {
    hide Bit, ScanByte, Sought, LowOnes;
    var b := !LowOnes(e);
    LowOnesBits(e);
    NarrowScan(b, 0, missing);
    var (rc, found) := ScanByte(b, 0, missing);
    assert rc >= 0 ==> !BitAt(b, rc + Sought(missing) - 1);
    assert rc < 0 && found > 0 ==> !BitAt(b, 7);
  }

  // ----- which gaps are never missed -----

  /** For this gap size, no call overlooks a gap that its window holds, nor reports a higher one. */
  ghost predicate NeverMisses(gap: nat) {
    forall s, totalBits: nat, addr: nat, count: nat, x: nat |
      && Callable(s, totalBits, addr, count, gap)
      && addr <= x && x + gap <= WindowEnd(totalBits, addr, count) && ClearRun(View(s), x, gap) ::
      Find(s, totalBits, addr, count, gap).code == 0 && Find(s, totalBits, addr, count, gap).address <= x
  }

  /** A length that narrows to 1 makes the search report the first clear bit it comes to. */
  lemma {:induction false} FirstClearBitIsFound(s: seq<bv8>, gap: nat, loc: nat, aligned: nat, count: nat, x: nat)
    requires Room(|s|, gap, loc, aligned, count, gap, None) && Sought(gap) == 1
    requires 8 * loc + aligned <= x && x + gap <= 8 * loc + aligned + count && ClearRun(View(s), x, gap)
    ensures var res := FindScan(s, gap, loc, aligned, count, gap, None); res.code == 0 && res.address <= x
    decreases count
  {
    hide Bit, View, ScanByte, Sought;
    var v := View(s);
    var (rc, c) := ScanByte(s[loc], aligned, gap);
    NarrowScan(s[loc], aligned, gap);
    Bitmap.ViewByte(s, loc);
    var stop := if rc >= 0 then rc else 8;
    forall k | 8 * loc + aligned <= k < 8 * loc + stop
      ensures v[k]
    {
      assert Blocked(s[loc], k - 8 * loc, 1);
      assert v[8 * loc + (k - 8 * loc)] == Bit(s[loc], k - 8 * loc);
    }
    assert !v[x];
    if rc < 0 {
      RoomForNextByte(|s|, gap, loc, aligned, count, gap, None, gap, None);
      FirstClearBitIsFound(s, gap, loc + 1, 0, LeftAfter(aligned, count), x);
    }
  }

  /** Clear bytes are credited with all their bits as long as the scan is not content with fewer. */
  lemma {:induction false} ClearBytesAreCarried(s: seq<bv8>, gap: nat, loc: nat, k: nat, count: nat, missing: nat,
                                                at: nat)
    requires Room(|s|, gap, loc, 0, count, missing, Some(at)) && 8 * k < count && 8 * k < missing
    requires missing % 8 == 0 || 8 * k <= missing % TWO_TO_THE_32
    requires loc + k <= |s| && forall i | loc <= i < loc + k :: s[i] == LowOnes(0)
    ensures Room(|s|, gap, loc + k, 0, count - 8 * k, missing - 8 * k, Some(at))
    ensures FindScan(s, gap, loc, 0, count, missing, Some(at))
            == FindScan(s, gap, loc + k, 0, count - 8 * k, missing - 8 * k, Some(at))
    decreases k
  {
    hide ScanByte, LowOnes, Sought;
    if k > 0 {
      ScanClearEnd(8, missing);
      NotContent(missing);
      RoomForNextByte(|s|, gap, loc, 0, count, missing, Some(at), missing - 8, Some(at));
      StillNotContent(missing, k);
      ClearBytesAreCarried(s, gap, loc + 1, k - 1, count - 8, missing - 8, at);
    }
  }

  lemma NotContent(missing: nat)
    requires missing > 0 && (missing % 8 == 0 || 8 <= missing % TWO_TO_THE_32)
    ensures Sought(missing) >= 8
  {
    RemainderModEight(missing, missing % TWO_TO_THE_32);
  }

  lemma StillNotContent(missing: nat, k: nat)
    requires k > 0 && 8 * k < missing
    requires missing % 8 == 0 || 8 * k <= missing % TWO_TO_THE_32
    ensures (missing - 8) % 8 == 0 || 8 * (k - 1) <= (missing - 8) % TWO_TO_THE_32
  {
    if missing % 8 != 0 {
      RemainderIs(missing - 8, missing / TWO_TO_THE_32, missing % TWO_TO_THE_32 - 8);
    }
  }

  lemma RemainderModEight(n: nat, remainder: nat)
    requires remainder == n % TWO_TO_THE_32
    ensures remainder % 8 == n % 8
  {
    var q := n / TWO_TO_THE_32;
    assert n == 8 * (0x2000_0000 * q) + remainder;
    EightsDropOut(0x2000_0000 * q, remainder);
  }

  lemma EightsDropOut(q: nat, r: nat)
    ensures (8 * q + r) % 8 == r % 8
  {
  }

  lemma RemainderIs(n: nat, quotient: nat, remainder: nat)
    requires n == TWO_TO_THE_32 * quotient + remainder && remainder < TWO_TO_THE_32
    ensures n % TWO_TO_THE_32 == remainder
  {
  }

  /** The bits of a gap in its first byte, and in its last, for a map on which the search goes wrong. */
  function HeadBits(gap: nat): (c: nat)
    ensures 1 <= c <= 2
    ensures (gap - c) % 8 != 0
  {
    if gap % 8 == 1 then 2 else 1
  }

  function TailBits(gap: nat): (e: nat)
    requires gap >= 2
    ensures 1 <= e < 8
  {
    (gap - HeadBits(gap)) % 8
  }

  /** The byte in which the gap ends. */
  function TailByte(gap: nat): nat
    requires gap >= 2
  {
    (gap - HeadBits(gap)) / 8 + 1
  }

  /** A map with one gap, which starts in byte 0 and ends in a byte whose other bits are set. */
  function MissedMap(gap: nat): seq<bv8>
    requires gap >= 2
  {
    hide LowOnes;
    seq(TailByte(gap) + gap + 1, i =>
      if i == 0 then LowOnes(8 - HeadBits(gap))
      else if i == TailByte(gap) then !LowOnes(TailBits(gap))
      else LowOnes(0))
  }

  function MissedWindow(gap: nat): nat
    requires gap >= 2
  {
    8 * TailByte(gap) + 8
  }

  lemma MissedMapHoldsGap(gap: nat)
    requires gap >= 2
    ensures ClearRun(View(MissedMap(gap)), 8 - HeadBits(gap), gap)
    ensures gap <= MissedWindow(gap) <= gap + 16 && 8 - HeadBits(gap) + gap <= MissedWindow(gap)
  {
    hide Bit, LowOnes;
    var s := MissedMap(gap);
    LowOnesBits(8 - HeadBits(gap));
    LowOnesBits(TailBits(gap));
    LowOnesBits(0);
    forall k | 8 - HeadBits(gap) <= k < 8 - HeadBits(gap) + gap
      ensures !View(s)[k]
    {
      assert k == 8 * (k / 8) + k % 8;
    }
  }

  /** How the scan of the map's first byte goes. */
  lemma HeadIsCarried(gap: nat)
    requires gap > TWO_TO_THE_32 && gap % TWO_TO_THE_32 != 1
    ensures Sought(gap) > HeadBits(gap) && gap - HeadBits(gap) > TWO_TO_THE_32
  {
    RemainderModEight(gap, gap % TWO_TO_THE_32);
  }

  /** Clear bytes up to and with the one whose scan is content with e bits. */
  lemma FirstStretch(s: seq<bv8>, gap: nat, q: nat, j: nat, e: nat, count: nat, at: nat)
    requires 1 <= q && 1 <= e < 8 && 8 * j + e < TWO_TO_THE_32 && 8 * j + 8 < count
    requires Room(|s|, gap, 1, 0, count, TWO_TO_THE_32 * q + 8 * j + e, Some(at))
    requires j + 2 <= |s| && forall i | 1 <= i < j + 2 :: s[i] == LowOnes(0)
    ensures Room(|s|, gap, j + 2, 0, count - 8 * j - 8, TWO_TO_THE_32 * q, Some(at))
    ensures FindScan(s, gap, 1, 0, count, TWO_TO_THE_32 * q + 8 * j + e, Some(at))
            == FindScan(s, gap, j + 2, 0, count - 8 * j - 8, TWO_TO_THE_32 * q, Some(at))
  {
    hide ScanByte, LowOnes, Sought;
    ClearBytesAreCarried(s, gap, 1, j, count, TWO_TO_THE_32 * q + 8 * j + e, at);
    ScanClearEnd(8, TWO_TO_THE_32 * q + e);
    SoughtAbove(q, e);
    RoomForNextByte(|s|, gap, 1 + j, 0, count - 8 * j, TWO_TO_THE_32 * q + e, Some(at), TWO_TO_THE_32 * q, Some(at));
  }

  lemma SoughtAbove(q: nat, e: nat)
    requires 1 <= e < 8
    ensures Sought(TWO_TO_THE_32 * q + e) == e
  {
  }

  /** The other clear bytes, and the byte in which the gap ends before the search has all its bits. */
  lemma SecondStretch(s: seq<bv8>, gap: nat, q: nat, loc: nat, e: nat, at: nat)
    requires 1 <= q && 1 <= e < 8
    requires var k := 0x2000_0000 * q - 1;
             && Room(|s|, gap, loc, 0, 8 * k + 8, TWO_TO_THE_32 * q, Some(at))
             && loc + k < |s| && s[loc + k] == !LowOnes(e) && forall i | loc <= i < loc + k :: s[i] == LowOnes(0)
    ensures FindScan(s, gap, loc, 0, 0x1_0000_0000 * q, TWO_TO_THE_32 * q, Some(at)) == FindResult(-1, 0)
  {
    hide ScanByte, LowOnes, Sought;
    var k := 0x2000_0000 * q - 1;
    ClearBytesAreCarried(s, gap, loc, k, 8 * k + 8, TWO_TO_THE_32 * q, at);
    SoughtAbove(0, 7);
    ScanSetEnd(e, 8);
    assert FindScan(s, gap, loc + k, 0, 8, 8, Some(at)) == FindResult(-1, 0);
  }

  lemma MissedMapBytes(gap: nat)
    requires gap >= 2
    ensures var s, last := MissedMap(gap), TailByte(gap);
            && |s| == last + gap + 1 && s[0] == LowOnes(8 - HeadBits(gap)) && s[last] == !LowOnes(TailBits(gap))
            && forall i | 1 <= i < last :: s[i] == LowOnes(0)
  {
    hide LowOnes;
  }

  /** The clear bits at the end of byte 0 are carried. */
  lemma FirstByteIsCarried(s: seq<bv8>, gap: nat, c: nat, count: nat)
    requires 1 <= c <= 8 && c < Sought(gap) && c < gap && 8 < count && |s| > 0 && s[0] == LowOnes(8 - c)
    requires Room(|s|, gap, 0, 0, count, gap, None)
    ensures Room(|s|, gap, 1, 0, count - 8, gap - c, Some(8 - c))
    ensures FindScan(s, gap, 0, 0, count, gap, None) == FindScan(s, gap, 1, 0, count - 8, gap - c, Some(8 - c))
  {
    hide ScanByte, LowOnes, Sought;
    ScanClearEnd(c, gap);
    RoomForNextByte(|s|, gap, 0, 0, count, gap, None, gap - c, Some(8 - c));
  }

  /** Above 2^32 bits the search misses this map's gap: where the missing length narrows to the bits of
      the gap's last byte, a whole clear byte is credited with only so many. */
  lemma WideGapIsMissed(gap: nat)
    requires gap > TWO_TO_THE_32 && gap % TWO_TO_THE_32 != 1
    ensures Find(MissedMap(gap), MissedWindow(gap), 0, MissedWindow(gap), gap) == FindResult(-1, 0)
  {
    hide ScanByte, Bit, LowOnes, Sought, FindScan, MissedMap, HeadBits, ClearRun;
    var s, head, e, last := MissedMap(gap), HeadBits(gap), TailBits(gap), TailByte(gap);
    var left := gap - head;
    var q, j := left / TWO_TO_THE_32, left % TWO_TO_THE_32 / 8;
    MissedMapBytes(gap);
    MissedMapHoldsGap(gap);
    HeadIsCarried(gap);
    WideTail(left, q, j, e);
    FirstByteIsCarried(s, gap, head, MissedWindow(gap));
    FirstStretch(s, gap, q, j, e, 8 * last, 8 - head);
    SecondStretch(s, gap, q, j + 2, e, 8 - head);
  }

  lemma WideTail(left: nat, q: nat, j: nat, e: nat)
    requires left > TWO_TO_THE_32 && e == left % 8
    requires q == left / TWO_TO_THE_32 && j == left % TWO_TO_THE_32 / 8
    ensures left == TWO_TO_THE_32 * q + 8 * j + e && q >= 1 && 8 * j + e < TWO_TO_THE_32
    ensures left / 8 == 0x2000_0000 * q + j
  {
    var r := left % TWO_TO_THE_32;
    assert left == TWO_TO_THE_32 * q + r;
    assert r == 8 * (r / 8) + r % 8 && r % 8 == left % 8;
  }

  /** A call whose window holds a gap at x reports a gap, no higher than x. */
  lemma FindNeverMisses(s: seq<bv8>, totalBits: nat, addr: nat, count: nat, gap: nat, x: nat)
    requires Callable(s, totalBits, addr, count, gap)
    requires gap <= TWO_TO_THE_32 || gap % TWO_TO_THE_32 == 1
    requires addr <= x && x + gap <= WindowEnd(totalBits, addr, count) && ClearRun(View(s), x, gap)
    ensures Find(s, totalBits, addr, count, gap).code == 0 && Find(s, totalBits, addr, count, gap).address <= x
  {
    hide Bit, View, FindScan;
    if gap <= TWO_TO_THE_32 {
      hide Find;
      FindMeaning(s, totalBits, addr, count, gap);
    } else {
      assert ToInt32(gap) == 1;
      FirstClearBitIsFound(s, gap, addr / 8, addr % 8, Clipped(totalBits, addr, count), x);
    }
  }

  /** bm_find never misses a gap of this size, whatever the map and the window, if and only if the size
      is at most 2^32 bits or narrows to 1. (Sizes that leave no 64-bit window are not asked for.) */
  lemma NeverMissesExactly(gap: nat)
    requires 0 < gap && gap + 16 < TWO_TO_THE_64
    ensures NeverMisses(gap) <==> gap <= TWO_TO_THE_32 || gap % TWO_TO_THE_32 == 1
  {
    hide Find, Bit, View, MissedMap, OutcomeMeaning;
    if gap <= TWO_TO_THE_32 || gap % TWO_TO_THE_32 == 1 {
      forall s, totalBits: nat, addr: nat, count: nat, x: nat |
        && Callable(s, totalBits, addr, count, gap)
        && addr <= x && x + gap <= WindowEnd(totalBits, addr, count) && ClearRun(View(s), x, gap)
        ensures Find(s, totalBits, addr, count, gap).code == 0 && Find(s, totalBits, addr, count, gap).address <= x
      {
        FindNeverMisses(s, totalBits, addr, count, gap, x);
      }
    } else {
      MissedMapHoldsGap(gap);
      MissedMapBytes(gap);
      WideGapIsMissed(gap);
      assert Callable(MissedMap(gap), MissedWindow(gap), 0, MissedWindow(gap), gap);
    }
  }

  // ----- which reported gaps are clear -----

  /** A place where a clear run of the search begins: the start of the window or behind a set bit. */
  ghost predicate RunStart(v: seq<bool>, start: nat, x: nat) {
    start <= x < |v| && !v[x] && (x == start || v[x - 1])
  }

  /** Whatever the gap size, a reported address is where a clear run of the window's bytes starts. */
  lemma {:induction false} FoundStartsRun(s: seq<bv8>, gap: nat, loc: nat, aligned: nat, count: nat, missing: nat,
                                          carry: Option<nat>, start: nat, end: nat)
    requires Room(|s|, gap, loc, aligned, count, missing, carry) && start <= 8 * loc + aligned
    requires count > 0 ==> RoundUp(8 * loc + aligned + count) == end
    requires carry.None? ==> start == 8 * loc + aligned || View(s)[8 * loc + aligned - 1]
    requires aligned > 0 ==> start == 8 * loc + aligned
    requires carry.Some? ==> RunStart(View(s), start, carry.value) && carry.value < end
    ensures var res := FindScan(s, gap, loc, aligned, count, missing, carry);
            res.code == 0 ==> RunStart(View(s), start, res.address) && res.address < end
    decreases count, missing
  {
    hide Bit, View, ScanByte, Sought, RunStart, FindScan;
    FindScanUnfolds(s, gap, loc, aligned, count, missing, carry);
    var (rc, c) := ScanByte(s[loc], aligned, missing);
    NarrowScan(s[loc], aligned, missing);
    var left := LeftAfter(aligned, count);
    if carry.None? {
      ByteStartsRun(s, loc, aligned, start, rc, c, Sought(missing));
      RoundUpWindow(loc, aligned, count, left);
    }
    if rc >= 0 {
      if carry.Some? && missing > c {
        RoundUpWindow(loc, aligned, count, left);
        FoundStartsRun(s, gap, loc + 1, 0, left, missing - c, carry, start, end);
      }
    } else if rc == -1 {
      if !(gap > left || left == 0) {
        RoundUpWindow(loc, aligned, count, left);
        ByteEndsSet(s, loc, aligned, Sought(missing));
        FoundStartsRun(s, gap, loc + 1, 0, left, gap, None, start, end);
      }
    } else {
      var carry' := if carry.Some? then carry else Some(8 * (loc + 1) - c);
      RoundUpWindow(loc, aligned, count, left);
      FoundStartsRun(s, gap, loc + 1, 0, left, missing - c, carry', start, end);
    }
  }

  lemma RoundUpWindow(loc: nat, aligned: nat, count: nat, left: nat)
    requires aligned < 8 && left == LeftAfter(aligned, count)
    ensures left > 0 ==> RoundUp(8 * (loc + 1) + left) == RoundUp(8 * loc + aligned + count)
    ensures count > 0 ==> 8 * loc + 8 <= RoundUp(8 * loc + aligned + count)
  {
  }

  /** A byte searched with nothing carried: its find, or its clear end, starts a run. */
  lemma ByteStartsRun(s: seq<bv8>, loc: nat, aligned: nat, start: nat, rc: int, c: nat, n: nat)
    requires loc < |s| && aligned < 8 && start <= 8 * loc + aligned && n > 0
    requires start == 8 * loc + aligned || View(s)[8 * loc + aligned - 1]
    requires GapMeaning(s[loc], aligned, n, rc, c)
    ensures rc >= 0 ==> RunStart(View(s), start, 8 * loc + rc)
    ensures rc == -2 ==> RunStart(View(s), start, 8 * (loc + 1) - c)
  {
    hide Bit, View;
    Bitmap.ViewByte(s, loc);
    var v := View(s);
    if rc >= 0 {
      assert v[8 * loc + rc] == Bit(s[loc], rc);
      if rc > aligned {
        assert v[8 * loc + (rc - 1)] == Bit(s[loc], rc - 1);
      }
    } else if rc == -2 {
      assert v[8 * loc + (8 - c)] == Bit(s[loc], 8 - c);
      if aligned + c < 8 {
        assert v[8 * loc + (7 - c)] == Bit(s[loc], 7 - c);
      }
    }
  }

  lemma ByteEndsSet(s: seq<bv8>, loc: nat, aligned: nat, n: nat)
    requires loc < |s| && aligned < 8 && GapMeaning(s[loc], aligned, n, -1, 0)
    ensures View(s)[8 * loc + 7]
  {
    hide Bit, View;
    Bitmap.ViewByte(s, loc);
    assert View(s)[8 * loc + 7] == Bit(s[loc], 7);
  }

  lemma FoundAddressStartsRun(s: seq<bv8>, totalBits: nat, addr: nat, count: nat, gap: nat)
    requires Callable(s, totalBits, addr, count, gap) && Find(s, totalBits, addr, count, gap).code == 0
    ensures var at := Find(s, totalBits, addr, count, gap).address;
            RunStart(View(s), addr, at) && at < RoundUp(WindowEnd(totalBits, addr, count))
  {
    hide Bit, View, FindScan;
    FoundStartsRun(s, gap, addr / 8, addr % 8, Clipped(totalBits, addr, count), gap, None, addr,
                   RoundUp(WindowEnd(totalBits, addr, count)));
  }

  /** Every clear run that starts in [start, end) has `gap` bits; for gaps of at most 2^32 bits, only
      those that reach the end of the byte they start in have to. */
  ghost predicate RunsAreLong(v: seq<bool>, start: nat, end: nat, gap: nat) {
    forall x: nat | RunStart(v, start, x) && x < end && (gap <= TWO_TO_THE_32 ==> ClearUpTo(v, x, NextByte(x))) ::
      ClearRun(v, x, gap)
  }

  /** On a map whose clear runs are long enough, a reported gap is clear. */
  lemma FindIsSoundOnLongRuns(s: seq<bv8>, totalBits: nat, addr: nat, count: nat, gap: nat)
    requires Callable(s, totalBits, addr, count, gap)
    requires RunsAreLong(View(s), addr, RoundUp(WindowEnd(totalBits, addr, count)), gap)
    requires Find(s, totalBits, addr, count, gap).code == 0
    ensures ClearRun(View(s), Find(s, totalBits, addr, count, gap).address, gap)
  {
    hide Bit, View, Find, RunStart;
    FoundAddressStartsRun(s, totalBits, addr, count, gap);
    if gap <= TWO_TO_THE_32 {
      FindMeaning(s, totalBits, addr, count, gap);
    }
  }

  /** For this gap size, what any call on any map reports is clear. */
  ghost predicate AlwaysSound(gap: nat) {
    forall s, totalBits: nat, addr: nat, count: nat |
      Callable(s, totalBits, addr, count, gap) && Find(s, totalBits, addr, count, gap).code == 0 ::
      ClearRun(View(s), Find(s, totalBits, addr, count, gap).address, gap)
  }

  /** Over clear bytes a carried search always ends with the carried address. */
  lemma {:induction false} ClearBytesCompleteCarry(s: seq<bv8>, gap: nat, loc: nat, count: nat, missing: nat, at: nat)
    requires Room(|s|, gap, loc, 0, count, missing, Some(at))
    requires forall i | loc <= i < |s| :: s[i] == LowOnes(0)
    ensures FindScan(s, gap, loc, 0, count, missing, Some(at)) == FindResult(0, at)
    decreases missing
  {
    hide ScanByte, LowOnes, Sought;
    RoomForThisByte(|s|, gap, loc, 0, count, missing, Some(at));
    ScanClearEnd(8, missing);
    var (rc, c) := ScanByte(s[loc], 0, missing);
    if c < missing {
      RoomForNextByte(|s|, gap, loc, 0, count, missing, Some(at), missing - c, Some(at));
      ClearBytesCompleteCarry(s, gap, loc + 1, LeftAfter(0, count), missing - c, at);
    }
  }

  /** One clear bit, a set one behind the byte boundary, and then only clear ones. */
  function BrokenMap(gap: nat): seq<bv8> {
    hide LowOnes;
    seq(gap + 8 + gap / 8, i => if i == 0 then LowOnes(7) else if i == 1 then LowOnes(1) else LowOnes(0))
  }

  /** The search carries the clear bit at 7 over the set bit at 8. */
  lemma BrokenGapIsReported(gap: nat)
    requires gap >= 2
    ensures Find(BrokenMap(gap), gap + 16, 0, gap + 16, gap) == FindResult(0, 7)
    ensures !ClearRun(View(BrokenMap(gap)), 7, gap)
  {
    hide ScanByte, LowOnes, Sought, Bit;
    var s := BrokenMap(gap);
    ScanClearEnd(1, gap);
    LowOnesBits(1);
    assert View(s)[8] == Bit(LowOnes(1), 0);
    if Sought(gap) > 1 {
      FirstByteIsCarried(s, gap, 1, gap + 16);
      SecondByteIsCredited(s, gap);
    }
  }

  lemma SecondByteIsCredited(s: seq<bv8>, gap: nat)
    requires gap >= 2 && |s| >= 2 && s[1] == LowOnes(1) && forall i | 2 <= i < |s| :: s[i] == LowOnes(0)
    requires Room(|s|, gap, 1, 0, gap + 8, gap - 1, Some(7))
    ensures FindScan(s, gap, 1, 0, gap + 8, gap - 1, Some(7)) == FindResult(0, 7)
  {
    hide ScanByte, LowOnes, Sought;
    ScanClearEnd(7, gap - 1);
    var (rc, c) := ScanByte(s[1], 0, gap - 1);
    if c < gap - 1 {
      RoomForNextByte(|s|, gap, 1, 0, gap + 8, gap - 1, Some(7), gap - 1 - c, Some(7));
      ClearBytesCompleteCarry(s, gap, 2, LeftAfter(0, gap + 8), gap - 1 - c, 7);
    }
  }

  /** What bm_find reports is clear on every map, for every window, if and only if it looks for one bit.
      (Sizes that leave no 64-bit window are not asked for.) */
  lemma FindIsSoundExactly(gap: nat)
    requires 0 < gap && gap + 16 < TWO_TO_THE_64
    ensures AlwaysSound(gap) <==> gap == 1
  {
    hide Bit, View, Find, BrokenMap;
    if gap == 1 {
      forall s, totalBits: nat, addr: nat, count: nat |
        Callable(s, totalBits, addr, count, gap) && Find(s, totalBits, addr, count, gap).code == 0
        ensures ClearRun(View(s), Find(s, totalBits, addr, count, gap).address, gap)
      {
        FoundAddressStartsRun(s, totalBits, addr, count, gap);
      }
    } else {
      BrokenGapIsReported(gap);
      BrokenMapLength(gap);
      assert Callable(BrokenMap(gap), gap + 16, 0, gap + 16, gap);
    }
  }

  lemma BrokenMapLength(gap: nat)
    ensures |BrokenMap(gap)| == gap + 8 + gap / 8
  {
  }

  // ----- which reported gaps lie inside the window -----

  /** On every map, a gap that the call reports lies inside its window. */
  ghost predicate StaysInWindow(totalBits: nat, addr: nat, count: nat, gap: nat)
    requires addr <= totalBits
  {
    forall s | Callable(s, totalBits, addr, count, gap) && Find(s, totalBits, addr, count, gap).code == 0 ::
      Find(s, totalBits, addr, count, gap).address + gap <= WindowEnd(totalBits, addr, count)
  }

  /** The search has room for the gap behind every bit of the first byte, and the last byte in which it
      still looks for a new gap has such room as well. */
  predicate RoomBehindBytes(addr: nat, end: nat, gap: nat) {
    8 * (addr / 8) + 7 + gap <= end && (end - gap) % 8 == 7
  }

  lemma {:induction false} FoundGapFits(s: seq<bv8>, gap: nat, loc: nat, aligned: nat, count: nat, missing: nat,
                                        carry: Option<nat>, end: nat)
    requires Room(|s|, gap, loc, aligned, count, missing, carry)
    requires gap <= end && (end - gap) % 8 == 7
    requires count > 0 ==> 8 * loc + aligned + count == end
    requires if carry.Some? then carry.value + gap <= end else 8 * loc + 7 + gap <= end
    ensures var res := FindScan(s, gap, loc, aligned, count, missing, carry);
            res.code == 0 ==> res.address + gap <= end
    decreases count, missing
  {
    hide Bit, ScanByte, Sought, FindScan, Room;
    FindScanUnfolds(s, gap, loc, aligned, count, missing, carry);
    var (rc, c) := ScanByte(s[loc], aligned, missing);
    NarrowScan(s[loc], aligned, missing);
    var left := LeftAfter(aligned, count);
    if rc >= 0 {
      if carry.Some? && missing > c {
        FoundGapFits(s, gap, loc + 1, 0, left, missing - c, carry, end);
      }
    } else if rc == -1 {
      if !(gap > left || left == 0) {
        FoundGapFits(s, gap, loc + 1, 0, left, gap, None, end);
      }
    } else {
      var carry' := if carry.Some? then carry else Some(8 * (loc + 1) - c);
      FoundGapFits(s, gap, loc + 1, 0, left, missing - c, carry', end);
    }
  }

  lemma ScanFull(aligned: nat, missing: nat)
    requires aligned < 8 && 1 <= missing
    ensures ScanByte(LowOnes(8), aligned, missing) == (-1, 0)
  {
    hide Bit, ScanByte, Sought, LowOnes;
    var b := LowOnes(8);
    LowOnesBits(8);
    NarrowScan(b, aligned, missing);
    var (rc, found) := ScanByte(b, aligned, missing);
    assert rc >= 0 ==> !BitAt(b, rc);
    assert rc < 0 && found > 0 ==> !BitAt(b, 7);
  }

  lemma ScanLastBitClear(aligned: nat, missing: nat)
    requires aligned < 8 && 1 <= missing
    ensures ScanByte(LowOnes(7), aligned, missing) == if Sought(missing) == 1 then (7, 1) else (-2, 1)
  {
    hide Bit, ScanByte, Sought, LowOnes;
    var b := LowOnes(7);
    LowOnesBits(7);
    NarrowScan(b, aligned, missing);
    var n := Sought(missing);
    var (rc, found) := ScanByte(b, aligned, missing);
    assert rc >= 0 ==> !BitAt(b, rc);
    assert rc < 0 && n == 1 ==> BlockedAt(b, 7, 1);
    assert rc < 0 && found == 0 ==> BitAt(b, 7);
    assert rc < 0 && found > 1 ==> !BitAt(b, 6);
  }

  /** Bytes of ones are skipped as long as the gap fits behind them. */
  lemma {:induction false} FullBytesAreSkipped(s: seq<bv8>, gap: nat, loc: nat, aligned: nat, count: nat, k: nat)
    requires Room(|s|, gap, loc, aligned, count, gap, None)
    requires loc + k <= |s| && forall i | loc <= i < loc + k :: s[i] == LowOnes(8)
    requires k > 0 ==> 8 * (loc + k) + gap <= 8 * loc + aligned + count
    ensures var a, left := if k == 0 then aligned else 0, if k == 0 then count else count + aligned - 8 * k;
            && Room(|s|, gap, loc + k, a, left, gap, None)
            && FindScan(s, gap, loc, aligned, count, gap, None) == FindScan(s, gap, loc + k, a, left, gap, None)
    decreases k
  {
    hide ScanByte, LowOnes;
    if k > 0 {
      ScanFull(aligned, gap);
      RoomForNextByte(|s|, gap, loc, aligned, count, gap, None, gap, None);
      FullBytesAreSkipped(s, gap, loc + 1, 0, count - (8 - aligned), k - 1);
    }
  }

  /** From a byte whose last bit alone is clear, with only clear bytes behind it, that bit is reported. */
  lemma LastBitIsReported(s: seq<bv8>, gap: nat, loc: nat, aligned: nat, count: nat)
    requires Room(|s|, gap, loc, aligned, count, gap, None)
    requires loc < |s| && s[loc] == LowOnes(7) && forall i | loc < i < |s| :: s[i] == LowOnes(0)
    ensures FindScan(s, gap, loc, aligned, count, gap, None) == FindResult(0, 8 * loc + 7)
  {
    hide ScanByte, LowOnes, Sought;
    ScanLastBitClear(aligned, gap);
    if Sought(gap) != 1 {
      var left := LeftAfter(aligned, count);
      RoomForNextByte(|s|, gap, loc, aligned, count, gap, None, gap - 1, Some(8 * loc + 7));
      ClearBytesCompleteCarry(s, gap, loc + 1, left, gap - 1, 8 * loc + 7);
    }
  }

  /** Ones up to the last bit of byte `last`, and only clear bits from there on. */
  function SpillingMap(length: nat, last: nat): (s: seq<bv8>)
    ensures |s| == length
  {
    hide LowOnes;
    seq(length, i => if i < last then LowOnes(8) else if i == last then LowOnes(7) else LowOnes(0))
  }

  /** The last byte in which a search still looks for a new gap. */
  function LastFreshByte(addr: nat, end: nat, gap: nat): nat {
    if 8 * (addr / 8) + 7 + gap > end then addr / 8 else (end - gap) / 8
  }

  /** Without such room, a gap is reported that ends behind the window. */
  lemma GapIsSpilled(totalBits: nat, addr: nat, count: nat, gap: nat)
    requires GoodArguments(totalBits, addr, count, gap) && addr + count < TWO_TO_THE_64
    requires !RoomBehindBytes(addr, WindowEnd(totalBits, addr, count), gap)
    ensures var end := WindowEnd(totalBits, addr, count);
            var s := SpillingMap((end + 7) / 8 + gap, LastFreshByte(addr, end, gap));
            && Callable(s, totalBits, addr, count, gap)
            && Find(s, totalBits, addr, count, gap) == FindResult(0, 8 * LastFreshByte(addr, end, gap) + 7)
            && 8 * LastFreshByte(addr, end, gap) + 7 + gap > end
  {
    hide ScanByte, LowOnes, FindScan;
    var end := WindowEnd(totalBits, addr, count);
    var last := LastFreshByte(addr, end, gap);
    var s := SpillingMap((end + 7) / 8 + gap, last);
    var loc, aligned := addr / 8, addr % 8;
    assert addr == 8 * loc + aligned && loc <= last < |s|;
    FullBytesAreSkipped(s, gap, loc, aligned, end - addr, last - loc);
    if last == loc {
      LastBitIsReported(s, gap, loc, aligned, end - addr);
    } else {
      LastBitIsReported(s, gap, last, 0, end - 8 * last);
    }
  }

  /** Whatever the map, what a call of bm_find reports lies inside its window, if and only if the window's
      end leaves room for the gap behind the first byte and is one bit short of a byte boundary, counted
      from the gap's length. */
  lemma StaysInWindowExactly(totalBits: nat, addr: nat, count: nat, gap: nat)
    requires GoodArguments(totalBits, addr, count, gap) && addr + count < TWO_TO_THE_64
    ensures StaysInWindow(totalBits, addr, count, gap)
            <==> RoomBehindBytes(addr, WindowEnd(totalBits, addr, count), gap)
  {
    hide FindScan, SpillingMap;
    var end := WindowEnd(totalBits, addr, count);
    if RoomBehindBytes(addr, end, gap) {
      forall s | Callable(s, totalBits, addr, count, gap) && Find(s, totalBits, addr, count, gap).code == 0
        ensures Find(s, totalBits, addr, count, gap).address + gap <= end
      {
        FoundGapFits(s, gap, addr / 8, addr % 8, Clipped(totalBits, addr, count), gap, None, end);
      }
    } else {
      GapIsSpilled(totalBits, addr, count, gap);
    }
  }
}
