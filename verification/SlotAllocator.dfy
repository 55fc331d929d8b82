/** The slot allocator of fs/kfs_slot.c: its bitmap and its two in-use counters. Block I/O is taken
    to succeed and the slot table itself is not modelled. */
module SlotAllocator {
  import opened Bytes
  import opened BitmapFind
  import Bitmap
  import MkfsLayout

  /** The bits of the slot map, the superblock's capacity and counter, and the map header's
      32-bit copies of them. */
  datatype Slots = Slots(bits: seq<bool>, capacity: nat, inUse: nat, mapInUse: nat, mapCapacity: nat) {
    ghost predicate WellFormed() {
      RoundUp(capacity) <= |bits|
    }

    /** The ids currently reserved. */
    ghost function Reserved(): set<nat> {
      set i: nat | i < capacity && i < |bits| && bits[i]
    }

    /** Every bit between the capacity and the end of the last byte is set. */
    ghost predicate SlackSet()
      requires WellFormed()
    {
      AllEqual(bits, capacity, RoundUp(capacity), true)
    }

    ghost predicate Full()
      requires WellFormed()
    {
      AllEqual(bits, 0, capacity, true)
    }

    /** One of the two "no more slots" guards trips. */
    predicate Refused() {
      inUse > capacity || mapInUse > mapCapacity
    }
  }

  datatype Outcome = Granted(id: nat) | Denied

  // ----- the two operations on values -----

  function Reserve(st: Slots): (Slots, Outcome)
    requires st.WellFormed()
  {
    var lowest := LowestClear(st.bits, 0, RoundUp(st.capacity));
    if st.Refused() || st.capacity == 0 || lowest.code != 0 then (st, Denied)
    else
      (Slots(if lowest.address < st.capacity then st.bits[lowest.address := true] else st.bits,
             st.capacity, (st.inUse + 1) % TWO_TO_THE_64,
             (st.inUse + 1) % TWO_TO_THE_64 % TWO_TO_THE_32, st.mapCapacity),
       Granted(lowest.address))
  }

  function Remove(st: Slots, id: nat): Slots
    requires st.WellFormed()
  {
    if id > st.capacity then st
    else
      Slots(if id < st.capacity then st.bits[id := false] else st.bits,
            st.capacity, (st.inUse - 1) % TWO_TO_THE_64, (st.inUse - 1) % TWO_TO_THE_64 % TWO_TO_THE_32,
            st.mapCapacity)
  }

  // ----- the code -----

  class SlotMap {
    var bitmap: array<bv8>
    var capacity: nat
    var inUse: nat
    var mapInUse: nat
    var mapCapacity: nat

    ghost predicate Valid()
      reads this, bitmap
    {
      RoundUp(capacity) <= 8 * bitmap.Length && capacity < TWO_TO_THE_64 / 2
    }

    ghost function State(): Slots
      reads this, bitmap
    {
      Slots(View(bitmap[..]), capacity, inUse, mapInUse, mapCapacity)
    }

    /** kfs_slot_reserve up to the write of the slot map. */
    method KfsSlotReserve() returns (rc: int, slotId: nat)
      requires Valid()
      modifies this`inUse, this`mapInUse, bitmap
      ensures Valid() && bitmap == old(bitmap)
      ensures State() == Reserve(old(State())).0
      ensures Reserve(old(State())).1 == if rc == 0 then Granted(slotId) else Denied
      ensures rc == 0 || rc == -1
    {
      hide View, Bit, FindScan, LowestClear;
      slotId := 0;
      if inUse > capacity {
        return -1, slotId;
      }
      if mapInUse > mapCapacity {
        return -1, slotId;
      }
      var totalSlots := capacity;
      if totalSlots > 0 {
        FindOneBit(bitmap[..], totalSlots, 0, totalSlots);
      }
      rc, slotId := BmFind(bitmap, totalSlots, 0, totalSlots, 1);
      if rc != 0 {
        return -1, slotId;
      }
      rc := Bitmap.BmSetBit(bitmap, totalSlots, slotId, true);
      inUse := (inUse + 1) % TWO_TO_THE_64;
      mapInUse := inUse % TWO_TO_THE_32;
      return 0, slotId;
    }

    /** kfs_slot_remove up to the write of the slot map. */
    method KfsSlotRemove(slotId: nat) returns (rc: int)
      requires Valid()
      modifies this`inUse, this`mapInUse, bitmap
      ensures Valid() && bitmap == old(bitmap)
      ensures State() == Remove(old(State()), slotId)
      ensures rc == if slotId > capacity then -1 else 0
    {
      hide View, Bit;
      if slotId > capacity {
        return -1;
      }
      var ignored := Bitmap.BmSetBit(bitmap, capacity, slotId, false);
      inUse := (inUse - 1) % TWO_TO_THE_64;
      mapInUse := inUse % TWO_TO_THE_32;
      return 0;
    }
  }

  // ----- what the operations mean on states whose counter is right -----

  /** The counter equals the number of reserved ids, and the header copies agree with it. */
  ghost predicate Counted(st: Slots) {
    && st.WellFormed()
    && st.capacity < TWO_TO_THE_32
    && st.inUse == |st.Reserved()| == st.mapInUse
    && st.mapCapacity == st.capacity
  }

  function Ids(n: nat): (ids: set<nat>)
    ensures |ids| == n && forall i: nat :: i in ids <==> i < n
  {
    if n == 0 then {} else Ids(n - 1) + {n - 1}
  }

  lemma ReservedFits(st: Slots)
    requires st.WellFormed()
    ensures |st.Reserved()| <= st.capacity
    ensures |st.Reserved()| == st.capacity <==> st.Full()
  {
    var all := Ids(st.capacity);
    SubsetSize(st.Reserved(), all);
    if st.Full() {
      assert st.Reserved() == all;
    } else {
      var k: nat :| k < st.capacity && !st.bits[k];
      assert k in all && k !in st.Reserved();
    }
  }

  lemma {:induction false} SubsetSize(a: set<nat>, b: set<nat>)
    requires a <= b
    ensures |a| <= |b|
    ensures |a| == |b| <==> a == b
    decreases |a|
  {
    if a != {} {
      var x :| x in a;
      SubsetSize(a - {x}, b - {x});
      assert a == (a - {x}) + {x} && b == (b - {x}) + {x};
    }
  }

  /** What changing the bit of one id does to the set of reserved ids. */
  lemma ReservedAfterUpdate(st: Slots, id: nat, val: bool)
    requires st.WellFormed() && id < st.capacity
    ensures var next := st.(bits := st.bits[id := val]);
            && next.Reserved() == (if val then st.Reserved() + {id} else st.Reserved() - {id})
            && (st.SlackSet() <==> next.SlackSet())
    ensures id in st.Reserved() <==> st.bits[id]
  {
    var next := st.(bits := st.bits[id := val]);
    assert forall k | st.capacity <= k < |st.bits| :: next.bits[k] == st.bits[k];
    assert next.Reserved() == if val then st.Reserved() + {id} else st.Reserved() - {id};
  }

  /** What a reserve does to the bits of a counted state that has a free id, or whose slack is set. */
  lemma ReserveTakesLowestBit(st: Slots)
    requires Counted(st) && (st.SlackSet() || !st.Full())
    ensures var (after, outcome) := Reserve(st);
            && (outcome == Denied <==> st.Full())
            && (outcome == Denied ==> after == st)
            && (outcome.Granted? ==>
                  && outcome.id < st.capacity && !st.bits[outcome.id]
                  && (forall i: nat | i < outcome.id :: st.bits[i])
                  && after == Slots(st.bits[outcome.id := true], st.capacity, (st.inUse + 1) % TWO_TO_THE_64,
                                    (st.inUse + 1) % TWO_TO_THE_64 % TWO_TO_THE_32, st.mapCapacity))
  {
    hide RunLen;
    ReservedFits(st);
    var ones := RunLen(st.bits, 0, RoundUp(st.capacity), true);
    assert ones < RoundUp(st.capacity) ==> ones < st.capacity;
  }

  /** A reserve on a counted state that has a free id, or whose slack is set: denied exactly when every
      id is reserved, and otherwise it grants the lowest id that is not, and reserves just that one. */
  lemma ReserveGrantsLowest(st: Slots)
    requires Counted(st) && (st.SlackSet() || !st.Full())
    ensures var (after, outcome) := Reserve(st);
            && Counted(after) && (after.SlackSet() <==> st.SlackSet()) && after.capacity == st.capacity
            && (outcome == Denied <==> |st.Reserved()| == st.capacity)
            && (outcome == Denied ==> after == st)
            && (outcome.Granted? ==>
                  && outcome.id < st.capacity && outcome.id !in st.Reserved()
                  && (forall i: nat | i < outcome.id :: i in st.Reserved())
                  && after.Reserved() == st.Reserved() + {outcome.id}
                  && after.bits == st.bits[outcome.id := true])
  {
    hide Reserve;
    ReservedFits(st);
    ReserveTakesLowestBit(st);
    var (after, outcome) := Reserve(st);
    if outcome.Granted? {
      ReservedAfterUpdate(st, outcome.id, true);
      assert after.Reserved() == st.(bits := st.bits[outcome.id := true]).Reserved();
    }
  }

  /** Removing a reserved id frees just that id. */
  lemma RemoveFreesId(st: Slots, id: nat)
    requires Counted(st) && id in st.Reserved()
    ensures var after := Remove(st, id);
            && Counted(after) && (after.SlackSet() <==> st.SlackSet()) && after.capacity == st.capacity
            && after.Reserved() == st.Reserved() - {id}
  {
    ReservedFits(st);
    ReservedAfterUpdate(st, id, false);
    var after := Remove(st, id);
    assert after.Reserved() == st.(bits := st.bits[id := false]).Reserved();
  }

  /** On a full map, a reserve is denied exactly when the slack bits are set; otherwise an id outside
      the map is granted and the counter no longer matches the map. */
  lemma FullMapDeniesExactly(st: Slots)
    requires Counted(st) && st.Full()
    ensures var (after, outcome) := Reserve(st);
            && (outcome == Denied <==> st.SlackSet())
            && (outcome.Granted? ==>
                  outcome.id >= st.capacity && after.Reserved() == st.Reserved()
                  && after.inUse == |after.Reserved()| + 1)
  {
    hide RunLen;
    ReservedFits(st);
    var to := RoundUp(st.capacity);
    var ones := RunLen(st.bits, 0, to, true);
    var after := Reserve(st).0;
    if ones < to {
      assert ones >= st.capacity;
      assert after.Reserved() == st.Reserved();
    }
  }

  /** Removing an id that is not reserved, or the id just past the last one, spoils the counter. */
  lemma RemoveOfFreeIdMiscounts(st: Slots, id: nat)
    requires Counted(st) && id <= st.capacity
    ensures var after := Remove(st, id);
            after.inUse == |after.Reserved()| <==> id in st.Reserved()
  {
    ReservedFits(st);
    var after := Remove(st, id);
    if id < st.capacity {
      ReservedAfterUpdate(st, id, false);
      assert after.Reserved() == st.(bits := st.bits[id := false]).Reserved();
    } else {
      assert after.Reserved() == st.Reserved();
    }
  }

  // ----- whole runs -----

  datatype Op = OpReserve | OpRemove(id: nat)

  function Step(st: Slots, op: Op): (next: Slots)
    requires st.WellFormed()
    ensures next.WellFormed()
  {
    match op
    case OpReserve => Reserve(st).0
    case OpRemove(id) => Remove(st, id)
  }

  function After(st: Slots, ops: seq<Op>): (last: Slots)
    requires st.WellFormed()
    ensures last.WellFormed()
    decreases |ops|
  {
    if ops == [] then st else Step(After(st, ops[..|ops| - 1]), ops[|ops| - 1])
  }

  /** Every id that is removed is reserved at that moment. */
  ghost predicate Disciplined(st: Slots, ops: seq<Op>)
    requires st.WellFormed()
    decreases |ops|
  {
    ops == [] ||
    var init := ops[..|ops| - 1];
    var last := ops[|ops| - 1];
    Disciplined(st, init) && (last.OpRemove? ==> last.id in After(st, init).Reserved())
  }

  /** No reserve is made while every id is reserved. */
  ghost predicate SparesFullMap(st: Slots, ops: seq<Op>)
    requires st.WellFormed()
    decreases |ops|
  {
    ops == [] ||
    var init := ops[..|ops| - 1];
    var last := ops[|ops| - 1];
    SparesFullMap(st, init) && (last.OpReserve? ==> !After(st, init).Full())
  }

  /** Over any disciplined run, the slack being set or no reserve being made on a full map, the counter
      equals the number of reserved ids. The next reserve then grants the lowest free id, or is denied
      because there is none; only a full map without its slack set is left out. */
  lemma {:induction false} RunGuarantee(st: Slots, ops: seq<Op>)
    requires Counted(st) && Disciplined(st, ops) && (st.SlackSet() || SparesFullMap(st, ops))
    ensures var last := After(st, ops);
            && Counted(last) && (last.SlackSet() <==> st.SlackSet()) && last.capacity == st.capacity
            && var outcome := Reserve(last).1;
               if last.SlackSet() && |last.Reserved()| == st.capacity then outcome == Denied
               else |last.Reserved()| < st.capacity ==>
                 && outcome.Granted? && outcome.id < st.capacity && outcome.id !in last.Reserved()
                 && forall i: nat | i < outcome.id :: i in last.Reserved()
    decreases |ops|
  {
    if ops != [] {
      var init := ops[..|ops| - 1];
      RunGuarantee(st, init);
      match ops[|ops| - 1] {
        case OpReserve => ReserveGrantsLowest(After(st, init));
        case OpRemove(id) => RemoveFreesId(After(st, init), id);
      }
    }
    var last := After(st, ops);
    ReservedFits(last);
    if last.SlackSet() || !last.Full() {
      ReserveGrantsLowest(last);
    }
  }

  // ----- the slack bits -----

  /** A slot map as the file system maker writes it: no id reserved, no slack bit set. */
  function Zeroed(capacity: nat): (st: Slots)
    ensures st.WellFormed()
  {
    Slots(seq(RoundUp(capacity), _ => false), capacity, 0, 0, capacity)
  }

  function Reserves(n: nat): seq<Op> {
    seq(n, _ => OpReserve)
  }

  /** n reserves of a zeroed map take the ids 0 up to n. */
  lemma {:induction false} ReservesFill(capacity: nat, n: nat)
    requires n <= capacity < TWO_TO_THE_32
    ensures var last := After(Zeroed(capacity), Reserves(n));
            && Counted(last) && last.capacity == capacity && |last.bits| == RoundUp(capacity)
            && forall k: nat | k < |last.bits| :: last.bits[k] == (k < n)
  {
    hide Reserve;
    if n == 0 {
      assert Zeroed(capacity).Reserved() == {};
    } else {
      ReservesFill(capacity, n - 1);
      assert Reserves(n)[..n - 1] == Reserves(n - 1);
      NextReserve(After(Zeroed(capacity), Reserves(n - 1)), n - 1);
    }
  }

  lemma NextReserve(st: Slots, n: nat)
    requires Counted(st) && n < st.capacity && forall k: nat | k < |st.bits| :: st.bits[k] == (k < n)
    ensures var after := Reserve(st).0;
            && Counted(after) && after.capacity == st.capacity && |after.bits| == |st.bits|
            && forall k: nat | k < |st.bits| :: after.bits[k] == (k < n + 1)
  {
    hide Reserve, Counted;
    assert st.WellFormed() && !st.bits[n] by { CountedIsWellFormed(st); }
    ReserveTakesLowestBit(st);
    ReserveGrantsLowest(st);
  }

  lemma CountedIsWellFormed(st: Slots)
    requires Counted(st)
    ensures st.WellFormed()
  {
  }

  /** A zeroed map whose capacity is not a whole number of bytes is filled by that many reserves, and the
      next reserve grants an id outside it. */
  lemma ZeroedMapOverflows(capacity: nat)
    requires 0 < capacity < TWO_TO_THE_32 && capacity % 8 != 0
    ensures var full := After(Zeroed(capacity), Reserves(capacity));
            && Counted(full) && full.Full() && !full.SlackSet()
            && Reserve(full).1 == Granted(capacity)
  {
    hide After, Reserves, RunLen, PopCount;
    ReservesFill(capacity, capacity);
    OverflowsNext(After(Zeroed(capacity), Reserves(capacity)));
  }

  /** When a reserve is denied, whatever the state, and that it then changes nothing. */
  lemma ReserveDeniesExactly(st: Slots)
    requires st.WellFormed()
    ensures Reserve(st).1 == Denied <==>
              st.inUse > st.capacity || st.mapInUse > st.mapCapacity || AllEqual(st.bits, 0, RoundUp(st.capacity), true)
    ensures Reserve(st).1 == Denied ==> Reserve(st).0 == st
  {
    hide RunLen;
    var end := RoundUp(st.capacity);
    var ones := RunLen(st.bits, 0, end, true);
    RunLenIsUnique(st.bits, 0, end, true, ones);
    if AllEqual(st.bits, 0, end, true) {
      RunLenIsUnique(st.bits, 0, end, true, end);
    }
  }

  /** The id outside the map is the last one: the counter has passed the capacity, and no bit was set. */
  lemma OverflowIsTheLast(capacity: nat)
    requires 0 < capacity < TWO_TO_THE_32 - 1 && capacity % 8 != 0
    ensures var full := After(Zeroed(capacity), Reserves(capacity));
            var over := Reserve(full).0;
            && over.bits == full.bits && over.inUse == capacity + 1
            && Reserve(over) == (over, Denied)
  {
    hide After, Reserves, RunLen, PopCount, LowestClear;
    ZeroedMapOverflows(capacity);
    ReservesFill(capacity, capacity);
    OverflowCounts(After(Zeroed(capacity), Reserves(capacity)));
  }

  lemma OverflowCounts(full: Slots)
    requires Counted(full) && |full.bits| == RoundUp(full.capacity) && full.capacity < TWO_TO_THE_32 - 1
    requires forall k: nat | k < |full.bits| :: full.bits[k] == (k < full.capacity)
    requires Reserve(full).1 == Granted(full.capacity)
    ensures var over := Reserve(full).0;
            && over.bits == full.bits && over.inUse == full.capacity + 1
            && over.WellFormed() && Reserve(over) == (over, Denied)
  {
    hide LowestClear, AllEqual;
    FullCount(full);
    ReserveDeniesExactly(Reserve(full).0);
  }

  lemma FullCount(full: Slots)
    requires full.capacity <= |full.bits|
    requires forall k: nat | k < full.capacity :: full.bits[k]
    ensures |full.Reserved()| == full.capacity
  {
    assert full.Reserved() == Ids(full.capacity);
  }

  lemma OverflowsNext(full: Slots)
    requires Counted(full) && 0 < full.capacity && full.capacity % 8 != 0 && |full.bits| == RoundUp(full.capacity)
    requires forall k: nat | k < |full.bits| :: full.bits[k] == (k < full.capacity)
    ensures full.Full() && !full.SlackSet() && Reserve(full).1 == Granted(full.capacity)
  {
    hide RunLen;
    assert !full.bits[full.capacity];
    ReservedFits(full);
    RunLenIsUnique(full.bits, 0, RoundUp(full.capacity), true, full.capacity);
  }

  /** The slot map of a new file system leaves no slack bits exactly when its slot table has an even
      number of blocks. */
  lemma MkfsCapacityHasSlack(bc: MkfsLayout.BlocksCalc, blocks: nat, percentage: nat)
    requires MkfsLayout.Shared(bc, blocks, percentage)
    ensures RoundUp(bc.slotsNum) == bc.slotsNum <==> bc.slotsTableBlocks % 2 == 0
  {
    hide MkfsLayout.Shared;
    assert bc.slotsNum == 204 * bc.slotsTableBlocks by { SlotsOf(bc, blocks, percentage); }
    Multiple(bc.slotsTableBlocks);
  }

  lemma SlotsOf(bc: MkfsLayout.BlocksCalc, blocks: nat, percentage: nat)
    requires MkfsLayout.Shared(bc, blocks, percentage)
    ensures bc.slotsNum == bc.slotsTableBlocks * MkfsLayout.SLOTS_PER_BLOCK && MkfsLayout.SLOTS_PER_BLOCK == 204
  {
  }

  lemma Multiple(blocks: nat)
    ensures RoundUp(204 * blocks) == 204 * blocks <==> blocks % 2 == 0
  {
    assert 204 * blocks == 8 * (25 * blocks) + 4 * blocks;
    if blocks % 2 == 0 {
      assert 4 * blocks == 8 * (blocks / 2);
    } else {
      assert 4 * blocks == 8 * (blocks / 2) + 4;
    }
  }
}
