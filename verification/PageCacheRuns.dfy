/** What runs of the page cache's operations do to flags, counts and zeroed blocks: when an element is
    pinned or marked, when a map is refused, what a flusher pass keeps, and what a zero map shows. */
module PageCacheRuns {
  import opened PageCacheSpec
  import opened Storage
  import opened Wrappers
  import Bytes

  // ----- a new element -----

  /** The call finds no element of its address and fills slot i. */
  predicate Fills(st: State, op: Op, i: nat)
    requires Inv(st) && Enabled(st, op)
  {
    match op
    case OpMap(addr, n) => FindAddr(st.slots, addr, 0) == |st.slots| && Map(st, addr, n).1 == Some(i)
    case OpMapZero(addr, n) => FindAddr(st.slots, addr, 0) == |st.slots| && MapZero(st, addr, n).1 == Some(i)
    case _ => false
  }

  /** The element that a miss returns is clean, neither marked nor pinned, and counted once. */
  lemma MissReturnsNew(st: State, addr: nat, n: nat)
    requires Inv(st) && OnDevice(st, addr, n) && FindAddr(st.slots, addr, 0) == |st.slots|
    ensures var (after, slot) := Map(st, addr, n);
            slot.Some? ==>
              && slot.value < |after.slots| && after.slots[slot.value].Used?
              && var e := after.slots[slot.value].el;
                 && e.addr == addr && |e.mem| == n
                 && !e.dirty && e.clean && !e.evict && !e.pin && e.count == 1
  {
    hide Inv, MakeRoom;
    MakeRoomKeeps(st);
  }

  /** The element of a zero map is dirty, neither marked nor pinned, counted once, and all zeroes. */
  lemma ZeroMapReturnsNew(st: State, addr: nat, n: nat)
    requires Inv(st) && OnDevice(st, addr, n)
    ensures var (after, slot) := MapZero(st, addr, n);
            slot.Some? ==>
              && FindAddr(st.slots, addr, 0) == |st.slots|
              && slot.value < |after.slots| && after.slots[slot.value].Used?
              && var e := after.slots[slot.value].el;
                 && e.addr == addr && |e.mem| == n && (forall b | 0 <= b < n :: ZeroBytes(e.mem[b]))
                 && e.dirty && !e.clean && !e.evict && !e.pin && e.count == 1
  {
    hide Inv, MakeRoom, ZeroBytes, ZeroBlock;
    MakeRoomKeeps(st);
    OnlyZeroBytesAreZero(ZeroBlock());
  }

  /** A granted zero map shows clients zero bytes in its extent and changes no other block. */
  lemma ZeroMapShowsZeroes(st: State, addr: nat, n: nat, b: nat)
    requires Inv(st) && OnDevice(st, addr, n) && ZeroFits(st, addr, n)
    requires MapZero(st, addr, n).1.Some? && b < |st.disk|
    ensures var after := MapZero(st, addr, n).0;
            if addr <= b < addr + n then ZeroBytes(View(after, b)) else View(after, b) == View(st, b)
  {
    hide Inv, View, MapZero, ZeroFits, ZeroBytes, ZeroBlock;
    var after := MapZero(st, addr, n).0;
    MapZeroShows(st, addr, n);
    OnlyZeroBytesAreZero(ZeroBlock());
    assert Abs(after)[b] == View(after, b) && Abs(st)[b] == View(st, b);
  }

  /** A zero map that is not marked dirty is safe if and only if the device has zero bytes there. */
  lemma UnmarkedZeroMapIsSafeExactly(st: State, addr: nat, n: nat)
    requires Inv(st) && OnDevice(st, addr, n) && MissFits(st, addr, n)
    requires FindAddr(st.slots, addr, 0) == |st.slots| && MakeRoom(st).1.Some?
    ensures var (room, slot) := MakeRoom(st);
            |room.disk| == |st.disk|
            && (Inv(Put(room, slot.value, Fresh(addr, seq(n, _ => ZeroBlock())))) <==>
                forall b | addr <= b < addr + n :: ZeroBytes(room.disk[b]))
  {
    hide Inv, MakeRoom, ZeroBytes, ZeroBlock, MissFits;
    var (room, slot) := MakeRoom(st);
    MakeRoomKeeps(st);
    UnmarkedZeroMap(st, addr, n);
    forall b | addr <= b < addr + n
      ensures room.disk[b] == ZeroBlock() <==> ZeroBytes(room.disk[b])
    {
      OnlyZeroBytesAreZero(room.disk[b]);
    }
    forall b | addr <= b < addr + n
      ensures room.disk[b] == room.disk[addr..addr + n][b - addr]
    {
    }
  }

  // ----- runs by their last step -----

  lemma {:induction false} RunsOn(st: State, ops: seq<Op>, op: Op)
    requires Inv(st)
    ensures Runs(st, ops + [op]) <==> Runs(st, ops) && Inv(After(st, ops)) && Enabled(After(st, ops), op)
    ensures Runs(st, ops + [op]) ==> After(st, ops + [op]) == Step(After(st, ops), op)
    decreases |ops|
  {
    hide Inv, Step, Enabled;
    if ops == [] {
      assert ([] + [op])[1..] == [];
      if Enabled(st, op) {
        StepShowsEffect(st, op);
      }
    } else {
      assert (ops + [op])[1..] == ops[1..] + [op];
      if Enabled(st, ops[0]) && Inv(Step(st, ops[0])) {
        RunsOn(Step(st, ops[0]), ops[1..], op);
      }
    }
  }

  lemma LastStep(st: State, ops: seq<Op>)
    requires Inv(st) && Runs(st, ops) && ops != []
    ensures var n := |ops| - 1;
            && Runs(st, ops[..n]) && Inv(After(st, ops[..n])) && Enabled(After(st, ops[..n]), ops[n])
            && After(st, ops) == Step(After(st, ops[..n]), ops[n])
  {
    hide Inv, Step, Enabled, Runs, After;
    var n := |ops| - 1;
    assert ops == ops[..n] + [ops[n]];
    RunsOn(st, ops[..n], ops[n]);
  }

  // ----- pins and eviction marks -----

  datatype Flag = Pin | Evict

  predicate Up(f: Flag, e: Elem) {
    match f
    case Pin => e.pin
    case Evict => e.evict
  }

  predicate Raises(f: Flag, op: Op, i: nat) {
    match f
    case Pin => op == OpPin(i)
    case Evict => op == OpMarkEvict(i)
  }

  predicate Lowers(st: State, f: Flag, op: Op, i: nat)
    requires Inv(st) && Enabled(st, op)
  {
    (f.Pin? && op == OpUnpin(i)) || Fills(st, op, i)
  }

  /** The slot holds the same element's flags before and after. */
  predicate SameFlags(f: Flag, before: Slot<Elem>, after: Slot<Elem>) {
    after.Used? ==> before.Used? && (Up(f, after.el) <==> Up(f, before.el))
  }

  lemma RoomFlags(st: State, f: Flag, i: nat)
    requires Inv(st) && i < |st.slots|
    ensures i < |MakeRoom(st).0.slots| && SameFlags(f, st.slots[i], MakeRoom(st).0.slots[i])
  {
    hide Inv, MakeRoom;
    MakeRoomKeeps(st);
  }

  lemma MapFlags(st: State, f: Flag, addr: nat, n: nat, i: nat)
    requires Inv(st) && Enabled(st, OpMap(addr, n)) && i < |st.slots|
    ensures i < |Map(st, addr, n).0.slots|
    ensures Fills(st, OpMap(addr, n), i) ==> !Up(f, Map(st, addr, n).0.slots[i].el)
    ensures !Fills(st, OpMap(addr, n), i) ==> SameFlags(f, st.slots[i], Map(st, addr, n).0.slots[i])
  {
    hide Inv, MakeRoom, MapFits;
    MakeRoomKeeps(st);
    RoomFlags(st, f, i);
  }

  lemma ZeroFlags(st: State, f: Flag, addr: nat, n: nat, i: nat)
    requires Inv(st) && Enabled(st, OpMapZero(addr, n)) && i < |st.slots|
    ensures i < |MapZero(st, addr, n).0.slots|
    ensures Fills(st, OpMapZero(addr, n), i) ==> !Up(f, MapZero(st, addr, n).0.slots[i].el)
    ensures !Fills(st, OpMapZero(addr, n), i) ==> SameFlags(f, st.slots[i], MapZero(st, addr, n).0.slots[i])
  {
    hide Inv, MakeRoom, ZeroFits, ZeroBlock;
    MakeRoomKeeps(st);
    RoomFlags(st, f, i);
  }

  lemma VisitFlags(st: State, f: Flag, j: nat, i: nat)
    requires Inv(st) && j < |st.slots| && i < |st.slots|
    ensures i < |Visit(st, j).slots| && SameFlags(f, st.slots[i], Visit(st, j).slots[i])
  {
    hide Inv;
  }

  lemma EvictFlags(st: State, f: Flag, key: nat, i: nat)
    requires Inv(st) && i < |st.slots|
    ensures i < |EvictKey(st, key).slots| && SameFlags(f, st.slots[i], EvictKey(st, key).slots[i])
  {
    hide Inv;
  }

  lemma LookupFlags(st: State, f: Flag, key: nat, i: nat)
    requires i < |st.slots|
    ensures i < |Lookup(st, key).slots| && SameFlags(f, st.slots[i], Lookup(st, key).slots[i])
  {
  }

  /** One step's part in a flag. */
  lemma StepFlag(st: State, f: Flag, op: Op, i: nat)
    requires Inv(st) && Enabled(st, op) && i < |st.slots| && i < |Step(st, op).slots|
    requires Step(st, op).slots[i].Used?
    ensures !Fills(st, op, i) ==> st.slots[i].Used?
    ensures Up(f, Step(st, op).slots[i].el) <==>
              Raises(f, op, i) || (!Lowers(st, f, op, i) && Up(f, st.slots[i].el))
  {
    hide Inv, Map, MapZero, Visit, EvictKey, Lookup;
    match op {
      case OpMap(addr, n) => MapFlags(st, f, addr, n, i);
      case OpMapZero(addr, n) => ZeroFlags(st, f, addr, n, i);
      case OpVisit(j) => VisitFlags(st, f, j, i);
      case OpEvict(key) => EvictFlags(st, f, key, i);
      case OpLookup(key) => LookupFlags(st, f, key, i);
      case _ =>
    }
  }

  /** Step l of the run lowers the flag in slot i, or fills the slot anew. */
  ghost predicate LoweredAt(st: State, ops: seq<Op>, f: Flag, l: nat, i: nat)
    requires Inv(st)
  {
    && l < |ops| && Runs(st, ops[..l]) && Inv(After(st, ops[..l])) && Enabled(After(st, ops[..l]), ops[l])
    && Lowers(After(st, ops[..l]), f, ops[l], i)
  }

  /** The flag was raised in slot i, and since then it was not lowered, nor the slot filled anew. */
  ghost predicate RaisedSince(st: State, ops: seq<Op>, f: Flag, i: nat)
    requires Inv(st)
  {
    exists m: nat | m < |ops| ::
      Raises(f, ops[m], i) && forall l: nat | m < l < |ops| :: !LoweredAt(st, ops, f, l, i)
  }

  lemma RaisedByLast(st: State, ops: seq<Op>, f: Flag, i: nat)
    requires Inv(st) && ops != []
    ensures var n := |ops| - 1;
            RaisedSince(st, ops, f, i) <==>
              Raises(f, ops[n], i) || (RaisedSince(st, ops[..n], f, i) && !LoweredAt(st, ops, f, n, i))
  {
    hide Inv, Runs, After, Enabled, Lowers, Raises;
    var n := |ops| - 1;
    assert forall l: nat | l < n :: ops[..n][..l] == ops[..l];
    assert forall l: nat | l < n :: LoweredAt(st, ops[..n], f, l, i) == LoweredAt(st, ops, f, l, i);
    if RaisedSince(st, ops[..n], f, i) && !LoweredAt(st, ops, f, n, i) {
      var m: nat :| m < n && Raises(f, ops[..n][m], i)
                    && forall l: nat | m < l < n :: !LoweredAt(st, ops[..n], f, l, i);
      assert Raises(f, ops[m], i);
      assert forall l: nat | m < l < |ops| :: !LoweredAt(st, ops, f, l, i);
    }
    if RaisedSince(st, ops, f, i) && !Raises(f, ops[n], i) {
      var m: nat :| m < |ops| && Raises(f, ops[m], i)
                    && forall l: nat | m < l < |ops| :: !LoweredAt(st, ops, f, l, i);
      assert Raises(f, ops[..n][m], i);
    }
  }

  /** Over any run from the empty cache, an element is pinned if and only if it was pinned since it was
      mapped and not unpinned since then, and marked for eviction if and only if it was marked since. */
  lemma {:induction false} FlagsAreAsked(capacity: nat, disk: seq<Block>, ops: seq<Op>, f: Flag, i: nat)
    requires Inv(Initial(capacity, disk)) && Runs(Initial(capacity, disk), ops)
    requires i < |After(Initial(capacity, disk), ops).slots| && After(Initial(capacity, disk), ops).slots[i].Used?
    ensures Up(f, After(Initial(capacity, disk), ops).slots[i].el) <==>
              RaisedSince(Initial(capacity, disk), ops, f, i)
    decreases |ops|
  {
    hide Inv, Runs, Enabled, Step, Fills, Raises, Up, RaisedSince;
    var st := Initial(capacity, disk);
    if ops != [] {
      var n := |ops| - 1;
      LastStep(st, ops);
      var before := After(st, ops[..n]);
      StepShowsEffect(before, ops[n]);
      StepFlag(before, f, ops[n], i);
      RaisedByLast(st, ops, f, i);
      if !Lowers(before, f, ops[n], i) {
        FlagsAreAsked(capacity, disk, ops[..n], f, i);
      }
    }
  }

  // ----- refusals, passes and counts -----

  /** Without pins, with at least one slot and counts below INT_MAX, no map of a run is refused, nor any
      zero map of an address that is not cached. */
  lemma UnpinnedRunsMap(capacity: nat, disk: seq<Block>, ops: seq<Op>, addr: nat, n: nat)
    requires Inv(Initial(capacity, disk)) && Runs(Initial(capacity, disk), ops) && capacity > 0
    requires forall i :: OpPin(i) !in ops
    requires var st := After(Initial(capacity, disk), ops);
             && Inv(st) && OnDevice(st, addr, n)
             && forall i | 0 <= i < |st.slots| && st.slots[i].Used? :: st.slots[i].el.count < Bytes.INT_MAX
    ensures var st := After(Initial(capacity, disk), ops);
            && Map(st, addr, n).1.Some?
            && (FindAddr(st.slots, addr, 0) == |st.slots| ==> MapZero(st, addr, n).1.Some?)
  {
    hide Inv, Runs, After;
    var st := After(Initial(capacity, disk), ops);
    SlotsStay(Initial(capacity, disk), ops);
    forall i: nat | i < |st.slots| && st.slots[i].Used?
      ensures Eligible(st.slots[i])
    {
      FlagsAreAsked(capacity, disk, ops, Pin, i);
    }
    RoomIsFound(st);
  }

  lemma {:induction false} SlotsStay(st: State, ops: seq<Op>)
    requires Inv(st) && Runs(st, ops)
    ensures |After(st, ops).slots| == |st.slots|
    decreases |ops|
  {
    hide Inv, Step, Enabled;
    if ops != [] {
      StepShowsEffect(st, ops[0]);
      SlotsStay(Step(st, ops[0]), ops[1..]);
    }
  }

  lemma RoomIsFound(st: State)
    requires Inv(st) && st.slots != []
    requires forall i: nat | i < |st.slots| && st.slots[i].Used? :: Eligible(st.slots[i])
    ensures MakeRoom(st).1.Some?
  {
    hide Inv, EvictAt;
    VictimIsFirstMinimum(st.slots, |st.slots|);
    if FindEmpty(st.slots, 0) == |st.slots| {
      assert Eligible(st.slots[0]);
    }
  }

  /** An element that was just mapped outlives a flusher pass. */
  lemma PassKeepsMapped(st: State, addr: nat, n: nat)
    requires Inv(st) && OnDevice(st, addr, n) && MapFits(st, addr, n) && Map(st, addr, n).1.Some?
    requires FindAddr(st.slots, addr, 0) == |st.slots|
    ensures var (after, slot) := Map(st, addr, n);
            && Inv(after) && slot.value < |after.slots|
            && Pass(after, |after.slots|).slots[slot.value] == after.slots[slot.value]
  {
    hide Inv, Map, MapFits, Pass;
    MapKeeps(st, addr, n);
    MissReturnsNew(st, addr, n);
    var after := Map(st, addr, n).0;
    PassWritesBack(after, |after.slots|);
  }

  /** After an eviction by key no element has that address, and no other slot has changed. */
  lemma EvictedKeyIsGone(st: State, key: nat)
    requires Inv(st)
    ensures var after := EvictKey(st, key);
            && |after.slots| == |st.slots|
            && forall k | 0 <= k < |st.slots| ::
                 after.slots[k] == if st.slots[k].Used? && st.slots[k].el.addr == key then Empty else st.slots[k]
  {
    var i := FindAddr(st.slots, key, 0);
    forall k: nat | k < |st.slots| && st.slots[k].Used? && st.slots[k].el.addr == key
      ensures k == i
    {
      AddressIsUnique(st, i, k);
    }
    hide Inv;
    if i < |st.slots| {
      EvictKeeps(st, i);
    }
  }

  /** A lookup counts one access of the element with that address and changes nothing else. */
  lemma LookupCounts(st: State, key: nat, k: nat)
    requires Inv(st) && k < |st.slots|
    ensures var after := Lookup(st, key);
            && |after.slots| == |st.slots| && after.disk == st.disk && after.inUse == st.inUse
            && after.slots[k] == if st.slots[k].Used? && st.slots[k].el.addr == key
                                 then Used(st.slots[k].el.(count := st.slots[k].el.count + 1)) else st.slots[k]
  {
    var i := FindAddr(st.slots, key, 0);
    if st.slots[k].Used? && st.slots[k].el.addr == key {
      AddressIsUnique(st, i, k);
    }
  }

  /** A zero map of a cached address is refused, and counts one access of that element. */
  lemma ZeroMapOfCached(st: State, addr: nat, n: nat, i: nat)
    requires Inv(st) && i < |st.slots| && st.slots[i].Used? && st.slots[i].el.addr == addr
    ensures var (after, slot) := MapZero(st, addr, n);
            && slot.None? && after.disk == st.disk && after.inUse == st.inUse
            && after.slots == st.slots[i := Used(st.slots[i].el.(count := st.slots[i].el.count + 1))]
  {
    AddressIsUnique(st, FindAddr(st.slots, addr, 0), i);
    hide Inv;
  }
}
