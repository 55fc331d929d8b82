/** The page cache of fs/page_cache.c on the generic cache of fs/cache.c, as a state machine on values
    whose steps are whole calls and whole flusher visits. */
module PageCacheSpec {
  import opened Storage
  import opened Wrappers
  import Bytes

  type Block = seq<bv8>

  const BLOCK_SIZE: nat := 8192

  function ZeroBlock(): Block {
    seq(BLOCK_SIZE, _ => 0)
  }

  /** A block of 8192 zero bytes. */
  predicate ZeroBytes(x: Block) {
    |x| == 8192 && forall j | 0 <= j < 8192 :: x[j] == 0
  }

  lemma OnlyZeroBytesAreZero(x: Block)
    ensures x == ZeroBlock() <==> ZeroBytes(x)
  {
  }

  /** A cached extent: its first block, its blocks in memory, its flags and its access count. */
  datatype Elem = Elem(addr: nat, mem: seq<Block>, dirty: bool, clean: bool, evict: bool, pin: bool, count: nat)

  /** The slot array, the in-use counter, and the blocks on the device. */
  datatype State = State(slots: seq<Slot<Elem>>, inUse: nat, disk: seq<Block>)

  predicate OnDevice(st: State, addr: nat, n: nat) {
    addr + n <= |st.disk|
  }

  // ----- scanning the slots -----

  /** The first slot from `from` on whose element has address addr, or the number of slots. */
  function FindAddr(slots: seq<Slot<Elem>>, addr: nat, from: nat): (i: nat)
    requires from <= |slots|
    ensures from <= i <= |slots|
    ensures i < |slots| ==> slots[i].Used? && slots[i].el.addr == addr
    ensures forall k | from <= k < i :: slots[k].Used? ==> slots[k].el.addr != addr
    decreases |slots| - from
  {
    if from == |slots| || (slots[from].Used? && slots[from].el.addr == addr) then from
    else FindAddr(slots, addr, from + 1)
  }

  /** The first empty slot, or the number of slots. */
  function FindEmpty(slots: seq<Slot<Elem>>, from: nat): (i: nat)
    requires from <= |slots|
    ensures from <= i <= |slots|
    ensures i < |slots| ==> slots[i].Empty?
    ensures forall k | from <= k < i :: slots[k].Used?
    decreases |slots| - from
  {
    if from == |slots| || slots[from].Empty? then from else FindEmpty(slots, from + 1)
  }

  /** An element that eviction may choose. */
  predicate Eligible(s: Slot<Elem>) {
    s.Used? && !s.el.pin && s.el.count < Bytes.INT_MAX
  }

  /** i is the first eligible slot of minimum access count. */
  ghost predicate IsVictim(slots: seq<Slot<Elem>>, i: nat) {
    && i < |slots| && Eligible(slots[i])
    && (forall k | 0 <= k < |slots| && Eligible(slots[k]) :: slots[i].el.count <= slots[k].el.count)
    && (forall k | 0 <= k < i && Eligible(slots[k]) :: slots[i].el.count < slots[k].el.count)
  }

  /** The victim among the first n slots, or the number of slots when none is eligible. */
  function Victim(slots: seq<Slot<Elem>>, n: nat): (i: nat)
    requires n <= |slots|
    ensures i == |slots| || (i < n && Eligible(slots[i]))
  {
    if n == 0 then |slots|
    else
      var best := Victim(slots, n - 1);
      if Eligible(slots[n - 1]) && (best == |slots| || slots[n - 1].el.count < slots[best].el.count) then n - 1
      else best
  }

  lemma {:induction false} VictimIsFirstMinimum(slots: seq<Slot<Elem>>, n: nat)
    requires n <= |slots|
    ensures var i := Victim(slots, n);
            if i == |slots| then forall k | 0 <= k < n :: !Eligible(slots[k])
            else IsVictim(slots[..n], i)
  {
    if n > 0 {
      VictimIsFirstMinimum(slots, n - 1);
    }
  }

  // ----- flushing and evicting -----

  /** Writes the element of slot i back if it is dirty. */
  function Flush(st: State, i: nat): State
    requires i < |st.slots| && st.slots[i].Used? && OnDevice(st, st.slots[i].el.addr, |st.slots[i].el.mem|)
  {
    var e := st.slots[i].el;
    if e.dirty then
      st.(disk := WriteExtent(st.disk, e.addr, e.mem),
          slots := st.slots[i := Used(e.(dirty := false, clean := true, count := e.count + 1))])
    else st
  }

  function Drop(st: State, i: nat): State
    requires i < |st.slots| && st.inUse > 0
  {
    st.(slots := st.slots[i := Empty], inUse := st.inUse - 1)
  }

  /** cache_element_evict_by_idx */
  function EvictAt(st: State, i: nat): State
    requires i < |st.slots| && st.slots[i].Used? && OnDevice(st, st.slots[i].el.addr, |st.slots[i].el.mem|)
    requires st.inUse > 0
  {
    Drop(Flush(st, i), i)
  }

  // ----- the operations -----

  /** Finds an empty slot, evicting a victim if there is none. */
  function MakeRoom(st: State): (res: (State, Option<nat>))
    requires Inv(st)
    ensures res.1.None? ==> res.0 == st
    ensures res.1.Some? ==> res.1.value < |res.0.slots| && res.0.slots[res.1.value].Empty?
  {
    var i := FindEmpty(st.slots, 0);
    var v := Victim(st.slots, |st.slots|);
    if i < |st.slots| then (st, Some(i))
    else if v == |st.slots| then (st, None)
    else
      UsedMeansCounted(st, v);
      (EvictAt(st, v), Some(v))
  }

  function Put(st: State, i: nat, e: Elem): State
    requires i < |st.slots|
  {
    st.(slots := st.slots[i := Used(e)], inUse := st.inUse + 1)
  }

  function Fresh(addr: nat, mem: seq<Block>): Elem {
    Elem(addr, mem, false, true, false, false, 1)
  }

  /** pgcache_element_map */
  function Map(st: State, addr: nat, n: nat): (State, Option<nat>)
    requires Inv(st) && OnDevice(st, addr, n)
  {
    var i := FindAddr(st.slots, addr, 0);
    if i < |st.slots| then
      var e := st.slots[i].el;
      if n <= |e.mem| then
        (st.(slots := st.slots[i := Used(e.(count := e.count + 1))]), Some(i))
      else
        var disk := if e.dirty then WriteExtent(st.disk, addr, e.mem) else st.disk;
        (st.(slots := st.slots[i := Used(e.(count := e.count + 1, mem := disk[addr..addr + n]))], disk := disk), Some(i))
    else
      var (room, slot) := MakeRoom(st);
      if slot.None? then (st, None)
      else
        MakeRoomKeeps(st);
        (Put(room, slot.value, Fresh(addr, room.disk[addr..addr + n])), slot)
  }

  /** pgcache_element_map_zero followed by the dirty mark of its element. */
  function MapZero(st: State, addr: nat, n: nat): (State, Option<nat>)
    requires Inv(st)
  {
    var i := FindAddr(st.slots, addr, 0);
    if i < |st.slots| then
      var e := st.slots[i].el;
      (st.(slots := st.slots[i := Used(e.(count := e.count + 1))]), None)
    else
      var (room, slot) := MakeRoom(st);
      if slot.None? then (st, None)
      else
        var zeroes := seq(n, _ => ZeroBlock());
        (Put(room, slot.value, Fresh(addr, zeroes).(dirty := true, clean := false)), slot)
  }

  // ----- what every step keeps -----

  /** The element's extent is on the device, it has exactly one of DIRTY and CLEAN, and without
      DIRTY it equals the device. */
  ghost predicate GoodElem(e: Elem, disk: seq<Block>) {
    && e.addr + |e.mem| <= |disk|
    && e.dirty != e.clean
    && (!e.dirty ==> disk[e.addr..e.addr + |e.mem|] == e.mem)
  }

  predicate Apart(e: Elem, f: Elem) {
    ExtentsApart(e.addr, |e.mem|, f.addr, |f.mem|)
  }

  ghost predicate Inv(st: State) {
    && st.inUse == NumUsed(st.slots, |st.slots|)
    && (forall i | 0 <= i < |st.slots| && st.slots[i].Used? :: GoodElem(st.slots[i].el, st.disk))
    && (forall i, j | 0 <= i < j < |st.slots| && st.slots[i].Used? && st.slots[j].Used? ::
          Apart(st.slots[i].el, st.slots[j].el))
  }

  lemma UsedMeansCounted(st: State, i: nat)
    requires Inv(st) && i < |st.slots| && st.slots[i].Used?
    ensures st.inUse > 0
  {
    NumUsedAfter(st.slots, i, Empty, |st.slots|);
  }

  /** What a block of the device looks like through the cache. */
  ghost predicate Covers(st: State, i: nat, b: nat) {
    && i < |st.slots| && st.slots[i].Used?
    && st.slots[i].el.addr <= b < st.slots[i].el.addr + |st.slots[i].el.mem|
  }

  ghost function View(st: State, b: nat): Block
    requires b < |st.disk|
  {
    if exists i: nat :: Covers(st, i, b) then
      var i: nat :| Covers(st, i, b);
      st.slots[i].el.mem[b - st.slots[i].el.addr]
    else st.disk[b]
  }

  lemma CoverIsUnique(st: State, i: nat, j: nat, b: nat)
    requires Inv(st) && Covers(st, i, b) && Covers(st, j, b)
    ensures i == j
  {
  }

  lemma ViewOfCovered(st: State, i: nat, b: nat)
    requires Inv(st) && Covers(st, i, b) && b < |st.disk|
    ensures View(st, b) == st.slots[i].el.mem[b - st.slots[i].el.addr]
  {
    var j: nat :| Covers(st, j, b) && View(st, b) == st.slots[j].el.mem[b - st.slots[j].el.addr];
    CoverIsUnique(st, i, j, b);
  }

  /** A block covered by a non-dirty element looks the way it is on the device. */
  lemma ViewOfClean(st: State, i: nat, b: nat)
    requires Inv(st) && Covers(st, i, b) && b < |st.disk| && !st.slots[i].el.dirty
    ensures View(st, b) == st.disk[b]
  {
    ViewOfCovered(st, i, b);
    var e := st.slots[i].el;
    assert st.disk[e.addr..e.addr + |e.mem|][b - e.addr] == st.disk[b];
  }

  /** st' has the same view as st. */
  ghost predicate SameView(st: State, st': State) {
    |st'.disk| == |st.disk| && forall b: nat | b < |st.disk| :: View(st', b) == View(st, b)
  }

  /** Writing a dirty element back changes no view and keeps the invariant. */
  lemma FlushKeeps(st: State, i: nat)
    requires Inv(st) && i < |st.slots| && st.slots[i].Used?
    ensures Inv(Flush(st, i)) && SameView(st, Flush(st, i))
    ensures Flush(st, i).slots[i].Used? && !Flush(st, i).slots[i].el.dirty
    ensures forall k | 0 <= k < |st.slots| && k != i :: Flush(st, i).slots[k] == st.slots[k]
  {
    var st' := Flush(st, i);
    var e := st.slots[i].el;
    if e.dirty {
      NumUsedAfter(st.slots, i, st'.slots[i], |st.slots|);
      DeviceWriteKeepsOthers(st, i, st'.disk);
      forall b: nat | b < |st.disk|
        ensures View(st', b) == View(st, b)
      {
        assert Covers(st, i, b) <==> e.addr <= b < e.addr + |e.mem|;
        SameCovers(st, st', b);
      }
    }
  }

  /** Writing the blocks of element i to the device leaves every other element's blocks alone. */
  lemma DeviceWriteKeepsOthers(st: State, i: nat, disk: seq<Block>)
    requires Inv(st) && i < |st.slots| && st.slots[i].Used?
    requires disk == WriteExtent(st.disk, st.slots[i].el.addr, st.slots[i].el.mem)
    ensures forall k | 0 <= k < |st.slots| && k != i && st.slots[k].Used? :: GoodElem(st.slots[k].el, disk)
    ensures disk[st.slots[i].el.addr..st.slots[i].el.addr + |st.slots[i].el.mem|] == st.slots[i].el.mem
  {
    forall k | 0 <= k < |st.slots| && k != i && st.slots[k].Used?
      ensures GoodElem(st.slots[k].el, disk)
    {
      var f := st.slots[k].el;
      assert GoodElem(f, st.disk);
      assert Apart(st.slots[i].el, f) || Apart(f, st.slots[i].el);
      assert disk[f.addr..f.addr + |f.mem|] == st.disk[f.addr..f.addr + |f.mem|];
    }
  }

  /** States whose elements have the same extents and memory, and whose devices agree wherever no
      element covers, look the same. */
  lemma SameCovers(st: State, st': State, b: nat)
    requires Inv(st) && Inv(st') && b < |st.disk| == |st'.disk| && |st'.slots| == |st.slots|
    requires forall k | 0 <= k < |st.slots| ::
               st.slots[k].Used? == st'.slots[k].Used?
               && (st.slots[k].Used? ==>
                     st'.slots[k].el.addr == st.slots[k].el.addr && st'.slots[k].el.mem == st.slots[k].el.mem)
    requires (forall i: nat :: !Covers(st, i, b)) ==> st'.disk[b] == st.disk[b]
    ensures View(st', b) == View(st, b)
  {
    if i: nat :| Covers(st, i, b) {
      assert Covers(st', i, b);
      ViewOfCovered(st, i, b);
      ViewOfCovered(st', i, b);
    } else {
      assert forall i: nat :: Covers(st', i, b) ==> Covers(st, i, b);
    }
  }

  /** Dropping an element that is not dirty changes no view. */
  lemma DropKeeps(st: State, i: nat)
    requires Inv(st) && i < |st.slots| && st.slots[i].Used? && !st.slots[i].el.dirty
    ensures st.inUse > 0
    ensures Inv(Drop(st, i)) && SameView(st, Drop(st, i))
  {
    UsedMeansCounted(st, i);
    var st' := Drop(st, i);
    NumUsedAfter(st.slots, i, Empty, |st.slots|);
    forall b: nat | b < |st.disk|
      ensures View(st', b) == View(st, b)
    {
      if k: nat :| Covers(st', k, b) {
        assert Covers(st, k, b);
        ViewOfCovered(st, k, b);
        ViewOfCovered(st', k, b);
      } else if k: nat :| Covers(st, k, b) {
        assert k == i || Covers(st', k, b);
        ViewOfClean(st, i, b);
      }
    }
  }

  lemma EvictKeeps(st: State, i: nat)
    requires Inv(st) && i < |st.slots| && st.slots[i].Used?
    ensures st.inUse > 0
    ensures Inv(EvictAt(st, i)) && SameView(st, EvictAt(st, i))
    ensures forall k | 0 <= k < |st.slots| && k != i :: EvictAt(st, i).slots[k] == st.slots[k]
  {
    UsedMeansCounted(st, i);
    FlushKeeps(st, i);
    DropKeeps(Flush(st, i), i);
  }

  lemma MakeRoomKeeps(st: State)
    requires Inv(st)
    ensures var (room, slot) := MakeRoom(st);
            && Inv(room) && SameView(st, room) && |room.slots| == |st.slots|
            && (forall k | 0 <= k < |st.slots| && room.slots[k].Used? :: room.slots[k] == st.slots[k])
  {
    var v := Victim(st.slots, |st.slots|);
    if FindEmpty(st.slots, 0) == |st.slots| && v < |st.slots| {
      EvictKeeps(st, v);
    }
  }

  /** Putting a good element whose extent is apart from all others into an empty slot shows its memory
      on its blocks and nothing else. */
  lemma PutShows(st: State, i: nat, e: Elem)
    requires Inv(st) && i < |st.slots| && st.slots[i].Empty? && GoodElem(e, st.disk)
    requires forall k | 0 <= k < |st.slots| && st.slots[k].Used? :: Apart(e, st.slots[k].el)
    ensures Inv(Put(st, i, e))
    ensures forall b: nat | b < |st.disk| ::
              View(Put(st, i, e), b) == if e.addr <= b < e.addr + |e.mem| then e.mem[b - e.addr] else View(st, b)
  {
    hide View;
    NumUsedAfter(st.slots, i, Used(e), |st.slots|);
    forall b: nat | b < |st.disk|
      ensures View(Put(st, i, e), b) == if e.addr <= b < e.addr + |e.mem| then e.mem[b - e.addr] else View(st, b)
    {
      ViewAfterPut(st, i, e, b);
    }
  }

  lemma ViewAfterPut(st: State, i: nat, e: Elem, b: nat)
    requires Inv(st) && i < |st.slots| && st.slots[i].Empty? && Inv(Put(st, i, e)) && b < |st.disk|
    ensures View(Put(st, i, e), b) == if e.addr <= b < e.addr + |e.mem| then e.mem[b - e.addr] else View(st, b)
  {
    var st' := Put(st, i, e);
    if e.addr <= b < e.addr + |e.mem| {
      assert Covers(st', i, b);
      ViewOfCovered(st', i, b);
    } else if k: nat :| Covers(st, k, b) {
      assert Covers(st', k, b);
      ViewOfCovered(st, k, b);
      ViewOfCovered(st', k, b);
    } else {
      assert forall k: nat :: Covers(st', k, b) ==> k == i || Covers(st, k, b);
    }
  }

  /** The element of slot i replaced by e. */
  function Replace(st: State, i: nat, e: Elem): State
    requires i < |st.slots|
  {
    st.(slots := st.slots[i := Used(e)])
  }

  /** Changing flags (not DIRTY and CLEAN) or the count of an element changes no view. */
  lemma RelabelKeeps(st: State, i: nat, e: Elem)
    requires Inv(st) && i < |st.slots| && st.slots[i].Used?
    requires var o := st.slots[i].el;
             e.addr == o.addr && e.mem == o.mem && e.dirty == o.dirty && e.clean == o.clean
    ensures Inv(Replace(st, i, e)) && SameView(st, Replace(st, i, e))
  {
    var st' := Replace(st, i, e);
    NumUsedAfter(st.slots, i, Used(e), |st.slots|);
    forall b: nat | b < |st.disk|
      ensures View(st', b) == View(st, b)
    {
      SameCovers(st, st', b);
    }
  }

  /** The extent [addr, addr + n) is apart from every cached extent that starts elsewhere. */
  ghost predicate ClearOfOthers(st: State, addr: nat, n: nat) {
    forall k | 0 <= k < |st.slots| && st.slots[k].Used? && st.slots[k].el.addr != addr ::
      addr + n <= st.slots[k].el.addr || st.slots[k].el.addr + |st.slots[k].el.mem| <= addr
  }

  /** What a miss asks of the extent: to be apart from what is cached once room was made. */
  ghost predicate MissFits(st: State, addr: nat, n: nat)
    requires Inv(st)
  {
    MakeRoom(st).1.Some? ==> ClearOfOthers(MakeRoom(st).0, addr, n)
  }

  /** What a map asks of the extent: nothing when the element is long enough already. */
  ghost predicate MapFits(st: State, addr: nat, n: nat)
    requires Inv(st)
  {
    var i := FindAddr(st.slots, addr, 0);
    if i < |st.slots| then n <= |st.slots[i].el.mem| || ClearOfOthers(st, addr, n) else MissFits(st, addr, n)
  }

  /** A zero map asks nothing when the address is cached, since it then maps nothing. */
  ghost predicate ZeroFits(st: State, addr: nat, n: nat)
    requires Inv(st)
  {
    FindAddr(st.slots, addr, 0) < |st.slots| || MissFits(st, addr, n)
  }

  /** Growing an element: flushed first if dirty, then read again in full. */
  function Grow(st: State, i: nat, n: nat): State
    requires i < |st.slots| && st.slots[i].Used?
    requires var e := st.slots[i].el; |e.mem| < n && OnDevice(st, e.addr, n)
  {
    var e := st.slots[i].el;
    var disk := if e.dirty then WriteExtent(st.disk, e.addr, e.mem) else st.disk;
    st.(slots := st.slots[i := Used(e.(count := e.count + 1, mem := disk[e.addr..e.addr + n]))], disk := disk)
  }

  lemma GrowKeepsInv(st: State, i: nat, n: nat)
    requires Inv(st) && i < |st.slots| && st.slots[i].Used?
    requires var e := st.slots[i].el; |e.mem| < n && OnDevice(st, e.addr, n) && ClearOfOthers(st, e.addr, n)
    ensures Inv(Grow(st, i, n))
  {
    var st' := Grow(st, i, n);
    NumUsedAfter(st.slots, i, st'.slots[i], |st.slots|);
    var e := st.slots[i].el;
    if e.dirty {
      DeviceWriteKeepsOthers(st, i, st'.disk);
    }
    forall j | 0 <= j < |st.slots| && j != i && st.slots[j].Used?
      ensures Apart(st'.slots[i].el, st.slots[j].el)
    {
      assert Apart(e, st.slots[j].el) || Apart(st.slots[j].el, e);
    }
  }

  lemma GrowKeeps(st: State, i: nat, n: nat)
    requires Inv(st) && i < |st.slots| && st.slots[i].Used?
    requires var e := st.slots[i].el; |e.mem| < n && OnDevice(st, e.addr, n) && ClearOfOthers(st, e.addr, n)
    ensures Inv(Grow(st, i, n)) && SameView(st, Grow(st, i, n))
  {
    var st' := Grow(st, i, n);
    var e := st.slots[i].el;
    GrowKeepsInv(st, i, n);
    forall b: nat | b < |st.disk|
      ensures View(st', b) == View(st, b)
    {
      if e.addr <= b < e.addr + n {
        GrownBlock(st, i, n, b);
      } else if k: nat :| Covers(st, k, b) {
        assert k != i && Covers(st', k, b);
        ViewOfCovered(st, k, b);
        ViewOfCovered(st', k, b);
      } else {
        assert forall k: nat :: Covers(st', k, b) ==> k == i || Covers(st, k, b);
      }
    }
  }

  /** A block of the grown extent: the element's own blocks were written back first, and the blocks
      behind them were not cached. */
  lemma GrownBlock(st: State, i: nat, n: nat, b: nat)
    requires Inv(st) && i < |st.slots| && st.slots[i].Used?
    requires var e := st.slots[i].el;
             |e.mem| < n && OnDevice(st, e.addr, n) && ClearOfOthers(st, e.addr, n) && e.addr <= b < e.addr + n
    requires Inv(Grow(st, i, n))
    ensures View(Grow(st, i, n), b) == View(st, b)
  {
    var st' := Grow(st, i, n);
    var e := st.slots[i].el;
    assert Covers(st', i, b);
    ViewOfCovered(st', i, b);
    if b < e.addr + |e.mem| {
      assert Covers(st, i, b);
      ViewOfCovered(st, i, b);
      if !e.dirty {
        ViewOfClean(st, i, b);
      }
    } else {
      forall k: nat
        ensures !Covers(st, k, b)
      {
        if k < |st.slots| && st.slots[k].Used? && k != i {
          assert Apart(e, st.slots[k].el) || Apart(st.slots[k].el, e);
        }
      }
    }
  }

  /** A client's write of one block into the memory of an element, and its dirty mark. */
  function WriteBlock(st: State, i: nat, b: nat, x: Block): State
    requires i < |st.slots| && st.slots[i].Used?
    requires st.slots[i].el.addr <= b < st.slots[i].el.addr + |st.slots[i].el.mem|
  {
    var e := st.slots[i].el;
    Replace(st, i, e.(mem := e.mem[b - e.addr := x], dirty := true, clean := false))
  }

  lemma WriteShows(st: State, i: nat, b: nat, x: Block)
    requires Inv(st) && Covers(st, i, b)
    ensures b < |st.disk| && Inv(WriteBlock(st, i, b, x))
    ensures forall c: nat | c < |st.disk| :: View(WriteBlock(st, i, b, x), c) == if c == b then x else View(st, c)
  {
    hide View;
    assert GoodElem(st.slots[i].el, st.disk);
    NumUsedAfter(st.slots, i, WriteBlock(st, i, b, x).slots[i], |st.slots|);
    forall c: nat | c < |st.disk|
      ensures View(WriteBlock(st, i, b, x), c) == if c == b then x else View(st, c)
    {
      ViewAfterWrite(st, i, b, x, c);
    }
  }

  lemma ViewAfterWrite(st: State, i: nat, b: nat, x: Block, c: nat)
    requires Inv(st) && Covers(st, i, b) && Inv(WriteBlock(st, i, b, x)) && c < |st.disk|
    ensures View(WriteBlock(st, i, b, x), c) == if c == b then x else View(st, c)
  {
    var st' := WriteBlock(st, i, b, x);
    if k: nat :| Covers(st, k, c) {
      assert Covers(st', k, c);
      ViewOfCovered(st, k, c);
      ViewOfCovered(st', k, c);
      if c == b {
        CoverIsUnique(st, i, k, b);
      }
    } else {
      assert forall k: nat :: Covers(st', k, c) ==> Covers(st, k, c);
    }
  }

  // ----- runs -----

  datatype Op =
    | OpMap(addr: nat, n: nat)
    | OpMapZero(addr: nat, n: nat)
    | OpWrite(slot: nat, b: nat, x: Block)
    | OpMarkEvict(slot: nat)
    | OpPin(slot: nat)
    | OpUnpin(slot: nat)
    | OpVisit(slot: nat)
    | OpEvict(key: nat)
    | OpLookup(key: nat)

  ghost predicate Enabled(st: State, op: Op)
    requires Inv(st)
  {
    match op
    case OpMap(addr, n) => OnDevice(st, addr, n) && MapFits(st, addr, n)
    case OpMapZero(addr, n) => OnDevice(st, addr, n) && ZeroFits(st, addr, n)
    case OpWrite(slot, b, x) => Covers(st, slot, b)
    case OpMarkEvict(slot) => slot < |st.slots| && st.slots[slot].Used?
    case OpPin(slot) => slot < |st.slots| && st.slots[slot].Used?
    case OpUnpin(slot) => slot < |st.slots| && st.slots[slot].Used?
    case OpVisit(slot) => slot < |st.slots|
    case _ => true
  }

  /** The flusher's visit of one slot: flush if dirty, then drop if marked for eviction. */
  function Visit(st: State, i: nat): State
    requires Inv(st) && i < |st.slots|
  {
    if st.slots[i].Empty? then st
    else
      UsedMeansCounted(st, i);
      if st.slots[i].el.evict then Drop(Flush(st, i), i) else Flush(st, i)
  }

  /** cache_element_evict */
  function EvictKey(st: State, key: nat): State
    requires Inv(st)
  {
    var i := FindAddr(st.slots, key, 0);
    if i < |st.slots| then
      UsedMeansCounted(st, i);
      EvictAt(st, i)
    else st
  }

  /** cache_lookup */
  function Lookup(st: State, key: nat): State {
    var i := FindAddr(st.slots, key, 0);
    if i < |st.slots| then Replace(st, i, st.slots[i].el.(count := st.slots[i].el.count + 1)) else st
  }

  function Step(st: State, op: Op): State
    requires Inv(st) && Enabled(st, op)
  {
    match op
    case OpMap(addr, n) => Map(st, addr, n).0
    case OpMapZero(addr, n) => MapZero(st, addr, n).0
    case OpWrite(slot, b, x) => WriteBlock(st, slot, b, x)
    case OpMarkEvict(slot) => Replace(st, slot, st.slots[slot].el.(evict := true))
    case OpPin(slot) => Replace(st, slot, st.slots[slot].el.(pin := true))
    case OpUnpin(slot) => Replace(st, slot, st.slots[slot].el.(pin := false))
    case OpVisit(slot) => Visit(st, slot)
    case OpEvict(key) => EvictKey(st, key)
    case OpLookup(key) => Lookup(st, key)
  }

  /** What an operation does to the blocks as clients see them: a write or a successful zero map
      changes them, nothing else does. */
  datatype Effect = Nothing | Wrote(b: nat, x: Block) | Zeroed(addr: nat, n: nat)

  function EffectOf(st: State, op: Op): Effect
    requires Inv(st)
  {
    match op
    case OpWrite(slot, b, x) => Wrote(b, x)
    case OpMapZero(addr, n) => if MapZero(st, addr, n).1.Some? then Zeroed(addr, n) else Nothing
    case _ => Nothing
  }

  function Affect(blocks: seq<Block>, e: Effect): seq<Block> {
    match e
    case Nothing => blocks
    case Wrote(b, x) => if b < |blocks| then blocks[b := x] else blocks
    case Zeroed(addr, n) => if addr + n <= |blocks| then WriteExtent(blocks, addr, seq(n, _ => ZeroBlock())) else blocks
  }

  /** The blocks as clients see them. */
  ghost function Abs(st: State): (a: seq<Block>)
    ensures |a| == |st.disk|
    ensures forall b: nat | b < |st.disk| :: a[b] == View(st, b)
  {
    seq(|st.disk|, b requires 0 <= b < |st.disk| => View(st, b))
  }

  lemma SameAbs(st: State, st': State)
    requires SameView(st, st')
    ensures Abs(st') == Abs(st)
  {
  }

  lemma MapKeeps(st: State, addr: nat, n: nat)
    requires Inv(st) && OnDevice(st, addr, n) && MapFits(st, addr, n)
    ensures Inv(Map(st, addr, n).0) && SameView(st, Map(st, addr, n).0)
    ensures |Map(st, addr, n).0.slots| == |st.slots|
  {
    hide Inv, SameView;
    var i := FindAddr(st.slots, addr, 0);
    if i < |st.slots| {
      var e := st.slots[i].el;
      if n <= |e.mem| {
        RelabelKeeps(st, i, e.(count := e.count + 1));
      } else {
        GrowKeeps(st, i, n);
      }
    } else {
      MissKeeps(st, addr, n);
    }
  }

  lemma MissKeeps(st: State, addr: nat, n: nat)
    requires Inv(st) && OnDevice(st, addr, n) && MissFits(st, addr, n)
    requires FindAddr(st.slots, addr, 0) == |st.slots|
    ensures Inv(Map(st, addr, n).0) && SameView(st, Map(st, addr, n).0)
    ensures |Map(st, addr, n).0.slots| == |st.slots|
  {
    hide View, Inv, MakeRoom;
    MakeRoomKeeps(st);
    var (room, slot) := MakeRoom(st);
    if slot.Some? {
      var e := Fresh(addr, room.disk[addr..addr + n]);
      PutShows(room, slot.value, e);
      UncoveredShowsDevice(room, addr, n);
    } else {
      assert SameView(st, st);
    }
  }

  /** A block in an extent apart from every cached one shows the device. */
  lemma UncoveredShowsDevice(st: State, addr: nat, n: nat)
    requires Inv(st) && addr + n <= |st.disk|
    requires forall k | 0 <= k < |st.slots| && st.slots[k].Used? ::
               addr + n <= st.slots[k].el.addr || st.slots[k].el.addr + |st.slots[k].el.mem| <= addr
    ensures forall b: nat | addr <= b < addr + n :: View(st, b) == st.disk[b]
  {
    forall b: nat | addr <= b < addr + n
      ensures View(st, b) == st.disk[b]
    {
      assert forall k: nat :: !Covers(st, k, b);
    }
  }

  lemma MapZeroShows(st: State, addr: nat, n: nat)
    requires Inv(st) && OnDevice(st, addr, n) && ZeroFits(st, addr, n)
    ensures Inv(MapZero(st, addr, n).0) && |MapZero(st, addr, n).0.slots| == |st.slots|
    ensures Abs(MapZero(st, addr, n).0) == Affect(Abs(st), EffectOf(st, OpMapZero(addr, n)))
  {
    hide View, Inv, MakeRoom;
    var i := FindAddr(st.slots, addr, 0);
    if i < |st.slots| {
      var e := st.slots[i].el;
      RelabelKeeps(st, i, e.(count := e.count + 1));
    } else {
      MakeRoomKeeps(st);
      var (room, slot) := MakeRoom(st);
      if slot.Some? {
        PutShows(room, slot.value, Fresh(addr, seq(n, _ => ZeroBlock())).(dirty := true, clean := false));
      }
    }
  }

  lemma VisitKeeps(st: State, i: nat)
    requires Inv(st) && i < |st.slots|
    ensures Inv(Visit(st, i)) && SameView(st, Visit(st, i)) && |Visit(st, i).slots| == |st.slots|
  {
    hide View;
    if st.slots[i].Used? {
      FlushKeeps(st, i);
      UsedMeansCounted(st, i);
      DropKeeps(Flush(st, i), i);
    }
  }

  lemma EvictKeyKeeps(st: State, key: nat)
    requires Inv(st)
    ensures Inv(EvictKey(st, key)) && SameView(st, EvictKey(st, key)) && |EvictKey(st, key).slots| == |st.slots|
  {
    hide Inv, View;
    var i := FindAddr(st.slots, key, 0);
    if i < |st.slots| {
      EvictKeeps(st, i);
    }
  }

  /** Every step keeps the invariant, and changes what clients see by its effect alone. */
  lemma StepShowsEffect(st: State, op: Op)
    requires Inv(st) && Enabled(st, op)
    ensures Inv(Step(st, op)) && |Step(st, op).slots| == |st.slots|
    ensures Abs(Step(st, op)) == Affect(Abs(st), EffectOf(st, op))
  {
    hide Inv, View, Map, MapZero, Visit, EvictKey;
    match op {
      case OpMap(addr, n) => MapKeeps(st, addr, n);
      case OpMapZero(addr, n) => MapZeroShows(st, addr, n);
      case OpWrite(slot, b, x) => WriteShows(st, slot, b, x);
      case OpMarkEvict(slot) => RelabelKeeps(st, slot, st.slots[slot].el.(evict := true));
      case OpPin(slot) => RelabelKeeps(st, slot, st.slots[slot].el.(pin := true));
      case OpUnpin(slot) => RelabelKeeps(st, slot, st.slots[slot].el.(pin := false));
      case OpVisit(slot) => VisitKeeps(st, slot);
      case OpEvict(key) => EvictKeyKeeps(st, key);
      case OpLookup(key) =>
        var i := FindAddr(st.slots, key, 0);
        if i < |st.slots| {
          RelabelKeeps(st, i, st.slots[i].el.(count := st.slots[i].el.count + 1));
        }
    }
  }

  ghost predicate Runs(st: State, ops: seq<Op>)
    requires Inv(st)
    decreases |ops|
  {
    ops == [] || (Enabled(st, ops[0]) && Inv(Step(st, ops[0])) && Runs(Step(st, ops[0]), ops[1..]))
  }

  function After(st: State, ops: seq<Op>): State
    requires Inv(st) && Runs(st, ops)
    decreases |ops|
  {
    if ops == [] then st else After(Step(st, ops[0]), ops[1..])
  }

  /** The blocks that a store without a cache holds after the effects of the run. */
  function Replay(blocks: seq<Block>, st: State, ops: seq<Op>): seq<Block>
    requires Inv(st) && Runs(st, ops)
    decreases |ops|
  {
    if ops == [] then blocks
    else Replay(Affect(blocks, EffectOf(st, ops[0])), Step(st, ops[0]), ops[1..])
  }

  /** Transparency: after any run of maps, zero maps, writes, marks, pins, evictions and flusher visits,
      clients see the blocks of a store that only their writes and zero maps changed. */
  lemma {:induction false} RunIsTransparent(st: State, ops: seq<Op>)
    requires Inv(st) && Runs(st, ops)
    ensures Inv(After(st, ops))
    ensures Abs(After(st, ops)) == Replay(Abs(st), st, ops)
    decreases |ops|
  {
    hide Inv, Enabled, Step, Abs, Affect;
    if ops != [] {
      StepShowsEffect(st, ops[0]);
      RunIsTransparent(Step(st, ops[0]), ops[1..]);
    }
  }

  /** Every enabled operation can be the next one of a run. */
  lemma RunsExtend(st: State, op: Op)
    requires Inv(st)
    ensures Runs(st, [op]) <==> Enabled(st, op)
  {
    if Enabled(st, op) {
      StepShowsEffect(st, op);
      assert Runs(Step(st, op), []);
    }
  }

  /** When no element is dirty the device holds exactly what clients see. */
  lemma CleanDeviceIsView(st: State)
    requires Inv(st) && forall k | 0 <= k < |st.slots| && st.slots[k].Used? :: !st.slots[k].el.dirty
    ensures st.disk == Abs(st)
  {
    forall b: nat | b < |st.disk|
      ensures st.disk[b] == View(st, b)
    {
      if i: nat :| Covers(st, i, b) {
        ViewOfClean(st, i, b);
      }
    }
  }

  /** A flusher pass over the first n slots. */
  function Pass(st: State, n: nat): (res: State)
    requires Inv(st) && n <= |st.slots|
    ensures Inv(res) && |res.slots| == |st.slots|
    decreases n
  {
    if n == 0 then st
    else
      VisitKeeps(Pass(st, n - 1), n - 1);
      Visit(Pass(st, n - 1), n - 1)
  }

  /** A slot after the flusher's visit: empty if its element was marked, else with the element clean and,
      if it was dirty, counted once more. */
  function Visited(s: Slot<Elem>): Slot<Elem> {
    match s
    case Empty => Empty
    case Used(e) =>
      if e.evict then Empty
      else if e.dirty then Used(Elem(e.addr, e.mem, false, true, false, e.pin, e.count + 1))
      else s
  }

  lemma VisitCleans(st: State, i: nat)
    requires Inv(st) && i < |st.slots|
    ensures |Visit(st, i).slots| == |st.slots|
    ensures Visit(st, i).slots[i] == Visited(st.slots[i])
    ensures forall k | 0 <= k < |st.slots| && k != i :: Visit(st, i).slots[k] == st.slots[k]
  {
    hide Inv, View, NumUsed;
    if st.slots[i].Used? {
      FlushKeeps(st, i);
    }
  }

  /** After a whole pass the device holds what clients saw before it, nothing dirty is left, exactly the
      elements marked for eviction are gone, and the others have kept their blocks and pins. */
  lemma {:induction false} PassWritesBack(st: State, n: nat)
    requires Inv(st) && n <= |st.slots|
    ensures var after := Pass(st, n);
            && Abs(after) == Abs(st)
            && (forall k | 0 <= k < n :: after.slots[k] == Visited(st.slots[k]))
            && (forall k | n <= k < |st.slots| :: after.slots[k] == st.slots[k])
            && (n == |st.slots| ==> after.disk == Abs(st))
    decreases n
  {
    hide Inv, View, Visit;
    if n > 0 {
      PassWritesBack(st, n - 1);
      var before := Pass(st, n - 1);
      VisitKeeps(before, n - 1);
      VisitCleans(before, n - 1);
      SameAbs(before, Visit(before, n - 1));
    }
    if n == |st.slots| {
      CleanDeviceIsView(Pass(st, n));
    }
  }

  // ----- why the side conditions are there -----

  /** A map, or a zero map with its dirty mark, keeps the invariant exactly when its extent fits. */
  lemma MapIsSafeExactly(st: State, addr: nat, n: nat)
    requires Inv(st) && OnDevice(st, addr, n)
    ensures Inv(Map(st, addr, n).0) <==> MapFits(st, addr, n)
    ensures Inv(MapZero(st, addr, n).0) <==> ZeroFits(st, addr, n)
  {
    hide View, Inv, MakeRoom;
    if MapFits(st, addr, n) {
      MapKeeps(st, addr, n);
    }
    if ZeroFits(st, addr, n) {
      MapZeroShows(st, addr, n);
    }
    var i := FindAddr(st.slots, addr, 0);
    if i < |st.slots| {
      if n > |st.slots[i].el.mem| {
        ApartMeansClear(st, Map(st, addr, n).0, i, addr, n);
      }
    } else {
      MakeRoomKeeps(st);
      var (room, slot) := MakeRoom(st);
      if slot.Some? {
        ApartMeansClear(room, Map(st, addr, n).0, slot.value, addr, n);
        ApartMeansClear(room, MapZero(st, addr, n).0, slot.value, addr, n);
      }
    }
  }

  lemma ApartMeansClear(st: State, after: State, i: nat, addr: nat, n: nat)
    requires i < |st.slots| == |after.slots| && after.slots[i].Used? && after.slots == st.slots[i := after.slots[i]]
    requires st.slots[i].Used? ==> st.slots[i].el.addr == addr
    requires after.slots[i].el.addr == addr && |after.slots[i].el.mem| == n
    ensures Inv(after) ==> ClearOfOthers(st, addr, n)
  {
    if Inv(after) {
      forall k | 0 <= k < |st.slots| && st.slots[k].Used? && st.slots[k].el.addr != addr
        ensures addr + n <= st.slots[k].el.addr || st.slots[k].el.addr + |st.slots[k].el.mem| <= addr
      {
        assert after.slots[k] == st.slots[k];
        assert Apart(after.slots[i].el, after.slots[k].el) || Apart(after.slots[k].el, after.slots[i].el);
      }
    }
  }

  /** With two elements over the same block, the write that came last is undone: block b, written
      through slot i and then through slot j, ends up on the device as it was before the second write. */
  lemma OverlapLosesWrite(st: State, i: nat, j: nat, b: nat, x: Block, y: Block)
    requires i != j && Covers(st, i, b) && Covers(st, j, b)
    requires OnDevice(st, st.slots[i].el.addr, |st.slots[i].el.mem|)
    requires OnDevice(st, st.slots[j].el.addr, |st.slots[j].el.mem|)
    ensures var written := WriteBlock(WriteBlock(st, i, b, x), j, b, y);
            Flush(Flush(written, j), i).disk[b] == x
  {
  }

  /** An element put where its extent is not clear of the others shares a block with one of them. */
  lemma SharedBlock(before: State, after: State, i: nat, addr: nat, n: nat) returns (j: nat, b: nat)
    requires i < |before.slots| == |after.slots| && after.slots == before.slots[i := after.slots[i]]
    requires after.slots[i].Used? && after.slots[i].el.addr == addr && |after.slots[i].el.mem| == n > 0
    requires before.slots[i].Used? ==> before.slots[i].el.addr == addr
    requires Inv(before) && |before.disk| == |after.disk| && !ClearOfOthers(before, addr, n)
    requires forall k | 0 <= k < |before.slots| && before.slots[k].Used? :: before.slots[k].el.mem != []
    ensures i != j && Covers(after, i, b) && Covers(after, j, b)
    ensures OnDevice(after, after.slots[j].el.addr, |after.slots[j].el.mem|)
  {
    hide Inv;
    j :| j < |before.slots| && before.slots[j].Used? && before.slots[j].el.addr != addr
         && before.slots[j].el.addr < addr + n && addr < before.slots[j].el.addr + |before.slots[j].el.mem|;
    b := if addr < before.slots[j].el.addr then before.slots[j].el.addr else addr;
    InvGives(before, j);
  }

  /** A map of a non-empty extent that does not fit leaves a block under two elements, provided that no
      extent in the cache is empty. */
  lemma UnfitMapCoversTwice(st: State, addr: nat, n: nat) returns (i: nat, j: nat, b: nat)
    requires Inv(st) && OnDevice(st, addr, n) && !MapFits(st, addr, n) && n > 0
    requires forall k | 0 <= k < |st.slots| && st.slots[k].Used? :: st.slots[k].el.mem != []
    ensures i != j && Covers(Map(st, addr, n).0, i, b) && Covers(Map(st, addr, n).0, j, b)
    ensures var after := Map(st, addr, n).0;
            && OnDevice(after, after.slots[i].el.addr, |after.slots[i].el.mem|)
            && OnDevice(after, after.slots[j].el.addr, |after.slots[j].el.mem|)
  {
    hide View, Inv, MakeRoom, ClearOfOthers;
    MakeRoomKeeps(st);
    var (room, slot) := MakeRoom(st);
    i := FindAddr(st.slots, addr, 0);
    if i < |st.slots| {
      j, b := SharedBlock(st, Map(st, addr, n).0, i, addr, n);
    } else {
      i := slot.value;
      j, b := SharedBlock(room, Map(st, addr, n).0, i, addr, n);
    }
  }

  /** So does a zero map. */
  lemma UnfitZeroMapCoversTwice(st: State, addr: nat, n: nat) returns (i: nat, j: nat, b: nat)
    requires Inv(st) && OnDevice(st, addr, n) && !ZeroFits(st, addr, n) && n > 0
    requires forall k | 0 <= k < |st.slots| && st.slots[k].Used? :: st.slots[k].el.mem != []
    ensures i != j && Covers(MapZero(st, addr, n).0, i, b) && Covers(MapZero(st, addr, n).0, j, b)
    ensures var after := MapZero(st, addr, n).0;
            && OnDevice(after, after.slots[i].el.addr, |after.slots[i].el.mem|)
            && OnDevice(after, after.slots[j].el.addr, |after.slots[j].el.mem|)
  {
    hide View, Inv, MakeRoom, ClearOfOthers;
    MakeRoomKeeps(st);
    var (room, slot) := MakeRoom(st);
    i := slot.value;
    j, b := SharedBlock(room, MapZero(st, addr, n).0, i, addr, n);
  }

  function Initial(capacity: nat, disk: seq<Block>): State {
    State(seq(capacity, _ => Empty), 0, disk)
  }

  lemma InitialIsInv(capacity: nat, disk: seq<Block>)
    ensures Inv(Initial(capacity, disk))
  {
    NumUsedBounds(Initial(capacity, disk).slots, capacity);
  }

  /** Two maps from the empty cache and two writes are enough: blocks [0, 2), then block 1; x through the
      first, then y through the second. Flushing both leaves x on the device. */
  lemma OverlapIsReached(disk: seq<Block>, x: Block, y: Block)
    requires |disk| >= 2
    ensures Inv(Initial(2, disk)) && MapFits(Initial(2, disk), 0, 2)
    ensures var first := Map(Initial(2, disk), 0, 2).0;
            && Inv(first) && !MapFits(first, 1, 1)
            && var second := Map(first, 1, 1).0;
               && Covers(second, 0, 1) && Covers(second, 1, 1) && |second.disk| >= 2
               && Flush(Flush(WriteBlock(WriteBlock(second, 0, 1, x), 1, 1, y), 1), 0).disk[1] == x
  {
    InitialIsInv(2, disk);
    var st := Initial(2, disk);
    assert st.slots == [Empty, Empty];
    assert FindAddr(st.slots, 0, 1) == 2 && FindAddr(st.slots, 0, 0) == 2;
    MapKeeps(st, 0, 2);
    var first := Map(st, 0, 2).0;
    assert first.slots == [Used(Fresh(0, disk[0..2])), Empty];
    assert FindAddr(first.slots, 1, 1) == 2 && FindAddr(first.slots, 1, 0) == 2;
    assert FindEmpty(first.slots, 0) == 1;
    var second := Map(first, 1, 1).0;
    assert second.slots == [Used(Fresh(0, disk[0..2])), Used(Fresh(1, disk[1..2]))];
    OverlapLosesWrite(second, 0, 1, 1, x, y);
  }

  /** pgcache_element_map_zero without the dirty mark keeps the invariant exactly when the blocks on
      the device are zero already. */
  lemma UnmarkedZeroMap(st: State, addr: nat, n: nat)
    requires Inv(st) && OnDevice(st, addr, n) && MissFits(st, addr, n)
    requires FindAddr(st.slots, addr, 0) == |st.slots| && MakeRoom(st).1.Some?
    ensures var (room, slot) := MakeRoom(st);
            var e := Fresh(addr, seq(n, _ => ZeroBlock()));
            Inv(Put(room, slot.value, e)) <==> room.disk[addr..addr + n] == seq(n, _ => ZeroBlock())
  {
    hide View, MakeRoom;
    MakeRoomKeeps(st);
    var (room, slot) := MakeRoom(st);
    var e := Fresh(addr, seq(n, _ => ZeroBlock()));
    if room.disk[addr..addr + n] == e.mem {
      PutShows(room, slot.value, e);
    } else {
      assert Put(room, slot.value, e).slots[slot.value] == Used(e);
    }
  }

  /** A map that finds no cached element and no empty slot evicts the first eligible slot of minimum
      access count and touches no other; it fails, and changes nothing, exactly when no slot is eligible. */
  lemma MissEvictsVictim(st: State, addr: nat, n: nat)
    requires Inv(st) && OnDevice(st, addr, n)
    requires FindAddr(st.slots, addr, 0) == |st.slots| == FindEmpty(st.slots, 0)
    ensures var (after, slot) := Map(st, addr, n);
            && (slot.None? <==> forall k | 0 <= k < |st.slots| :: !Eligible(st.slots[k]))
            && (slot.None? ==> after == st)
            && (slot.Some? ==>
                  && IsVictim(st.slots, slot.value) && !st.slots[slot.value].el.pin
                  && after.slots[slot.value].Used? && after.slots[slot.value].el.addr == addr
                  && (forall k | 0 <= k < |st.slots| && k != slot.value :: after.slots[k] == st.slots[k])
                  && after.inUse == st.inUse
                  && after.disk == Flush(st, slot.value).disk)
  {
    VictimIsFirstMinimum(st.slots, |st.slots|);
    assert st.slots[..|st.slots|] == st.slots;
    var v := Victim(st.slots, |st.slots|);
    if v < |st.slots| {
      EvictKeeps(st, v);
    }
  }

  // ----- what a map delivers -----

  /** The element a map returns starts at the requested block, is long enough, and holds the requested
      blocks as clients saw them before the call, whether it was a hit, a growth or a miss. */
  lemma MapDelivers(st: State, addr: nat, n: nat)
    requires Inv(st) && OnDevice(st, addr, n) && MapFits(st, addr, n)
    ensures var (after, slot) := Map(st, addr, n);
            slot.Some? ==>
              && slot.value < |after.slots| && after.slots[slot.value].Used?
              && var e := after.slots[slot.value].el;
                 && e.addr == addr && |e.mem| >= n && e.dirty != e.clean
                 && forall b: nat | addr <= b < addr + n :: e.mem[b - addr] == View(st, b)
  {
    MapKeeps(st, addr, n);
    MapPlaces(st, addr, n);
    hide Inv, View, Map;
    var (after, slot) := Map(st, addr, n);
    if slot.Some? {
      InvGives(after, slot.value);
      forall b: nat | addr <= b < addr + n
        ensures after.slots[slot.value].el.mem[b - addr] == View(st, b)
      {
        ViewOfCovered(after, slot.value, b);
      }
    }
  }

  lemma InvGives(st: State, i: nat)
    requires Inv(st) && i < |st.slots| && st.slots[i].Used?
    ensures GoodElem(st.slots[i].el, st.disk)
  {
  }

  lemma MapPlaces(st: State, addr: nat, n: nat)
    requires Inv(st) && OnDevice(st, addr, n)
    ensures var (after, slot) := Map(st, addr, n);
            slot.Some? ==>
              && slot.value < |after.slots| && after.slots[slot.value].Used?
              && after.slots[slot.value].el.addr == addr && |after.slots[slot.value].el.mem| >= n
  {
    hide Inv, MakeRoom;
    MakeRoomKeeps(st);
  }

  /** A hit returns the element's own slot, counts one more access and leaves flags and all other slots
      alone; the element keeps the blocks it had, dirty or not, also when it is read again to grow; and the
      device is written only when a dirty element has to grow, and then its extent. */
  lemma HitStaysInPlace(st: State, addr: nat, n: nat, i: nat)
    requires Inv(st) && OnDevice(st, addr, n)
    requires i < |st.slots| && st.slots[i].Used? && st.slots[i].el.addr == addr
    ensures var (after, slot) := Map(st, addr, n);
            && slot == Some(i) && after.inUse == st.inUse
            && (forall k | 0 <= k < |st.slots| && k != i :: after.slots[k] == st.slots[k])
            && after.slots[i] == Used(st.slots[i].el.(count := st.slots[i].el.count + 1, mem := after.slots[i].el.mem))
            && after.disk == (if n <= |st.slots[i].el.mem| then st.disk else Flush(st, i).disk)
            && |after.slots[i].el.mem| == (if n <= |st.slots[i].el.mem| then |st.slots[i].el.mem| else n)
            && st.slots[i].el.mem <= after.slots[i].el.mem
  {
    hide Inv;
    AddressIsUnique(st, FindAddr(st.slots, addr, 0), i);
    InvGives(st, i);
    var e := st.slots[i].el;
    var disk := if e.dirty then WriteExtent(st.disk, addr, e.mem) else st.disk;
    assert disk[addr..addr + |e.mem|] == e.mem;
    if n > |e.mem| {
      assert disk[addr..addr + n][..|e.mem|] == disk[addr..addr + |e.mem|];
    }
  }

  lemma AddressIsUnique(st: State, i: nat, j: nat)
    requires Inv(st) && i < |st.slots| && j < |st.slots| && st.slots[i].Used? && st.slots[j].Used?
    requires st.slots[i].el.addr == st.slots[j].el.addr
    ensures i == j
  {
  }

  /** A miss with room to spare takes the first empty slot and evicts and flushes nothing. */
  lemma MissFillsFirstEmpty(st: State, addr: nat, n: nat)
    requires Inv(st) && OnDevice(st, addr, n)
    requires FindAddr(st.slots, addr, 0) == |st.slots| && FindEmpty(st.slots, 0) < |st.slots|
    ensures var (after, slot) := Map(st, addr, n);
            && slot.Some? && slot.value < |st.slots| && st.slots[slot.value].Empty?
            && (forall k | 0 <= k < slot.value :: st.slots[k].Used?)
            && after == Put(st, slot.value, Fresh(addr, st.disk[addr..addr + n]))
  {
    hide Inv;
  }
}
