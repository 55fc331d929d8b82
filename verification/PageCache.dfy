/** The code of fs/page_cache.c and of the generic cache in fs/cache.c that it uses, call by call, as
    objects that are updated in place. Each call, and each flusher visit, is one step: the mutexes that
    make it one are the subject of the modules CacheProtocol and LockOrder. */
module PageCache {
  import opened PageCacheSpec
  import opened Storage
  import opened Wrappers
  import Bytes

  /** pgcache_element_t with its cache_element_t; the id of a mapped element is its block address. */
  class Element {
    var id: nat
    var mem: seq<Block>
    var dirty: bool
    var clean: bool
    var evict: bool
    var pin: bool
    var accessCount: nat

    ghost function Val(): Elem
      reads this
    {
      Elem(id, mem, dirty, clean, evict, pin, accessCount)
    }

    /** Neither marked nor pinned, and counted once. */
    ghost predicate New()
      reads this
    {
      !evict && !pin && accessCount == 1
    }

    constructor (id: nat, mem: seq<Block>)
      ensures Val() == Fresh(id, mem)
      ensures this.id == id && this.mem == mem && New()
      ensures !dirty && clean
    {
      this.id := id;
      this.mem := mem;
      dirty, clean, evict, pin := false, true, false, false;
      accessCount := 1;
    }
  }

  class Cache {
    var slots: array<Element?>
    var inUse: nat
    var disk: seq<Block>

    ghost predicate Distinct()
      reads this, slots
    {
      forall i, j | 0 <= i < j < slots.Length :: slots[i] != null ==> slots[i] != slots[j]
    }

    ghost function SlotVal(i: nat): Slot<Elem>
      reads this, slots, slots[..]
      requires i < slots.Length
    {
      if slots[i] == null then Empty else Used(slots[i].Val())
    }

    ghost function St(): (st: State)
      reads this, slots, slots[..]
      ensures |st.slots| == slots.Length
      ensures forall i | 0 <= i < slots.Length :: st.slots[i] == SlotVal(i)
    {
      State(seq(slots.Length, i requires 0 <= i < slots.Length reads this, slots, slots[..] => SlotVal(i)), inUse, disk)
    }

    ghost predicate Valid()
      reads this, slots, slots[..]
    {
      Distinct() && Inv(St())
    }

    /** cache_init */
    constructor (capacity: nat, device: seq<Block>)
      ensures Valid() && fresh(slots) && St() == State(seq(capacity, _ => Empty), 0, device)
    {
      slots := new Element?[capacity](_ => null);
      inUse := 0;
      disk := device;
      new;
      NumUsedBounds(St().slots, capacity);
      assert St().slots == seq(capacity, _ => Empty);
    }

    /** The scan for a block address that starts every map, eviction and lookup. */
    method ScanFor(addr: nat) returns (i: nat)
      requires Valid()
      ensures i == FindAddr(St().slots, addr, 0)
    {
      i := 0;
      while i < slots.Length
        invariant i <= slots.Length
        invariant FindAddr(St().slots, addr, 0) == FindAddr(St().slots, addr, i)
      {
        assert St().slots[i] == SlotVal(i);
        if slots[i] != null && slots[i].id == addr {
          return;
        }
        i := i + 1;
      }
    }

    /** pgcache_on_flush */
    method PgcacheOnFlush(el: Element)
      requires el.id + |el.mem| <= |disk|
      modifies this`disk
      ensures disk == WriteExtent(old(disk), el.id, el.mem)
    {
      disk := WriteExtent(disk, el.id, el.mem);
    }

    /** The flush of a dirty element, as eviction and the flusher do it. */
    method FlushIfDirty(i: nat)
      requires Valid() && i < slots.Length && slots[i] != null
      modifies this`disk, slots[i]
      ensures Valid()
      ensures St() == Flush(old(St()), i)
      ensures slots[i].evict == old(slots[i].evict)
    {
      hide Inv;
      ghost var st := St();
      InvGives(st, i);
      FlushKeeps(st, i);
      var el := slots[i];
      if el.dirty {
        el.accessCount := el.accessCount + 1;
        PgcacheOnFlush(el);
        el.dirty := false;
        el.clean := true;
      }
      OnlyOneChanged(st, i);
    }

    /** cache_element_evict_by_idx */
    method CacheElementEvictByIdx(i: nat)
      requires Valid() && i < slots.Length && slots[i] != null
      modifies this`disk, this`inUse, slots, slots[i]
      ensures Valid()
      ensures old(St()).inUse > 0
      ensures St() == EvictAt(old(St()), i)
    {
      hide Inv;
      ghost var st := St();
      EvictKeeps(st, i);
      FlushIfDirty(i);
      ghost var mid := St();
      inUse := inUse - 1;
      slots[i] := null;
      OnlyOneChanged(mid, i);
    }

    /** The first part of cache_element_map: an empty slot, or the slot of an evicted victim. */
    method FindRoom() returns (sub: int)
      requires Valid()
      modifies this`disk, this`inUse, slots, slots[..]
      ensures Valid()
      ensures St() == MakeRoom(old(St())).0
      ensures MakeRoom(old(St())).1 == if sub < 0 then None else Some(sub)
      ensures sub < slots.Length
    {
      hide Inv;
      ghost var st := St();
      sub := -1;
      var i := 0;
      while i < slots.Length
        invariant i <= slots.Length && sub == -1
        invariant FindEmpty(st.slots, 0) == FindEmpty(st.slots, i)
      {
        assert st.slots[i] == SlotVal(i);
        if slots[i] == null {
          sub := i;
          break;
        }
        i := i + 1;
      }
      if sub < 0 {
        sub := FindVictim();
        if sub < 0 {
          return;
        }
        assert st.slots[sub] == SlotVal(sub);
        CacheElementEvictByIdx(sub);
      }
    }

    /** The search for the least used element that is not pinned. */
    method FindVictim() returns (sub: int)
      requires Valid() && FindEmpty(St().slots, 0) == |St().slots|
      ensures -1 <= sub < slots.Length
      ensures Victim(St().slots, |St().slots|) == if sub < 0 then |St().slots| else sub
    {
      hide Inv;
      ghost var st := St();
      sub := -1;
      var min := Bytes.INT_MAX;
      for i := 0 to slots.Length
        invariant -1 <= sub < slots.Length
        invariant Victim(st.slots, i) == if sub < 0 then |st.slots| else sub
        invariant if sub < 0 then min == Bytes.INT_MAX
                  else st.slots[sub].Used? && min == st.slots[sub].el.count < Bytes.INT_MAX
      {
        assert st.slots[i] == SlotVal(i);
        var el := slots[i];
        if !el.pin {
          if el.accessCount < min {
            min := el.accessCount;
            sub := i;
          }
        }
      }
    }

    /** The element of slot i is the only one that changed since st. */
    lemma OnlyOneChanged(st: State, i: nat)
      requires |st.slots| == slots.Length && i < slots.Length
      requires forall k | 0 <= k < slots.Length && k != i :: SlotVal(k) == st.slots[k]
      ensures St().slots == st.slots[i := SlotVal(i)]
    {
    }

    /** CACHE_EL_ADD_COUNT on the element of slot i */
    method Touch(i: nat)
      requires Valid() && i < slots.Length && slots[i] != null
      modifies slots[i]
      ensures Valid()
      ensures St() == Replace(old(St()), i, old(slots[i].Val()).(count := old(slots[i].accessCount) + 1))
    {
      hide Inv;
      ghost var st := St();
      assert st.slots[i] == SlotVal(i);
      RelabelKeeps(st, i, st.slots[i].el.(count := st.slots[i].el.count + 1));
      slots[i].accessCount := slots[i].accessCount + 1;
      OnlyOneChanged(st, i);
    }

    /** A hit: the element is used once more, and grown if it is too short. */
    method UseAndGrow(i: nat, numBlocks: nat)
      requires Valid() && i < slots.Length && slots[i] != null
      requires OnDevice(St(), slots[i].id, numBlocks)
      requires FindAddr(St().slots, slots[i].id, 0) == i
      modifies this`disk, slots[i]
      ensures Distinct()
      ensures St() == Map(old(St()), old(slots[i].id), numBlocks).0
    {
      hide Inv;
      ghost var st := St();
      ghost var addr := slots[i].id;
      assert st.slots[i] == SlotVal(i);
      InvGives(st, i);
      var el := slots[i];
      el.accessCount := el.accessCount + 1;
      if numBlocks > |el.mem| {
        if el.dirty {
          PgcacheOnFlush(el);
        }
        el.mem := disk[el.id..el.id + numBlocks];
      }
      OnlyOneChanged(st, i);
    }

    /** Puts a new element into an empty slot. */
    method Install(sub: nat, el: Element)
      requires Distinct() && sub < slots.Length && slots[sub] == null
      requires forall k | 0 <= k < slots.Length :: slots[k] != el
      modifies this`inUse, slots
      ensures Distinct() && St() == Put(old(St()), sub, old(el.Val()))
      ensures slots[sub] == el
    {
      ghost var st := St();
      inUse := inUse + 1;
      slots[sub] := el;
      assert forall k | 0 <= k < slots.Length && k != sub :: SlotVal(k) == st.slots[k];
      OnlyOneChanged(st, sub);
    }

    /** Creates the element of a miss in the slot that was found for it; a zero map's is marked dirty. */
    method Fill(sub: nat, addr: nat, mem: seq<Block>, dirty: bool) returns (el: Element)
      requires Distinct() && sub < slots.Length && slots[sub] == null
      modifies this`inUse, slots
      ensures Distinct() && slots[sub] == el
      ensures var e := Fresh(addr, mem);
              St() == Put(old(St()), sub, if dirty then e.(dirty := true, clean := false) else e)
      ensures el.id == addr && el.mem == mem && el.dirty == dirty && el.clean == !dirty && el.New()
    {
      el := new Element(addr, mem);
      if dirty {
        CacheElementMarkDirty(el);
      }
      Install(sub, el);
    }

    /** pgcache_element_map */
    method PgcacheElementMap(addr: nat, numBlocks: nat) returns (el: Element?, ghost slot: Option<nat>)
      requires Valid() && OnDevice(St(), addr, numBlocks)
      modifies this`disk, this`inUse, slots, slots[..]
      ensures Distinct() && (Valid() <==> MapFits(old(St()), addr, numBlocks))
      ensures (St(), slot) == Map(old(St()), addr, numBlocks)
      ensures slot.Some? ==> slot.value < slots.Length
      ensures el == if slot.Some? then slots[slot.value] else null
      ensures el != null && FindAddr(old(St()).slots, addr, 0) == slots.Length ==>
                el.id == addr && |el.mem| == numBlocks && !el.dirty && el.clean && el.New()
    {
      hide Inv, MapFits, MapZero, MakeRoom, FindAddr, Put, Victim, NumUsed;
      ghost var st := St();
      MapIsSafeExactly(st, addr, numBlocks);
      var i := ScanFor(addr);
      if i < slots.Length {
        assert st.slots[i] == SlotVal(i);
        UseAndGrow(i, numBlocks);
        return slots[i], Some(i);
      }
      MakeRoomKeeps(st);
      var sub := FindRoom();
      if sub < 0 {
        return null, None;
      }
      el := Fill(sub, addr, disk[addr..addr + numBlocks], false);
      slot := Some(sub);
    }

    /** pgcache_element_map_zero with the dirty mark that its caller owes the new element */
    method PgcacheElementMapZero(addr: nat, numBlocks: nat) returns (el: Element?, ghost slot: Option<nat>)
      requires Valid() && OnDevice(St(), addr, numBlocks)
      modifies this`disk, this`inUse, slots, slots[..]
      ensures Distinct() && (Valid() <==> ZeroFits(old(St()), addr, numBlocks))
      ensures (St(), slot) == MapZero(old(St()), addr, numBlocks)
      ensures slot.Some? ==> slot.value < slots.Length
      ensures el == if slot.Some? then slots[slot.value] else null
      ensures el != null ==>
                && el.id == addr && |el.mem| == numBlocks && (forall b | 0 <= b < numBlocks :: ZeroBytes(el.mem[b]))
                && el.dirty && !el.clean && el.New()
    {
      hide Inv, ZeroFits, Map, MakeRoom, FindAddr, Put, Victim, NumUsed, ZeroBlock, ZeroBytes;
      ghost var st := St();
      MapIsSafeExactly(st, addr, numBlocks);
      var i := ScanFor(addr);
      if i < slots.Length {
        assert st.slots[i] == SlotVal(i);
        Touch(i);
        return null, None;
      }
      MakeRoomKeeps(st);
      var sub := FindRoom();
      if sub < 0 {
        return null, None;
      }
      OnlyZeroBytesAreZero(ZeroBlock());
      el := Fill(sub, addr, seq(numBlocks, _ => ZeroBlock()), true);
      slot := Some(sub);
    }

    /** cache_element_mark_dirty on a live element */
    static method CacheElementMarkDirty(el: Element)
      modifies el`dirty, el`clean
      ensures el.Val() == old(el.Val()).(dirty := true, clean := false)
    {
      el.dirty := true;
      el.clean := false;
    }

    /** A client's write into the memory of a live element, and its dirty mark. */
    method WriteAndMark(el: Element, b: nat, x: Block, ghost i: nat)
      requires Valid() && i < slots.Length && slots[i] == el && el.id <= b < el.id + |el.mem|
      modifies el
      ensures Valid()
      ensures St() == WriteBlock(old(St()), i, b, x)
    {
      hide Inv;
      ghost var st := St();
      assert st.slots[i] == SlotVal(i);
      WriteShows(st, i, b, x);
      el.mem := el.mem[b - el.id := x];
      CacheElementMarkDirty(el);
      OnlyOneChanged(st, i);
    }

    /** cache_element_mark_eviction, cache_element_pin and cache_element_mark_unpin on a live element */
    method Relabel(el: Element, evict: bool, pin: bool, ghost i: nat)
      requires Valid() && i < slots.Length && slots[i] == el
      modifies el`evict, el`pin
      ensures Valid()
      ensures St() == Replace(old(St()), i, old(el.Val()).(evict := evict, pin := pin))
    {
      hide Inv;
      ghost var st := St();
      assert st.slots[i] == SlotVal(i);
      RelabelKeeps(st, i, el.Val().(evict := evict, pin := pin));
      el.evict := evict;
      el.pin := pin;
      OnlyOneChanged(st, i);
    }

    /** cache_lookup */
    method CacheLookup(key: nat) returns (el: Element?)
      requires Valid()
      modifies slots[..]
      ensures Valid()
      ensures St() == Lookup(old(St()), key)
      ensures var i := FindAddr(old(St()).slots, key, 0); el == if i < slots.Length then slots[i] else null
    {
      hide Inv;
      ghost var st := St();
      var i := ScanFor(key);
      if i == slots.Length {
        return null;
      }
      assert st.slots[i] == SlotVal(i);
      Touch(i);
      return slots[i];
    }

    /** cache_element_evict */
    method CacheElementEvict(key: nat)
      requires Valid()
      modifies this`disk, this`inUse, slots, slots[..]
      ensures Valid()
      ensures St() == EvictKey(old(St()), key)
    {
      hide Inv;
      ghost var st := St();
      var i := ScanFor(key);
      if i < slots.Length {
        assert st.slots[i] == SlotVal(i);
        CacheElementEvictByIdx(i);
      }
    }

    /** The flusher's visit of slot i, its trylock having succeeded. */
    method FlusherVisit(i: nat)
      requires Valid() && i < slots.Length
      modifies this`disk, this`inUse, slots, slots[i]
      ensures Valid()
      ensures St() == Visit(old(St()), i)
      ensures forall k | 0 <= k < slots.Length :: slots[k] == null || slots[k] == old(slots[k])
    {
      hide Inv;
      ghost var st := St();
      assert st.slots[i] == SlotVal(i);
      var el := slots[i];
      if el == null {
        return;
      }
      VisitKeeps(st, i);
      UsedMeansCounted(st, i);
      FlushIfDirty(i);
      if el.evict {
        ghost var mid := St();
        inUse := inUse - 1;
        slots[i] := null;
        OnlyOneChanged(mid, i);
      }
    }

    /** One pass of cache_thread over all slots, every trylock succeeding. */
    method FlusherPass()
      requires Valid()
      modifies this`disk, this`inUse, slots, slots[..]
      ensures Valid()
      ensures St() == Pass(old(St()), |old(St()).slots|)
    {
      hide Inv;
      ghost var st := St();
      if inUse > 0 {
        for i := 0 to slots.Length
          invariant Valid() && St() == Pass(st, i)
          invariant forall k | 0 <= k < slots.Length :: slots[k] == null || slots[k] == old(slots[k])
        {
          FlusherVisit(i);
        }
      } else {
        IdlePass(st, slots.Length);
      }
    }
  }

  /** A pass over an empty cache does nothing. */
  lemma {:induction false} IdlePass(st: State, n: nat)
    requires Inv(st) && st.inUse == 0 && n <= |st.slots|
    ensures Pass(st, n) == st
  {
    if n > 0 {
      IdlePass(st, n - 1);
      if st.slots[n - 1].Used? {
        UsedMeansCounted(st, n - 1);
      }
    }
  }
}
