/** The cache of fs/cache.c with its flusher thread and any number of clients interleaved, one step for
    each critical section and for each stage of the flusher's visit: the flags are read before the
    element's mutex is tried. A trylock may fail at any time, as it does when a client is inside. */
module CacheProtocol {
  import opened Storage

  /** A live element: its identity, the first block of its extent, the extent's blocks in memory, and its
      flags. */
  datatype El = El(uid: nat, key: nat, mem: seq<nat>,
                   active: bool, dirty: bool, clean: bool, evict: bool, pin: bool)

  /** The flags as the flusher read them. */
  datatype Seen = Seen(dirty: bool, evict: bool)

  /** Where the flusher is: asleep, about to look at slot i, having read its flags, holding its mutex,
      having run the flush callback, having updated DIRTY; or terminated. */
  datatype Flusher =
    | Asleep
    | At(i: nat)
    | Snapped(i: nat, seen: Seen)
    | Locked(i: nat, seen: Seen)
    | Flushed(i: nat, seen: Seen)
    | Ready(i: nat, seen: Seen)
    | Gone

  /** The holder of ca_mutex. */
  datatype Owner = Free | ByFlusher | ByMarker

  datatype Core = Core(slots: seq<Slot<El>>, inUse: nat, device: seq<nat>, fl: Flusher, ca: Owner, nextUid: nat)

  datatype Step =
    | FWake
    | FLook
    | FTryLock(ok: bool)
    | FFlush
    | FClear
    | FFinish
    | FSleep(last: bool)
    | Write(i: nat, b: nat, v: nat)
    | Grow(i: nat, n: nat)
    | MarkEvict(i: nat)
    | SetPin(i: nat, pin: bool)
    | MapKey(i: nat, key: nat, n: nat)
    | EvictSlot(i: nat)
    | MarkerTake
    | MarkerGive

  predicate IsLive(c: Core, i: nat) {
    i < |c.slots| && c.slots[i].Used?
  }

  /** The flusher holds the mutex of slot i's element. */
  predicate HeldByFlusher(c: Core, i: nat) {
    (c.fl.Locked? || c.fl.Flushed? || c.fl.Ready?) && c.fl.i == i
  }

  /** The extents do not overlap and do not start at the same block. */
  predicate Apart(key: nat, n: nat, e: El) {
    ExtentsApart(key, n, e.key, |e.mem|)
  }

  /** No element in another slot than i is in the way of the extent. */
  predicate ApartFromOthers(c: Core, i: nat, key: nat, n: nat) {
    forall j | 0 <= j < |c.slots| && j != i && c.slots[j].Used? :: Apart(key, n, c.slots[j].el)
  }

  predicate AllUsed(c: Core) {
    forall i | 0 <= i < |c.slots| :: c.slots[i].Used?
  }

  /** When the code can take a step. A client writes to a live element and marks it dirty in one step. */
  predicate Feasible(c: Core, s: Step) {
    match s
    case FWake => c.fl.Asleep? && c.ca.Free?
    case FLook => c.fl.At? && c.fl.i < |c.slots|
    case FTryLock(ok) => c.fl.Snapped?
    case FFlush => c.fl.Locked?
    case FClear => c.fl.Flushed?
    case FFinish => c.fl.Ready?
    case FSleep(last) => c.fl.At? && c.fl.i == |c.slots|
    case Write(i, b, v) => CanMark(c, i) && Covers(c, i, b)
    case Grow(i, n) =>
      && CanMark(c, i) && |c.slots[i].el.mem| < n && c.slots[i].el.key + n <= |c.device|
      && ApartFromOthers(c, i, c.slots[i].el.key, n)
    case MarkEvict(i) => CanMark(c, i)
    case SetPin(i, pin) => CanMark(c, i)
    case MapKey(i, key, n) =>
      && c.ca.Free? && key + n <= |c.device| && ApartFromOthers(c, i, key, n) && i < |c.slots|
      && (c.slots[i].Empty? || (AllUsed(c) && !c.slots[i].el.pin && c.slots[i].el.key != key))
    case EvictSlot(i) => c.ca.Free? && IsLive(c, i)
    case MarkerTake => c.ca.Free?
    case MarkerGive => c.ca.ByMarker?
  }

  /** Slot i's element caches block b. */
  predicate Covers(c: Core, i: nat, b: nat) {
    IsLive(c, i) && c.slots[i].el.key <= b < c.slots[i].el.key + |c.slots[i].el.mem|
  }

  /** The flusher has read slot i's flags as EVICT without DIRTY and has not yet locked the element. */
  predicate Risky(c: Core, i: nat) {
    c.fl.Snapped? && c.fl.i == i && c.fl.seen.evict && !c.fl.seen.dirty
  }

  /** The steps of disciplined clients, who do not dirty an element in that window. */
  predicate Enabled(c: Core, s: Step) {
    Feasible(c, s) && (s.Write? ==> !Risky(c, s.i))
  }

  /** The element of slot i is ACTIVE and can be locked by a client. */
  predicate CanMark(c: Core, i: nat) {
    IsLive(c, i) && c.slots[i].el.active && !HeldByFlusher(c, i)
  }

  /** A client's write of one block, with its dirty mark. */
  function Written(e: El, b: nat, v: nat): El
    requires e.key <= b < e.key + |e.mem|
  {
    e.(mem := e.mem[b - e.key := v], dirty := true, clean := false)
  }

  function SetEl(c: Core, i: nat, e: El): Core
    requires i < |c.slots|
  {
    c.(slots := c.slots[i := Used(e)])
  }

  /** The flush callback on slot i. */
  function Store(c: Core, i: nat): Core
    requires IsLive(c, i)
  {
    var e := c.slots[i].el;
    if e.key + |e.mem| <= |c.device| then c.(device := WriteExtent(c.device, e.key, e.mem)) else c
  }

  function Remove(c: Core, i: nat): Core
    requires i < |c.slots|
  {
    c.(slots := c.slots[i := Empty], inUse := if c.inUse > 0 then c.inUse - 1 else 0)
  }

  /** cache_element_evict_by_idx */
  function EvictNow(c: Core, i: nat): Core
    requires IsLive(c, i)
  {
    Remove(if c.slots[i].el.dirty then Store(c, i) else c, i)
  }

  /** The new element of a map: read from the device, CLEAN, under a fresh identity. */
  function Install(c: Core, i: nat, key: nat, n: nat): Core
    requires i < |c.slots| && key + n <= |c.device|
  {
    SetEl(c, i, El(c.nextUid, key, c.device[key..key + n], true, false, true, false, false))
      .(inUse := c.inUse + 1, nextUid := c.nextUid + 1)
  }

  /** The critical section in which a cached element grows: flushed if dirty, then read again in full; its
      flags stay as they are. */
  function Regrow(c: Core, i: nat, n: nat): Core
    requires IsLive(c, i) && c.slots[i].el.key + n <= |c.device|
  {
    var d := if c.slots[i].el.dirty then Store(c, i) else c;
    SetEl(d, i, c.slots[i].el.(mem := d.device[c.slots[i].el.key..c.slots[i].el.key + n]))
  }

  /** At each stage of a visit the flusher's slot holds an element. */
  predicate Placed(c: Core) {
    c.fl.Snapped? || c.fl.Locked? || c.fl.Flushed? || c.fl.Ready? ==> IsLive(c, c.fl.i)
  }

  function Apply(c: Core, s: Step): Core
    requires Placed(c) && Feasible(c, s)
  {
    match s
    case FWake => c.(ca := ByFlusher, fl := At(if c.inUse > 0 then 0 else |c.slots|))
    case FLook =>
      var i := c.fl.i;
      if c.slots[i].Empty? || !c.slots[i].el.active then c.(fl := At(i + 1))
      else c.(fl := Snapped(i, Seen(c.slots[i].el.dirty, c.slots[i].el.evict)))
    case FTryLock(ok) => c.(fl := if ok then Locked(c.fl.i, c.fl.seen) else At(c.fl.i + 1))
    case FFlush =>
      if c.fl.seen.dirty then Store(c, c.fl.i).(fl := Flushed(c.fl.i, c.fl.seen))
      else c.(fl := Ready(c.fl.i, c.fl.seen))
    case FClear =>
      var i := c.fl.i;
      SetEl(c, i, c.slots[i].el.(dirty := false, clean := true)).(fl := Ready(i, c.fl.seen))
    case FFinish =>
      (if c.fl.seen.evict then Remove(c, c.fl.i) else c).(fl := At(c.fl.i + 1))
    case FSleep(last) => c.(ca := Free, fl := if last then Gone else Asleep)
    case Write(i, b, v) => SetEl(c, i, Written(c.slots[i].el, b, v))
    case Grow(i, n) => Regrow(c, i, n)
    case MarkEvict(i) => SetEl(c, i, c.slots[i].el.(evict := true))
    case SetPin(i, pin) => SetEl(c, i, c.slots[i].el.(pin := pin))
    case MapKey(i, key, n) => Install(if c.slots[i].Used? then EvictNow(c, i) else c, i, key, n)
    case EvictSlot(i) => EvictNow(c, i)
    case MarkerTake => c.(ca := ByMarker)
    case MarkerGive => c.(ca := Free)
  }

  // ----- the invariant -----

  /** The device holds what the element has in memory. */
  predicate Saved(e: El, device: seq<nat>) {
    e.key + |e.mem| <= |device| && device[e.key..e.key + |e.mem|] == e.mem
  }

  /** A live element caches an extent of the device, is ACTIVE, has exactly one of DIRTY and CLEAN, and without
      DIRTY it equals the device. */
  predicate GoodEl(e: El, device: seq<nat>, nextUid: nat) {
    && e.key + |e.mem| <= |device| && e.uid < nextUid
    && e.active && e.dirty != e.clean
    && (!e.dirty ==> Saved(e, device))
  }

  /** Live elements are good, and no two share a block or an identity. */
  ghost predicate GoodParts(slots: seq<Slot<El>>, device: seq<nat>, nextUid: nat) {
    && (forall i | 0 <= i < |slots| && slots[i].Used? :: GoodEl(slots[i].el, device, nextUid))
    && (forall i, j | 0 <= i < |slots| && 0 <= j < |slots| && i != j && slots[i].Used? && slots[j].Used? ::
          Apart(slots[i].el.key, |slots[i].el.mem|, slots[j].el) && slots[i].el.uid != slots[j].el.uid)
  }

  ghost predicate GoodSlots(c: Core) {
    GoodParts(c.slots, c.device, c.nextUid)
  }

  /** What was seen up still is, and an element seen marked for eviction has not become dirty since. */
  predicate StillTrue(seen: Seen, e: El) {
    (seen.evict ==> e.evict) && (seen.dirty ==> e.dirty) && (seen.evict && e.dirty ==> seen.dirty)
  }

  /** What the flusher knows at each stage of a visit about the element e it is at. */
  predicate StageKnows(fl: Flusher, e: El, device: seq<nat>) {
    match fl
    case Snapped(i, seen) => StillTrue(seen, e)
    case Locked(i, seen) => StillTrue(seen, e)
    case Flushed(i, seen) => (seen.evict ==> e.evict) && seen.dirty && Saved(e, device)
    case Ready(i, seen) => (seen.evict ==> e.evict && !e.dirty) && (seen.dirty ==> !e.dirty)
    case _ => true
  }

  predicate FlusherInv(c: Core) {
    && (c.ca.ByFlusher? <==> !c.fl.Asleep? && !c.fl.Gone?)
    && (c.fl.At? ==> c.fl.i <= |c.slots|)
    && Placed(c)
    && (c.fl.Snapped? || c.fl.Locked? || c.fl.Flushed? || c.fl.Ready? ==>
          StageKnows(c.fl, c.slots[c.fl.i].el, c.device))
  }

  ghost predicate Inv(c: Core) {
    && c.inUse == NumUsed(c.slots, |c.slots|)
    && GoodSlots(c)
    && FlusherInv(c)
  }

  // ----- every step keeps the invariant -----

  lemma SetElKeeps(c: Core, i: nat, e: El)
    requires GoodSlots(c) && c.inUse == NumUsed(c.slots, |c.slots|)
    requires IsLive(c, i) && GoodEl(e, c.device, c.nextUid)
    requires e.key == c.slots[i].el.key && e.uid == c.slots[i].el.uid
    requires |e.mem| == |c.slots[i].el.mem| || ApartFromOthers(c, i, e.key, |e.mem|)
    ensures GoodSlots(SetEl(c, i, e)) && SetEl(c, i, e).inUse == NumUsed(SetEl(c, i, e).slots, |c.slots|)
  {
    NumUsedAfter(c.slots, i, Used(e), |c.slots|);
  }

  lemma StoreKeeps(c: Core, i: nat)
    requires GoodSlots(c) && IsLive(c, i)
    ensures GoodSlots(Store(c, i)) && |Store(c, i).device| == |c.device|
    ensures Store(c, i) == c.(device := Store(c, i).device)
    ensures Saved(c.slots[i].el, Store(c, i).device)
    ensures forall b: nat | b < |c.device| && !Covers(c, i, b) :: Store(c, i).device[b] == c.device[b]
  {
    var e, d := c.slots[i].el, Store(c, i);
    WrittenExtent(c.device, e.key, e.mem);
    forall j | 0 <= j < |c.slots| && c.slots[j].Used?
      ensures GoodEl(c.slots[j].el, d.device, c.nextUid)
    {
      if j != i {
        var f := c.slots[j].el;
        assert Apart(e.key, |e.mem|, f);
        UnwrittenExtent(c.device, e.key, e.mem, f.key, |f.mem|);
      }
    }
  }

  lemma RemoveKeeps(c: Core, i: nat)
    requires GoodSlots(c) && c.inUse == NumUsed(c.slots, |c.slots|) && IsLive(c, i)
    ensures GoodSlots(Remove(c, i)) && Remove(c, i).inUse == NumUsed(Remove(c, i).slots, |c.slots|)
    ensures Remove(c, i).inUse == c.inUse - 1 && Remove(c, i).device == c.device
  {
    NumUsedAfter(c.slots, i, Empty, |c.slots|);
  }

  lemma EvictNowKeeps(c: Core, i: nat)
    requires GoodSlots(c) && c.inUse == NumUsed(c.slots, |c.slots|) && IsLive(c, i)
    ensures |EvictNow(c, i).device| == |c.device|
    ensures GoodSlots(EvictNow(c, i)) && EvictNow(c, i).inUse == NumUsed(EvictNow(c, i).slots, |c.slots|)
  {
    hide GoodParts, NumUsed, Store, Remove;
    StoreKeeps(c, i);
    RemoveKeeps(if c.slots[i].el.dirty then Store(c, i) else c, i);
  }

  /** Filling an empty slot with a new element over an extent that nobody's overlaps. */
  lemma InstallKeeps(c: Core, i: nat, key: nat, n: nat)
    requires GoodSlots(c) && c.inUse == NumUsed(c.slots, |c.slots|)
    requires i < |c.slots| && c.slots[i].Empty? && key + n <= |c.device| && ApartFromOthers(c, i, key, n)
    ensures GoodSlots(Install(c, i, key, n))
    ensures Install(c, i, key, n).inUse == NumUsed(Install(c, i, key, n).slots, |c.slots|)
  {
    NumUsedAfter(c.slots, i, Install(c, i, key, n).slots[i], |c.slots|);
  }

  lemma RegrowKeeps(c: Core, i: nat, n: nat)
    requires GoodSlots(c) && c.inUse == NumUsed(c.slots, |c.slots|)
    requires IsLive(c, i) && c.slots[i].el.key + n <= |c.device| && ApartFromOthers(c, i, c.slots[i].el.key, n)
    ensures GoodSlots(Regrow(c, i, n)) && Regrow(c, i, n).inUse == NumUsed(Regrow(c, i, n).slots, |c.slots|)
    ensures |Regrow(c, i, n).device| == |c.device|
  {
    hide GoodParts, NumUsed, Store;
    LiveIsGood(c, i);
    StoreKeeps(c, i);
    var d := if c.slots[i].el.dirty then Store(c, i) else c;
    SetElKeeps(d, i, Regrow(c, i, n).slots[i].el);
  }

  lemma FlusherKeepsBooks(c: Core, s: Step)
    requires Inv(c) && Enabled(c, s) && (s.FFlush? || s.FClear? || s.FFinish?)
    ensures GoodSlots(Apply(c, s)) && Apply(c, s).inUse == NumUsed(Apply(c, s).slots, |Apply(c, s).slots|)
    ensures |Apply(c, s).slots| == |c.slots| && |Apply(c, s).device| == |c.device|
  {
    hide GoodParts, NumUsed;
    if s.FFlush? {
      StoreKeeps(c, c.fl.i);
    } else if s.FClear? {
      LiveIsGood(c, c.fl.i);
      SetElKeeps(c, c.fl.i, c.slots[c.fl.i].el.(dirty := false, clean := true));
    } else {
      RemoveKeeps(c, c.fl.i);
    }
  }

  lemma CallKeepsBooks(c: Core, s: Step)
    requires Inv(c) && Enabled(c, s) && (s.Grow? || s.MapKey? || s.EvictSlot?)
    ensures GoodSlots(Apply(c, s)) && Apply(c, s).inUse == NumUsed(Apply(c, s).slots, |Apply(c, s).slots|)
    ensures |Apply(c, s).slots| == |c.slots| && |Apply(c, s).device| == |c.device|
  {
    hide GoodParts, NumUsed;
    match s
    case Grow(i, n) => RegrowKeeps(c, i, n);
    case MapKey(i, key, n) =>
      if c.slots[i].Used? {
        EvictNowKeeps(c, i);
        InstallKeeps(EvictNow(c, i), i, key, n);
      } else {
        InstallKeeps(c, i, key, n);
      }
    case EvictSlot(i) => EvictNowKeeps(c, i);
  }

  lemma BookkeepingKept(c: Core, s: Step)
    requires Inv(c) && Enabled(c, s)
    ensures GoodSlots(Apply(c, s)) && Apply(c, s).inUse == NumUsed(Apply(c, s).slots, |Apply(c, s).slots|)
    ensures |Apply(c, s).slots| == |c.slots| && |Apply(c, s).device| == |c.device|
  {
    if s.FFlush? || s.FClear? || s.FFinish? {
      FlusherKeepsBooks(c, s);
    } else if s.Grow? || s.MapKey? || s.EvictSlot? {
      CallKeepsBooks(c, s);
    } else {
      hide GoodParts, NumUsed;
      match s
      case Write(i, b, v) =>
        LiveIsGood(c, i);
        SetElKeeps(c, i, Written(c.slots[i].el, b, v));
      case MarkEvict(i) =>
        LiveIsGood(c, i);
        SetElKeeps(c, i, c.slots[i].el.(evict := true));
      case SetPin(i, pin) =>
        LiveIsGood(c, i);
        SetElKeeps(c, i, c.slots[i].el.(pin := pin));
      case _ =>
    }
  }

  lemma LiveIsGood(c: Core, i: nat)
    requires GoodSlots(c) && IsLive(c, i)
    ensures GoodEl(c.slots[i].el, c.device, c.nextUid)
  {
  }

  /** A flush of one element leaves what another one has on the device. */
  lemma SavedStays(c: Core, i: nat, j: nat)
    requires GoodSlots(c) && IsLive(c, i) && IsLive(c, j) && i != j && Saved(c.slots[j].el, c.device)
    ensures Saved(c.slots[j].el, Store(c, i).device)
  {
    var e, f := c.slots[i].el, c.slots[j].el;
    assert Apart(e.key, |e.mem|, f) && GoodEl(e, c.device, c.nextUid);
    UnwrittenExtent(c.device, e.key, e.mem, f.key, |f.mem|);
  }

  predicate FlusherStep(s: Step) {
    s.FWake? || s.FLook? || s.FTryLock? || s.FFlush? || s.FClear? || s.FFinish? || s.FSleep?
  }

  lemma FlusherKeptByFlusher(c: Core, s: Step)
    requires Inv(c) && Enabled(c, s) && FlusherStep(s)
    ensures FlusherInv(Apply(c, s))
  {
    hide NumUsed, GoodParts;
    if s.FFlush? {
      StoreKeeps(c, c.fl.i);
    }
  }

  lemma FlusherKeptByClients(c: Core, s: Step)
    requires Inv(c) && Enabled(c, s) && !FlusherStep(s)
    ensures FlusherInv(Apply(c, s))
  {
    hide NumUsed, GoodParts, Saved, WriteExtent;
    if s.Grow? && c.fl.Flushed? {
      SavedStays(c, s.i, c.fl.i);
    }
  }

  /** Every step of disciplined clients and the flusher keeps the invariant. */
  lemma InvKept(c: Core, s: Step)
    requires Inv(c) && Enabled(c, s)
    ensures Inv(Apply(c, s))
  {
    hide GoodParts, FlusherInv, NumUsed, Apply, Enabled, Feasible;
    BookkeepingKept(c, s);
    if FlusherStep(s) {
      FlusherKeptByFlusher(c, s);
    } else {
      FlusherKeptByClients(c, s);
    }
  }

  // ----- what clients see -----

  ghost predicate Cached(c: Core, b: nat) {
    exists i: nat :: Covers(c, i, b)
  }

  /** A block as clients see it: the cached copy if there is one, else the device. */
  ghost function ValueAt(c: Core, b: nat): nat
    requires b < |c.device|
  {
    if Cached(c, b) then
      var i: nat :| Covers(c, i, b);
      c.slots[i].el.mem[b - c.slots[i].el.key]
    else c.device[b]
  }

  lemma ValueOfCovered(c: Core, i: nat, b: nat)
    requires GoodSlots(c) && Covers(c, i, b)
    ensures b < |c.device| && Cached(c, b)
    ensures ValueAt(c, b) == c.slots[i].el.mem[b - c.slots[i].el.key]
  {
    LiveIsGood(c, i);
    forall j: nat | Covers(c, j, b)
      ensures j == i
    {
      CoverIsUnique(c, i, j, b);
    }
  }

  lemma CoverIsUnique(c: Core, i: nat, j: nat, b: nat)
    requires GoodSlots(c) && Covers(c, i, b) && Covers(c, j, b)
    ensures i == j
  {
    assert i != j ==> Apart(c.slots[i].el.key, |c.slots[i].el.mem|, c.slots[j].el);
  }

  /** A block of an element that the device agrees with shows the device. */
  lemma ValueOfSaved(c: Core, i: nat, b: nat)
    requires GoodSlots(c) && Covers(c, i, b) && Saved(c.slots[i].el, c.device)
    ensures b < |c.device| && ValueAt(c, b) == c.device[b]
  {
    ValueOfCovered(c, i, b);
    var e := c.slots[i].el;
    assert c.device[e.key..e.key + |e.mem|][b - e.key] == c.device[b];
  }

  /** Two states whose arrays agree except at slot i, where neither caches block b, show the same there. */
  lemma SameElsewhere(c: Core, d: Core, i: nat, b: nat)
    requires GoodSlots(c) && GoodSlots(d)
    requires |c.slots| == |d.slots| && i < |c.slots| && d.slots == c.slots[i := d.slots[i]]
    requires !Covers(c, i, b) && !Covers(d, i, b)
    requires b < |c.device| && b < |d.device| && c.device[b] == d.device[b]
    ensures ValueAt(c, b) == ValueAt(d, b)
  {
    hide GoodParts;
    if Cached(c, b) {
      var j: nat :| Covers(c, j, b);
      assert Covers(d, j, b);
      ValueOfCovered(c, j, b);
      ValueOfCovered(d, j, b);
    } else {
      assert forall j: nat :: Covers(d, j, b) ==> Covers(c, j, b);
    }
  }

  /** Rewriting an element in place, without moving it, changes what is seen of its own blocks only. */
  lemma SetElShows(c: Core, i: nat, e: El, b: nat)
    requires GoodSlots(c) && IsLive(c, i) && e.key == c.slots[i].el.key && |e.mem| == |c.slots[i].el.mem|
    requires b < |c.device| && GoodSlots(SetEl(c, i, e))
    ensures ValueAt(SetEl(c, i, e), b) == if Covers(c, i, b) then e.mem[b - e.key] else ValueAt(c, b)
  {
    hide GoodParts, ValueAt;
    var d := SetEl(c, i, e);
    if Covers(c, i, b) {
      ValueOfCovered(d, i, b);
    } else {
      SameElsewhere(c, d, i, b);
    }
  }

  /** A flush shows nothing new. */
  lemma StoreShows(c: Core, i: nat, b: nat)
    requires GoodSlots(c) && IsLive(c, i) && b < |c.device|
    ensures |Store(c, i).device| == |c.device|
    ensures ValueAt(Store(c, i), b) == ValueAt(c, b)
  {
    hide GoodParts, ValueAt, Store;
    StoreKeeps(c, i);
    if Covers(c, i, b) {
      ValueOfCovered(c, i, b);
      ValueOfCovered(Store(c, i), i, b);
    } else {
      SameElsewhere(c, Store(c, i), i, b);
    }
  }

  /** Dropping an element that the device agrees with shows nothing new. */
  lemma RemoveShows(c: Core, i: nat, b: nat)
    requires GoodSlots(c) && c.inUse == NumUsed(c.slots, |c.slots|) && IsLive(c, i) && b < |c.device|
    requires Saved(c.slots[i].el, c.device)
    ensures ValueAt(Remove(c, i), b) == ValueAt(c, b)
  {
    hide NumUsed, ValueAt, GoodParts;
    RemoveKeeps(c, i);
    if Covers(c, i, b) {
      ValueOfSaved(c, i, b);
      OnlyCover(c, i, b);
    } else {
      SameElsewhere(c, Remove(c, i), i, b);
    }
  }

  /** Without its one element, a block is not cached. */
  lemma OnlyCover(c: Core, i: nat, b: nat)
    requires GoodSlots(c) && Covers(c, i, b) && b < |c.device|
    ensures ValueAt(Remove(c, i), b) == c.device[b]
  {
    forall j: nat
      ensures !Covers(Remove(c, i), j, b)
    {
      if j != i && IsLive(c, j) {
        assert Apart(c.slots[i].el.key, |c.slots[i].el.mem|, c.slots[j].el);
      }
    }
  }

  lemma EvictNowShows(c: Core, i: nat, b: nat)
    requires GoodSlots(c) && c.inUse == NumUsed(c.slots, |c.slots|) && IsLive(c, i) && b < |c.device|
    ensures |EvictNow(c, i).device| == |c.device|
    ensures ValueAt(EvictNow(c, i), b) == ValueAt(c, b)
  {
    hide GoodParts, NumUsed, ValueAt;
    LiveIsGood(c, i);
    StoreKeeps(c, i);
    StoreShows(c, i, b);
    RemoveShows(if c.slots[i].el.dirty then Store(c, i) else c, i, b);
  }

  lemma InstallShows(c: Core, i: nat, key: nat, n: nat, b: nat)
    requires GoodSlots(c) && c.inUse == NumUsed(c.slots, |c.slots|)
    requires i < |c.slots| && c.slots[i].Empty? && key + n <= |c.device| && ApartFromOthers(c, i, key, n)
    requires b < |c.device|
    ensures ValueAt(Install(c, i, key, n), b) == ValueAt(c, b)
  {
    hide NumUsed, GoodParts, ValueAt;
    InstallKeeps(c, i, key, n);
    var d := Install(c, i, key, n);
    if Covers(d, i, b) {
      ValueOfSaved(d, i, b);
      UncoveredShowsDevice(c, i, key, n, b);
    } else {
      SameElsewhere(c, d, i, b);
    }
  }

  /** A block of an extent that no other element overlaps, behind slot i's own blocks, shows the device. */
  lemma UncoveredShowsDevice(c: Core, i: nat, key: nat, n: nat, b: nat)
    requires ApartFromOthers(c, i, key, n) && key <= b < key + n && b < |c.device| && !Covers(c, i, b)
    ensures ValueAt(c, b) == c.device[b]
  {
    forall j: nat
      ensures !Covers(c, j, b)
    {
      if j != i && IsLive(c, j) {
        assert Apart(key, n, c.slots[j].el);
      }
    }
  }

  /** Growing shows nothing new: the element's own blocks were flushed, the others were not cached. */
  lemma RegrowShows(c: Core, i: nat, n: nat, b: nat)
    requires GoodSlots(c) && c.inUse == NumUsed(c.slots, |c.slots|) && b < |c.device|
    requires IsLive(c, i) && c.slots[i].el.key + n <= |c.device| && ApartFromOthers(c, i, c.slots[i].el.key, n)
    requires |c.slots[i].el.mem| < n
    ensures |Regrow(c, i, n).device| == |c.device|
    ensures ValueAt(Regrow(c, i, n), b) == ValueAt(c, b)
  {
    hide NumUsed, GoodParts, ValueAt, Store;
    LiveIsGood(c, i);
    StoreKeeps(c, i);
    StoreShows(c, i, b);
    RegrowKeeps(c, i, n);
    var d := if c.slots[i].el.dirty then Store(c, i) else c;
    var g := Regrow(c, i, n);
    if Covers(g, i, b) {
      ValueOfCovered(g, i, b);
      if Covers(d, i, b) {
        ValueOfSaved(d, i, b);
      } else {
        UncoveredShowsDevice(d, i, d.slots[i].el.key, n, b);
      }
    } else {
      SameElsewhere(d, g, i, b);
    }
  }

  /** What clients see depends on the array and the device alone. */
  lemma SameShows(c: Core, d: Core, b: nat)
    requires GoodSlots(c) && c.slots == d.slots && c.device == d.device && c.nextUid == d.nextUid
    requires b < |c.device|
    ensures ValueAt(c, b) == ValueAt(d, b)
  {
    hide GoodParts;
    if Cached(c, b) {
      var j: nat :| Covers(c, j, b);
      assert Covers(d, j, b);
      ValueOfCovered(c, j, b);
      ValueOfCovered(d, j, b);
    } else {
      assert forall j: nat :: Covers(d, j, b) ==> Covers(c, j, b);
    }
  }

  /** The one step that changes what clients see is a client's write, and it changes its own block. */
  lemma StepShows(c: Core, s: Step, b: nat)
    requires Inv(c) && Enabled(c, s) && b < |c.device|
    ensures |Apply(c, s).device| == |c.device|
    ensures ValueAt(Apply(c, s), b) == if s.Write? && s.b == b then s.v else ValueAt(c, b)
  {
    hide GoodParts, NumUsed, ValueAt;
    BookkeepingKept(c, s);
    match s
    case FFlush =>
      if c.fl.seen.dirty {
        StoreShows(c, c.fl.i, b);
        SameShows(Store(c, c.fl.i), Apply(c, s), b);
      } else {
        SameShows(c, Apply(c, s), b);
      }
    case FClear =>
      var i := c.fl.i;
      var e := c.slots[i].el.(dirty := false, clean := true);
      SameShows(SetEl(c, i, e), Apply(c, s), b);
      FlagsShowNothing(c, i, e, b);
    case FFinish =>
      if c.fl.seen.evict {
        LiveIsGood(c, c.fl.i);
        RemoveShows(c, c.fl.i, b);
        SameShows(Remove(c, c.fl.i), Apply(c, s), b);
      } else {
        SameShows(c, Apply(c, s), b);
      }
    case Write(i, k, v) =>
      SetElShows(c, i, Written(c.slots[i].el, k, v), b);
      if Covers(c, i, b) { ValueOfCovered(c, i, b); }
    case Grow(i, n) => RegrowShows(c, i, n, b);
    case MarkEvict(i) => FlagsShowNothing(c, i, c.slots[i].el.(evict := true), b);
    case SetPin(i, pin) => FlagsShowNothing(c, i, c.slots[i].el.(pin := pin), b);
    case MapKey(i, key, n) =>
      if c.slots[i].Used? {
        EvictNowKeeps(c, i);
        EvictNowShows(c, i, b);
        InstallShows(EvictNow(c, i), i, key, n, b);
      } else {
        InstallShows(c, i, key, n, b);
      }
    case EvictSlot(i) => EvictNowShows(c, i, b);
    case _ => SameShows(c, Apply(c, s), b);
  }

  lemma FlagsShowNothing(c: Core, i: nat, e: El, b: nat)
    requires GoodSlots(c) && IsLive(c, i) && e.key == c.slots[i].el.key && e.mem == c.slots[i].el.mem
    requires b < |c.device| && GoodSlots(SetEl(c, i, e))
    ensures ValueAt(SetEl(c, i, e), b) == ValueAt(c, b)
  {
    hide GoodParts, ValueAt;
    SetElShows(c, i, e, b);
    if Covers(c, i, b) { ValueOfCovered(c, i, b); }
  }

  // ----- runs -----

  ghost predicate Runs(c: Core, steps: seq<Step>)
    decreases |steps|
  {
    steps == [] || (Placed(c) && Enabled(c, steps[0]) && Runs(Apply(c, steps[0]), steps[1..]))
  }

  ghost function After(c: Core, steps: seq<Step>): Core
    requires Runs(c, steps)
    decreases |steps|
  {
    if steps == [] then c else After(Apply(c, steps[0]), steps[1..])
  }

  /** The last value a client wrote to block b during the run, or `init` if none did. */
  ghost function LastWritten(c: Core, steps: seq<Step>, b: nat, init: nat): nat
    requires Runs(c, steps)
    decreases |steps|
  {
    if steps == [] then init
    else
      var s := steps[0];
      LastWritten(Apply(c, s), steps[1..], b, if s.Write? && s.b == b then s.v else init)
  }

  /** Whatever the interleaving of clients and flusher, a block shows the value last written to it. */
  lemma {:induction false} RunsAreTransparent(c: Core, steps: seq<Step>, b: nat)
    requires Inv(c) && Runs(c, steps) && b < |c.device|
    ensures Inv(After(c, steps))
    ensures |After(c, steps).device| == |c.device|
    ensures ValueAt(After(c, steps), b) == LastWritten(c, steps, b, ValueAt(c, b))
    decreases |steps|
  {
    hide GoodParts, NumUsed, FlusherInv, Apply, Feasible, ValueAt;
    if steps != [] {
      assert Placed(c) && Enabled(c, steps[0]);
      InvKept(c, steps[0]);
      StepShows(c, steps[0], b);
      RunsAreTransparent(Apply(c, steps[0]), steps[1..], b);
    }
  }

  /** The cache as cache_init leaves it, over a device with the given contents. */
  function Start(capacity: nat, device: seq<nat>): Core {
    Core(seq(capacity, _ => Empty), 0, device, Asleep, Free, 0)
  }

  /** In every reachable state the counter is the number of live elements, no more than the capacity,
      each of them is ACTIVE and has exactly one of DIRTY and CLEAN, the device agrees with the CLEAN ones, and no two
      share a block. */
  lemma BookkeepingInEveryRun(capacity: nat, device: seq<nat>, steps: seq<Step>)
    requires Runs(Start(capacity, device), steps)
    ensures var d := After(Start(capacity, device), steps);
            && d.inUse == NumUsed(d.slots, |d.slots|) <= |d.slots|
            && (forall i | 0 <= i < |d.slots| && d.slots[i].Used? ::
                  && d.slots[i].el.active && d.slots[i].el.dirty != d.slots[i].el.clean
                  && (d.slots[i].el.clean ==> Saved(d.slots[i].el, d.device)))
            && (forall i, j | 0 <= i < |d.slots| && 0 <= j < |d.slots| && i != j
                              && d.slots[i].Used? && d.slots[j].Used? ::
                  Apart(d.slots[i].el.key, |d.slots[i].el.mem|, d.slots[j].el))
  {
    StartIsInv(capacity, device);
    RunsKeepInv(Start(capacity, device), steps);
  }

  lemma StartIsInv(capacity: nat, device: seq<nat>)
    ensures Inv(Start(capacity, device))
  {
    NumUsedBounds(Start(capacity, device).slots, capacity);
  }

  lemma {:induction false} RunsKeepInv(c: Core, steps: seq<Step>)
    requires Inv(c) && Runs(c, steps)
    ensures Inv(After(c, steps))
    decreases |steps|
  {
    hide GoodParts, NumUsed, FlusherInv, Apply, Feasible;
    if steps != [] {
      assert Placed(c) && Enabled(c, steps[0]);
      InvKept(c, steps[0]);
      RunsKeepInv(Apply(c, steps[0]), steps[1..]);
    }
  }

  /** Once nothing dirty caches a block, the device itself holds what was last written to it. */
  lemma CleanRunsAreDurable(c: Core, steps: seq<Step>, b: nat)
    requires Inv(c) && Runs(c, steps) && b < |c.device|
    requires forall i: nat | Covers(After(c, steps), i, b) :: !After(c, steps).slots[i].el.dirty
    ensures b < |After(c, steps).device|
    ensures After(c, steps).device[b] == LastWritten(c, steps, b, ValueAt(c, b))
  {
    hide NumUsed, Runs, After, LastWritten, GoodParts, ValueAt;
    RunsAreTransparent(c, steps, b);
    var d := After(c, steps);
    if i: nat :| Covers(d, i, b) {
      LiveIsGood(d, i);
      ValueOfSaved(d, i, b);
    } else {
      NotCached(d, b);
    }
  }

  lemma NotCached(c: Core, b: nat)
    requires b < |c.device| && forall i: nat :: !Covers(c, i, b)
    ensures ValueAt(c, b) == c.device[b]
  {
  }

  // ----- no marked write is lost -----

  /** While the flusher holds an element nobody else touches it: what it flushed is what it clears. */
  lemma HeldElementIsStill(c: Core, s: Step, i: nat)
    requires Inv(c) && Enabled(c, s) && HeldByFlusher(c, i)
    ensures IsLive(c, i)
    ensures Apply(c, s).slots[i] != c.slots[i] ==> s.FClear? || (s.FFinish? && c.fl.seen.evict)
    ensures !s.FFinish? ==> HeldByFlusher(Apply(c, s), i)
  {
    hide NumUsed, GoodParts;
  }

  /** Slot i holds the element u, pinned and not marked for eviction. */
  predicate PinnedAt(c: Core, i: nat, u: nat) {
    IsLive(c, i) && c.slots[i].el.uid == u && c.slots[i].el.pin && !c.slots[i].el.evict
  }

  /** Nobody unpins, marks or evicts slot i's element by hand. */
  predicate LeavesPin(s: Step, i: nat) {
    s != SetPin(i, false) && s != MarkEvict(i) && s != EvictSlot(i)
  }

  lemma PinnedStays(c: Core, s: Step, i: nat, u: nat)
    requires Inv(c) && Enabled(c, s) && PinnedAt(c, i, u) && LeavesPin(s, i)
    ensures PinnedAt(Apply(c, s), i, u)
  {
    hide NumUsed, GoodParts;
  }

  lemma {:induction false} PinnedStaysOn(c: Core, steps: seq<Step>, i: nat, u: nat)
    requires Inv(c) && Runs(c, steps) && PinnedAt(c, i, u) && forall s | s in steps :: LeavesPin(s, i)
    ensures PinnedAt(After(c, steps), i, u)
    decreases |steps|
  {
    hide GoodSlots, NumUsed, FlusherInv, Apply, PinnedAt, LeavesPin;
    if steps != [] {
      InvKept(c, steps[0]);
      PinnedStays(c, steps[0], i, u);
      PinnedStaysOn(Apply(c, steps[0]), steps[1..], i, u);
    }
  }

  /** Once it is pinned, an element that is not marked for eviction is spared by all maps and flusher visits
      until somebody unpins, marks or evicts it. */
  lemma PinSpares(c: Core, i: nat, steps: seq<Step>)
    requires Inv(c) && Enabled(c, SetPin(i, true)) && !c.slots[i].el.evict
    requires Inv(Apply(c, SetPin(i, true))) && Runs(Apply(c, SetPin(i, true)), steps)
    requires forall s | s in steps :: LeavesPin(s, i)
    ensures PinnedAt(After(Apply(c, SetPin(i, true)), steps), i, c.slots[i].el.uid)
  {
    hide GoodParts, NumUsed, Runs, After, LeavesPin;
    PinnedStaysOn(Apply(c, SetPin(i, true)), steps, i, c.slots[i].el.uid);
  }

  /** A map puts a new element of the asked extent into its slot and leaves the others alone. */
  lemma MappedIsNew(c: Core, i: nat, key: nat, n: nat)
    requires Inv(c) && Enabled(c, MapKey(i, key, n))
    ensures var d := Apply(c, MapKey(i, key, n));
            && |d.slots| == |c.slots| && IsLive(d, i)
            && (var e := d.slots[i].el;
                && e.key == key && |e.mem| == n && e.active
                && !e.dirty && e.clean && !e.evict && !e.pin)
            && (forall j | 0 <= j < |c.slots| :: c.slots[j].Used? ==> d.slots[i].el.uid != c.slots[j].el.uid)
            && (forall j | 0 <= j < |c.slots| && j != i :: d.slots[j] == c.slots[j])
  {
    hide NumUsed;
  }

  /** A growth leaves the element longer, with the blocks it had and its flags, and no other slot changed. */
  lemma GrownIsLonger(c: Core, i: nat, n: nat)
    requires Inv(c) && Enabled(c, Grow(i, n))
    ensures var d := Apply(c, Grow(i, n));
            && |d.slots| == |c.slots| && IsLive(d, i)
            && d.slots[i].el == c.slots[i].el.(mem := d.slots[i].el.mem)
            && |d.slots[i].el.mem| == n && c.slots[i].el.mem <= d.slots[i].el.mem
            && (forall j | 0 <= j < |c.slots| && j != i :: d.slots[j] == c.slots[j])
  {
    hide NumUsed, GoodParts;
    LiveIsGood(c, i);
    var e := c.slots[i].el;
    var device := if e.dirty then WriteExtent(c.device, e.key, e.mem) else c.device;
    assert device[e.key..e.key + |e.mem|] == e.mem;
    assert device[e.key..e.key + n][..|e.mem|] == device[e.key..e.key + |e.mem|];
  }

  /** An eviction by a client empties its slot and no other. */
  lemma EvictedIsGone(c: Core, i: nat)
    requires Inv(c) && Enabled(c, EvictSlot(i))
    ensures Apply(c, EvictSlot(i)).slots == c.slots[i := Empty]
  {
    hide NumUsed, GoodParts;
  }

  /** No element is pinned, or none marked for eviction. */
  predicate NonePinned(c: Core) {
    forall i | 0 <= i < |c.slots| && c.slots[i].Used? :: !c.slots[i].el.pin
  }

  predicate NoneMarked(c: Core) {
    forall i | 0 <= i < |c.slots| && c.slots[i].Used? :: !c.slots[i].el.evict
  }

  lemma UnaskedFlagsStay(c: Core, s: Step)
    requires Inv(c) && Enabled(c, s)
    ensures NonePinned(c) && !(s.SetPin? && s.pin) ==> NonePinned(Apply(c, s))
    ensures NoneMarked(c) && !s.MarkEvict? ==> NoneMarked(Apply(c, s))
  {
    hide NumUsed, GoodParts;
  }

  /** A run in which nobody pins leaves no element pinned if none was, and the same for marks. */
  lemma {:induction false} FlagsAreAsked(c: Core, steps: seq<Step>)
    requires Inv(c) && Runs(c, steps)
    ensures NonePinned(c) && (forall s | s in steps :: !(s.SetPin? && s.pin)) ==> NonePinned(After(c, steps))
    ensures NoneMarked(c) && (forall s | s in steps :: !s.MarkEvict?) ==> NoneMarked(After(c, steps))
    decreases |steps|
  {
    hide GoodSlots, NumUsed, FlusherInv, Apply, NonePinned, NoneMarked;
    if steps != [] {
      InvKept(c, steps[0]);
      UnaskedFlagsStay(c, steps[0]);
      FlagsAreAsked(Apply(c, steps[0]), steps[1..]);
    }
  }

  /** The same element is in slot i before and after the step. */
  predicate Survives(c: Core, s: Step, i: nat)
    requires Placed(c) && Feasible(c, s)
  {
    IsLive(c, i) && IsLive(Apply(c, s), i) && Apply(c, s).slots[i].el.uid == c.slots[i].el.uid
  }

  /** DIRTY goes only in the hold of the mutex in which the flush ran, with the device up to date. */
  lemma ClearsOnlyAfterFlush(c: Core, s: Step, i: nat)
    requires Inv(c) && Enabled(c, s) && Survives(c, s, i)
    requires c.slots[i].el.dirty && !Apply(c, s).slots[i].el.dirty
    ensures s.FClear? && c.fl == Flushed(i, c.fl.seen)
    ensures Saved(c.slots[i].el, c.device) && Apply(c, s).slots[i].el.mem == c.slots[i].el.mem
  {
    hide NumUsed;
    LiveIsGood(c, i);
  }

  /** An element that leaves the array leaves its contents on the device. */
  lemma FreedIsSaved(c: Core, s: Step, i: nat)
    requires Inv(c) && Enabled(c, s) && IsLive(c, i) && !Survives(c, s, i)
    ensures Saved(c.slots[i].el, Apply(c, s).device)
  {
    hide NumUsed;
    LiveIsGood(c, i);
  }

  /** Not dirtying EVICT-marked elements is discipline enough. */
  lemma EvictDisciplineSuffices(c: Core, s: Step)
    requires Inv(c) && Feasible(c, s)
    requires s.Write? ==> !c.slots[s.i].el.evict
    ensures Enabled(c, s)
  {
    hide NumUsed, GoodParts;
  }

  /** A client's write keeps the invariant exactly when it is made outside the window. */
  lemma WriteIsSafeExactly(c: Core, i: nat, b: nat, v: nat)
    requires Inv(c) && Feasible(c, Write(i, b, v))
    ensures Inv(Apply(c, Write(i, b, v))) <==> !Risky(c, i)
  {
    hide NumUsed, GoodParts;
    if Risky(c, i) {
      assert !StageKnows(c.fl, Written(c.slots[i].el, b, v), c.device);
    } else {
      InvKept(c, Write(i, b, v));
    }
  }

  /** What follows a write made in the window: the flusher locks the element and finishes its visit. */
  ghost function AfterLateWrite(c: Core, i: nat, b: nat, v: nat): Core
    requires Placed(c) && Risky(c, i) && CanMark(c, i) && Covers(c, i, b)
  {
    var written := Apply(c, Write(i, b, v));
    var locked := Apply(written, FTryLock(true));
    Apply(Apply(locked, FFlush), FFinish)
  }

  /** A write made in the window is lost: its element is freed unflushed, and the block shows what it
      showed before. */
  lemma WindowLosesWrite(c: Core, i: nat, b: nat, v: nat)
    requires Inv(c) && Risky(c, i) && Covers(c, i, b)
    ensures Feasible(c, Write(i, b, v))
    ensures var d := AfterLateWrite(c, i, b, v);
            d.slots == c.slots[i := Empty] && d.device == c.device && b < |c.device|
            && ValueAt(d, b) == ValueAt(c, b) == c.device[b]
  {
    hide NumUsed, ValueAt, GoodParts;
    LiveIsGood(c, i);
    ValueOfSaved(c, i, b);
    OnlyCover(c, i, b);
    var d := AfterLateWrite(c, i, b, v);
    RemoveKeeps(c, i);
    SameShows(Remove(c, i), d, b);
  }

  /** One element, dirty, in an array of one slot. */
  function OneDirty(evict: bool, fl: Flusher, ca: Owner): Core {
    Core([Used(El(0, 0, [0], true, false, true, evict, false))], 1, [0], fl, ca, 1)
  }

  lemma LookAfterMark()
    ensures var c := OneDirty(true, Asleep, Free);
            && Runs(c, [FWake, FLook])
            && After(c, [FWake, FLook]) == OneDirty(true, Snapped(0, Seen(false, true)), ByFlusher)
  {
    var c := OneDirty(true, At(0), ByFlusher);
    assert Apply(OneDirty(true, Asleep, Free), FWake) == c;
    assert Apply(c, FLook) == OneDirty(true, Snapped(0, Seen(false, true)), ByFlusher);
    RunOfOne(c, FLook, []);
    RunOfOne(OneDirty(true, Asleep, Free), FWake, [FLook]);
  }

  /** The window is reached from the empty cache: a client maps block 0 and marks it for eviction, and
      the flusher wakes and looks at it. */
  lemma WindowIsReached()
    ensures var steps := [MapKey(0, 0, 1), MarkEvict(0), FWake, FLook];
            && Runs(Start(1, [0]), steps)
            && Inv(After(Start(1, [0]), steps))
            && Risky(After(Start(1, [0]), steps), 0) && Covers(After(Start(1, [0]), steps), 0, 0)
  {
    var c := OneDirty(false, Asleep, Free);
    assert Start(1, [0]).device[0..1] == [0] && Start(1, [0]).slots[0 := c.slots[0]] == c.slots;
    assert Apply(Start(1, [0]), MapKey(0, 0, 1)) == c;
    assert Apply(c, MarkEvict(0)) == OneDirty(true, Asleep, Free);
    StartIsInv(1, [0]);
    LookAfterMark();
    RunOfOne(c, MarkEvict(0), [FWake, FLook]);
    RunOfOne(Start(1, [0]), MapKey(0, 0, 1), [MarkEvict(0), FWake, FLook]);
    hide Inv;
    RunsKeepInv(Start(1, [0]), [MapKey(0, 0, 1), MarkEvict(0), FWake, FLook]);
  }

  lemma RunOfOne(c: Core, s: Step, rest: seq<Step>)
    requires Placed(c) && Enabled(c, s) && Runs(Apply(c, s), rest)
    ensures Runs(c, [s] + rest) && After(c, [s] + rest) == After(Apply(c, s), rest)
  {
    hide Enabled, Apply;
    assert ([s] + rest)[1..] == rest;
  }
}
