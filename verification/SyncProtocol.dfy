/** The handshake of cache_sync and cache_disable with the flusher thread (fs/cache.c): one caller marks
    elements for eviction under ca_mutex, raises a flag there, and waits for the flusher to answer. */
module SyncProtocol {
  import opened CacheProtocol
  import opened Storage

  datatype Mode = Sync | Disable

  /** Where the caller is: about to look at slot j, about to mark slot j's element, waiting for the
      flags, about to clear LOOP_DONE, or done with the cache for good. */
  datatype Marker =
    | Idle
    | Looking(mode: Mode, j: nat)
    | Marking(mode: Mode, j: nat)
    | Waiting(mode: Mode)
    | Clearing
    | Finished

  /** The cache, the flags of ca_flags that the handshake uses, and the caller. */
  datatype Sys = Sys(core: Core, setDone: bool, done: bool, exit: bool, evicted: bool, marker: Marker)

  datatype Act =
    | Do(s: Step)
    | Sleep
    | Die
    | Begin(mode: Mode)
    | Look
    | Mark
    | Post
    | Poll
    | TimeOut
    | Clear

  /** The steps of the cache that are not part of the handshake itself. */
  predicate Plain(s: Step) {
    !s.FSleep? && !s.MarkerTake? && !s.MarkerGive?
  }

  predicate Possible(y: Sys, a: Act) {
    match a
    case Do(s) => Plain(s) && Enabled(y.core, s)
    case Sleep => Enabled(y.core, FSleep(y.exit))
    case Die => y.core.fl.Gone?
    case Begin(mode) => y.marker.Idle? && Enabled(y.core, MarkerTake)
    case Look => y.marker.Looking? && y.marker.j < |y.core.slots|
    case Mark => y.marker.Marking? && Enabled(y.core, MarkEvict(y.marker.j))
    case Post => y.marker.Looking? && y.marker.j == |y.core.slots| && Enabled(y.core, MarkerGive)
    case Poll => y.marker.Waiting? && (if y.marker.mode.Sync? then y.done else y.exit && y.evicted)
    case TimeOut => y.marker.Waiting?
    case Clear => y.marker.Clearing? && y.core.ca.Free?
  }

  /** After the wait cache_sync goes on to clear LOOP_DONE; cache_disable tears the cache down. */
  function AfterWait(m: Marker): Marker
    requires m.Waiting?
  {
    if m.mode.Sync? then Clearing else Finished
  }

  /** The caller skips an empty slot, and cache_sync a pinned element too. */
  predicate Passes(mode: Mode, s: Slot<El>) {
    s.Empty? || (mode.Sync? && s.el.pin)
  }

  function Next(y: Sys, a: Act): Sys
    requires Placed(y.core) && Possible(y, a)
  {
    match a
    case Do(s) => y.(core := Apply(y.core, s))
    case Sleep =>
      y.(core := Apply(y.core, FSleep(y.exit)), evicted := y.evicted || y.exit,
         done := y.done || y.setDone, setDone := false)
    case Die => y.(setDone := false, done := false)
    case Begin(mode) => y.(core := Apply(y.core, MarkerTake), marker := Looking(mode, 0))
    case Look =>
      var m := y.marker;
      y.(marker := if Passes(m.mode, y.core.slots[m.j]) then Looking(m.mode, m.j + 1) else Marking(m.mode, m.j))
    case Mark =>
      y.(core := Apply(y.core, MarkEvict(y.marker.j)), marker := Looking(y.marker.mode, y.marker.j + 1))
    case Post =>
      var z := y.(core := Apply(y.core, MarkerGive), marker := Waiting(y.marker.mode));
      if y.marker.mode.Sync? then z.(setDone := true) else z.(exit := true)
    case Poll => y.(marker := AfterWait(y.marker))
    case TimeOut => y.(marker := AfterWait(y.marker))
    case Clear => y.(done := false, marker := Idle)
  }

  // ----- what happened since the flag was raised -----

  datatype Phase = Before | Unpassed | InPass | Passed

  /** A record of one handshake; nothing in the system reads it. `gaveUp`: some cache_sync timed out;
      `early`: LOOP_DONE was already up when the flag was raised; `pinned`: elements the caller skipped
      as pinned; `live`, `marked`, `dirty`: elements in the array, of them the EVICT-marked and the dirty,
      when the flag was raised; since then: `cleaned`, flushed elements; `skipped`, elements the first
      pass could not lock; `disturbed`, elements others marked or evicted; `mapped`, whether any was added. */
  datatype Record = Record(
    gaveUp: bool, early: bool, phase: Phase, pinned: set<nat>,
    live: set<nat>, marked: set<nat>, dirty: set<nat>,
    cleaned: set<nat>, skipped: set<nat>, disturbed: set<nat>, mapped: bool)

  function Uids(c: Core): set<nat> {
    set i | 0 <= i < |c.slots| && c.slots[i].Used? :: c.slots[i].el.uid
  }

  function MarkedUids(c: Core): set<nat> {
    set i | 0 <= i < |c.slots| && c.slots[i].Used? && c.slots[i].el.evict :: c.slots[i].el.uid
  }

  function DirtyUids(c: Core): set<nat> {
    set i | 0 <= i < |c.slots| && c.slots[i].Used? && c.slots[i].el.dirty :: c.slots[i].el.uid
  }

  /** Somebody other than the flusher evicts slot i's element, flushing it if it is dirty. */
  function NoteEviction(c: Core, h: Record, i: nat): Record
    requires i < |c.slots|
  {
    if c.slots[i].Empty? then h
    else
      var e := c.slots[i].el;
      h.(disturbed := h.disturbed + {e.uid}, cleaned := if e.dirty then h.cleaned + {e.uid} else h.cleaned)
  }

  function NoteStep(c: Core, h: Record, s: Step): Record
    requires Placed(c) && Enabled(c, s)
  {
    match s
    case FWake => if h.phase.Unpassed? then h.(phase := InPass) else h
    case FTryLock(ok) =>
      if !ok && h.phase.InPass? then h.(skipped := h.skipped + {c.slots[c.fl.i].el.uid}) else h
    case FClear => h.(cleaned := h.cleaned + {c.slots[c.fl.i].el.uid})
    case MarkEvict(i) => h.(disturbed := h.disturbed + {c.slots[i].el.uid})
    case EvictSlot(i) => NoteEviction(c, h, i)
    case MapKey(i, key, n) => NoteEviction(c, h, i).(mapped := true)
    case _ => h
  }

  function Note(y: Sys, h: Record, a: Act): Record
    requires Placed(y.core) && Possible(y, a)
  {
    match a
    case Do(s) => NoteStep(y.core, h, s)
    case Sleep => if h.phase.InPass? then h.(phase := Passed) else h
    case Begin(mode) => h.(phase := Before, pinned := {})
    case Look =>
      var s := y.core.slots[y.marker.j];
      if s.Used? && Passes(y.marker.mode, s) then h.(pinned := h.pinned + {s.el.uid}) else h
    case Post =>
      h.(early := y.done, phase := Unpassed, live := Uids(y.core), marked := MarkedUids(y.core),
         dirty := DirtyUids(y.core), cleaned := {}, skipped := {}, disturbed := {}, mapped := false)
    case TimeOut => if y.marker.mode.Sync? then h.(gaveUp := true) else h
    case _ => h
  }

  // ----- the invariant -----

  /** An element of the handshake that nobody else meant to go. */
  predicate Stays(h: Record, u: nat) {
    u in h.live && u !in h.marked && u !in h.disturbed
  }

  predicate Settled(h: Record, u: nat) {
    (u in h.marked ==> u in h.skipped) && (u in h.dirty ==> u in h.cleaned || u in h.skipped)
  }

  /** What the record says of an element in the array; `passed`, the first pass is beyond its slot. */
  predicate SlotTracked(e: El, h: Record, passed: bool) {
    && (e.uid in h.live || h.mapped)
    && (e.uid in h.marked ==> e.evict)
    && (e.uid in h.dirty && e.uid !in h.cleaned ==> e.dirty)
    && (Stays(h, e.uid) ==> !e.evict)
    && (passed ==> Settled(h, e.uid))
  }

  predicate Tracked(c: Core, h: Record, bound: int) {
    forall i | 0 <= i < |c.slots| && c.slots[i].Used? :: SlotTracked(c.slots[i].el, h, i < bound)
  }

  predicate Holds(c: Core, u: nat) {
    exists i | 0 <= i < |c.slots| :: c.slots[i].Used? && c.slots[i].el.uid == u
  }

  /** Elements of the handshake that are gone were meant to go, and were flushed if dirty. */
  ghost predicate Accounted(c: Core, h: Record) {
    && h.marked <= h.live && h.dirty <= h.live
    && (forall u | u in h.live :: u < c.nextUid)
    && (forall u | u in h.dirty :: Holds(c, u) || u in h.cleaned)
    && (forall u | Stays(h, u) :: Holds(c, u))
  }

  /** What the flusher's snapshot has to do with the record. */
  predicate SeenTracked(seen: Seen, u: nat, h: Record) {
    (u in h.marked ==> seen.evict) && (Stays(h, u) ==> !seen.evict)
  }

  predicate StageTracked(fl: Flusher, u: nat, h: Record) {
    match fl
    case Snapped(i, seen) => SeenTracked(seen, u, h) && (u in h.dirty && u !in h.cleaned ==> seen.dirty)
    case Locked(i, seen) => SeenTracked(seen, u, h) && (u in h.dirty && u !in h.cleaned ==> seen.dirty)
    case Flushed(i, seen) => SeenTracked(seen, u, h)
    case Ready(i, seen) => SeenTracked(seen, u, h) && (u in h.dirty ==> u in h.cleaned)
    case _ => true
  }

  predicate InVisit(fl: Flusher) {
    fl.Snapped? || fl.Locked? || fl.Flushed? || fl.Ready?
  }

  predicate PassStarted(fl: Flusher) {
    !fl.Asleep? && !fl.Gone?
  }

  /** The slots that the first pass after the flag has dealt with. */
  function Bound(c: Core, h: Record): int
  {
    if h.phase.Passed? then |c.slots|
    else if h.phase.InPass? && PassStarted(c.fl) then c.fl.i
    else 0
  }

  ghost predicate TrackInv(c: Core, h: Record) {
    && Placed(c)
    && !h.phase.Before?
    && (h.phase.Unpassed? ==> !PassStarted(c.fl))
    && (h.phase.InPass? ==> PassStarted(c.fl))
    && Tracked(c, h, Bound(c, h))
    && Accounted(c, h)
    && (InVisit(c.fl) ==> StageTracked(c.fl, c.slots[c.fl.i].el.uid, h))
  }

  /** Below slot j every element is marked, or pinned when the caller is cache_sync. */
  predicate MarkedBelow(c: Core, h: Record, mode: Mode, j: nat) {
    forall i | 0 <= i < j && i < |c.slots| && c.slots[i].Used? ::
      c.slots[i].el.evict || (mode.Sync? && c.slots[i].el.uid in h.pinned)
  }

  predicate MarkerInv(y: Sys, h: Record) {
    && (y.core.ca.ByMarker? <==> y.marker.Looking? || y.marker.Marking?)
    && (y.marker.Looking? ==> y.marker.j <= |y.core.slots| && MarkedBelow(y.core, h, y.marker.mode, y.marker.j))
    && (y.marker.Marking? ==> IsLive(y.core, y.marker.j) && MarkedBelow(y.core, h, y.marker.mode, y.marker.j))
    && (y.marker.Waiting? ==> h.live <= if y.marker.mode.Sync? then h.marked + h.pinned else h.marked)
  }

  predicate FlagsInv(y: Sys, h: Record) {
    && (y.exit <==> y.marker.Finished? || y.marker == Waiting(Disable))
    && (y.evicted ==> y.exit)
    && (y.core.fl.Gone? ==> y.exit)
    && (y.marker == Waiting(Disable) && y.evicted ==> h.phase.Passed?)
    && (y.marker == Waiting(Sync) && !h.early ==>
          (y.done <==> h.phase.Passed?) && (y.setDone <==> !h.phase.Passed?))
    && (!h.gaveUp ==>
          && (y.marker == Waiting(Sync) ==> !h.early)
          && (y.marker == Clearing ==> !y.setDone)
          && (y.marker.Idle? || y.marker.Looking? || y.marker.Marking? ==> !y.done && !y.setDone))
  }

  ghost predicate SysInv(y: Sys, h: Record) {
    && Inv(y.core)
    && MarkerInv(y, h)
    && FlagsInv(y, h)
    && (y.marker.Waiting? ==> TrackInv(y.core, h))
  }

  // ----- every step keeps it -----

  /** The slot a step of the cache works on; none for a step that only moves the flusher. */
  function Site(c: Core, s: Step): int
    requires Feasible(c, s)
  {
    match s
    case FLook => c.fl.i
    case FTryLock(ok) => c.fl.i
    case FFlush => c.fl.i
    case FClear => c.fl.i
    case FFinish => c.fl.i
    case Write(i, b, v) => i
    case Grow(i, n) => i
    case MarkEvict(i) => i
    case SetPin(i, pin) => i
    case MapKey(i, key, n) => i
    case EvictSlot(i) => i
    case _ => -1
  }

  /** The records agree about every element but `u`, whatever was there before. */
  predicate SameButFor(h: Record, g: Record, u: nat) {
    && g.live == h.live && g.marked == h.marked && g.dirty == h.dirty
    && (h.mapped ==> g.mapped)
    && h.cleaned <= g.cleaned <= h.cleaned + {u}
    && h.skipped <= g.skipped <= h.skipped + {u}
    && h.disturbed <= g.disturbed <= h.disturbed + {u}
  }

  /** A step rewrites at most its own slot. */
  lemma SlotsAreLocal(c: Core, s: Step)
    requires Placed(c) && Enabled(c, s) && Plain(s)
    ensures var i := Site(c, s);
            if 0 <= i < |c.slots| then
              |Apply(c, s).slots| == |c.slots| && Apply(c, s).slots == c.slots[i := Apply(c, s).slots[i]]
            else Apply(c, s).slots == c.slots
  {
  }

  /** The identity of the element in the step's slot. */
  function SiteUid(c: Core, s: Step): nat
    requires Feasible(c, s)
  {
    var i := Site(c, s);
    if 0 <= i < |c.slots| && c.slots[i].Used? then c.slots[i].el.uid else c.nextUid
  }

  /** A step's record is about the element in its slot. */
  lemma NoteIsLocal(c: Core, h: Record, s: Step)
    requires Placed(c) && Enabled(c, s) && Plain(s)
    ensures SameButFor(h, NoteStep(c, h, s), SiteUid(c, s))
  {
  }

  /** The pass gets beyond a slot only by working on it, unless the array is empty. */
  lemma BoundGrowsAtSite(c: Core, h: Record, s: Step, j: nat)
    requires Inv(c) && TrackInv(c, h) && Enabled(c, s) && Plain(s)
    requires j != Site(c, s) && IsLive(c, j) && j < Bound(Apply(c, s), NoteStep(c, h, s))
    ensures j < Bound(c, h)
  {
    hide GoodParts, Tracked, Accounted, StageTracked;
    if s.FWake? {
      NumUsedBounds(c.slots, |c.slots|);
    }
  }

  /** The element in the step's own slot is tracked afterwards. */
  predicate SiteIsTracked(c: Core, h: Record, s: Step)
    requires Placed(c) && Enabled(c, s) && 0 <= Site(c, s) && IsLive(Apply(c, s), Site(c, s))
  {
    SlotTracked(Apply(c, s).slots[Site(c, s)].el, NoteStep(c, h, s), Site(c, s) < Bound(Apply(c, s), NoteStep(c, h, s)))
  }

  lemma MappedIsTracked(c: Core, h: Record, s: Step)
    requires Inv(c) && TrackInv(c, h) && Enabled(c, s) && s.MapKey?
    requires 0 <= Site(c, s) && IsLive(Apply(c, s), Site(c, s))
    ensures SiteIsTracked(c, h, s)
  {
    hide NumUsed, GoodParts;
    if c.slots[s.i].Used? {
      LiveIsGood(c, s.i);
      assert SlotTracked(c.slots[s.i].el, h, s.i < Bound(c, h));
    }
  }

  lemma VisitedIsTracked(c: Core, h: Record, s: Step)
    requires Inv(c) && TrackInv(c, h) && Enabled(c, s) && Plain(s) && (InVisit(c.fl) || s.FLook?)
    requires Site(c, s) == c.fl.i && IsLive(Apply(c, s), Site(c, s)) && !s.MapKey?
    ensures SiteIsTracked(c, h, s)
  {
    hide NumUsed, GoodParts, Accounted;
    LiveIsGood(c, c.fl.i);
    assert SlotTracked(c.slots[c.fl.i].el, h, c.fl.i < Bound(c, h));
  }

  lemma SiteTracked(c: Core, h: Record, s: Step)
    requires Inv(c) && TrackInv(c, h) && Enabled(c, s) && Plain(s)
    requires 0 <= Site(c, s) && IsLive(Apply(c, s), Site(c, s))
    ensures SiteIsTracked(c, h, s)
  {
    if s.MapKey? {
      MappedIsTracked(c, h, s);
    } else if (InVisit(c.fl) || s.FLook?) && Site(c, s) == c.fl.i {
      VisitedIsTracked(c, h, s);
    } else {
      hide NumUsed, GoodParts, Accounted, StageTracked;
      var i := Site(c, s);
      LiveIsGood(c, i);
      assert SlotTracked(c.slots[i].el, h, i < Bound(c, h));
    }
  }

  lemma TrackedKept(c: Core, h: Record, s: Step)
    requires Inv(c) && TrackInv(c, h) && Enabled(c, s) && Plain(s)
    ensures Tracked(Apply(c, s), NoteStep(c, h, s), Bound(Apply(c, s), NoteStep(c, h, s)))
  {
    hide NumUsed, FlusherInv, Accounted, StageTracked, Apply, NoteStep, Feasible, Bound, Site, StageKnows;
    var d, g, i := Apply(c, s), NoteStep(c, h, s), Site(c, s);
    SlotsAreLocal(c, s);
    NoteIsLocal(c, h, s);
    forall j | 0 <= j < |d.slots| && d.slots[j].Used?
      ensures SlotTracked(d.slots[j].el, g, j < Bound(d, g))
    {
      if j == i {
        SiteTracked(c, h, s);
      } else {
        assert d.slots[j] == c.slots[j];
        assert SlotTracked(c.slots[j].el, h, j < Bound(c, h));
        if j < Bound(d, g) {
          BoundGrowsAtSite(c, h, s, j);
        }
        OtherTracked(c, h, g, i, j, j < Bound(d, g));
      }
    }
  }

  lemma OtherTracked(c: Core, h: Record, g: Record, i: int, j: nat, passed: bool)
    requires GoodSlots(c) && IsLive(c, j) && i != j && SlotTracked(c.slots[j].el, h, passed)
    requires SameButFor(h, g, if 0 <= i < |c.slots| && c.slots[i].Used? then c.slots[i].el.uid else c.nextUid)
    ensures SlotTracked(c.slots[j].el, g, passed)
  {
  }

  /** An element in some other slot than the step's is still held. */
  lemma HeldElsewhere(c: Core, d: Core, i: int, u: nat)
    requires |c.slots| == |d.slots| && Holds(c, u)
    requires if 0 <= i < |c.slots| then d.slots == c.slots[i := d.slots[i]] else d.slots == c.slots
    ensures Holds(d, u) || (0 <= i && IsLive(c, i) && c.slots[i].el.uid == u)
  {
    var j :| 0 <= j < |c.slots| && c.slots[j].Used? && c.slots[j].el.uid == u;
    if j != i {
      assert d.slots[j] == c.slots[j];
    }
  }

  /** If the step's own element goes, it was meant to go, and it was flushed if the record has it dirty. */
  lemma SiteAccounted(c: Core, h: Record, s: Step)
    requires Inv(c) && TrackInv(c, h) && Enabled(c, s) && Plain(s)
    requires 0 <= Site(c, s) && IsLive(c, Site(c, s))
    ensures var u := c.slots[Site(c, s)].el.uid;
            || (IsLive(Apply(c, s), Site(c, s)) && Apply(c, s).slots[Site(c, s)].el.uid == u)
            || (!Stays(NoteStep(c, h, s), u) && (u in h.dirty ==> u in NoteStep(c, h, s).cleaned))
  {
    hide NumUsed, GoodParts;
    assert SlotTracked(c.slots[Site(c, s)].el, h, Site(c, s) < Bound(c, h));
  }

  lemma AccountedKept(c: Core, h: Record, s: Step)
    requires Inv(c) && TrackInv(c, h) && Enabled(c, s) && Plain(s)
    ensures Accounted(Apply(c, s), NoteStep(c, h, s))
  {
    hide NumUsed, FlusherInv, Tracked, StageTracked, Apply, NoteStep, Feasible, Bound, Site, StageKnows, GoodParts, Holds;
    var d, g, i := Apply(c, s), NoteStep(c, h, s), Site(c, s);
    SlotsAreLocal(c, s);
    NoteIsLocal(c, h, s);
    UidsGrow(c, s);
    forall u | u in g.dirty
      ensures Holds(d, u) || u in g.cleaned
    {
      if Holds(c, u) {
        HeldElsewhere(c, d, i, u);
        if 0 <= i && IsLive(c, i) && c.slots[i].el.uid == u {
          SiteAccounted(c, h, s);
          HoldsAt(d, i);
        }
      }
    }
    forall u | Stays(g, u)
      ensures Holds(d, u)
    {
      assert Stays(h, u);
      HeldElsewhere(c, d, i, u);
      if 0 <= i && IsLive(c, i) && c.slots[i].el.uid == u {
        SiteAccounted(c, h, s);
        HoldsAt(d, i);
      }
    }
  }

  lemma HoldsAt(c: Core, i: nat)
    ensures IsLive(c, i) ==> Holds(c, c.slots[i].el.uid)
  {
  }

  lemma UidsGrow(c: Core, s: Step)
    requires Placed(c) && Feasible(c, s)
    ensures c.nextUid <= Apply(c, s).nextUid
  {
  }

  lemma StageKept(c: Core, h: Record, s: Step)
    requires Inv(c) && TrackInv(c, h) && Enabled(c, s) && Plain(s)
    requires InVisit(Apply(c, s).fl) && IsLive(Apply(c, s), Apply(c, s).fl.i)
    ensures StageTracked(Apply(c, s).fl, Apply(c, s).slots[Apply(c, s).fl.i].el.uid, NoteStep(c, h, s))
  {
    hide NumUsed, GoodParts, Accounted;
    if s.FLook? {
      assert SlotTracked(c.slots[c.fl.i].el, h, c.fl.i < Bound(c, h));
    }
  }

  lemma PhaseKept(c: Core, h: Record, s: Step)
    requires Inv(c) && TrackInv(c, h) && Enabled(c, s) && Plain(s)
    ensures var d, g := Apply(c, s), NoteStep(c, h, s);
            && !g.phase.Before?
            && (g.phase.Unpassed? ==> !PassStarted(d.fl))
            && (g.phase.InPass? ==> PassStarted(d.fl))
            && (g.phase.Passed? <==> h.phase.Passed?)
  {
    hide NumUsed, GoodParts, Accounted, Tracked, StageTracked;
  }

  lemma TrackKept(c: Core, h: Record, s: Step)
    requires Inv(c) && TrackInv(c, h) && Enabled(c, s) && Plain(s)
    ensures TrackInv(Apply(c, s), NoteStep(c, h, s))
  {
    hide NumUsed, GoodParts, Accounted, Tracked, StageTracked, Apply, NoteStep, Feasible, Bound, StageKnows;
    InvKept(c, s);
    PhaseKept(c, h, s);
    TrackedKept(c, h, s);
    AccountedKept(c, h, s);
    if InVisit(Apply(c, s).fl) {
      StageKept(c, h, s);
    }
  }

  /** What the sets of identities say about each element. */
  lemma UidsMeaning(c: Core)
    requires GoodSlots(c)
    ensures forall i | 0 <= i < |c.slots| && c.slots[i].Used? ::
              && c.slots[i].el.uid in Uids(c)
              && (c.slots[i].el.uid in MarkedUids(c) <==> c.slots[i].el.evict)
              && (c.slots[i].el.uid in DirtyUids(c) <==> c.slots[i].el.dirty)
    ensures MarkedUids(c) <= Uids(c) && DirtyUids(c) <= Uids(c)
    ensures forall u | u in Uids(c) :: Holds(c, u) && u < c.nextUid
  {
    forall u | u in Uids(c)
      ensures Holds(c, u) && u < c.nextUid
    {
      var i :| 0 <= i < |c.slots| && c.slots[i].Used? && c.slots[i].el.uid == u;
      LiveIsGood(c, i);
    }
  }

  /** When the flag goes up the record is right: the marks below the last slot are all of them. */
  lemma PostTracks(y: Sys, h: Record)
    requires SysInv(y, h) && Possible(y, Post)
    ensures TrackInv(Next(y, Post).core, Note(y, h, Post))
  {
    hide NumUsed, GoodParts, Uids, MarkedUids, DirtyUids, FlagsInv, MarkedBelow, TrackInv, StageTracked;
    FreshRecordTracks(y.core, Next(y, Post).core, Note(y, h, Post));
  }

  /** A record of what is in the array, of which nothing has happened yet. */
  predicate Fresh(c: Core, g: Record) {
    && g.phase.Unpassed? && g.live == Uids(c) && g.marked == MarkedUids(c) && g.dirty == DirtyUids(c)
    && g.cleaned == {} && g.skipped == {} && g.disturbed == {}
  }

  lemma FreshRecordTracks(c: Core, d: Core, g: Record)
    requires GoodSlots(c) && Fresh(c, g) && d.slots == c.slots && d.nextUid == c.nextUid
    requires !PassStarted(d.fl)
    ensures TrackInv(d, g)
  {
    UidsMeaning(c);
    hide GoodParts, Uids, MarkedUids, DirtyUids, Holds;
    HoldsDependsOnSlots(c, d);
  }

  lemma HoldsDependsOnSlots(c: Core, d: Core)
    requires c.slots == d.slots
    ensures forall u :: Holds(c, u) == Holds(d, u)
  {
  }

  lemma PostMarks(y: Sys, h: Record)
    requires SysInv(y, h) && Possible(y, Post)
    ensures var g := Note(y, h, Post);
            g.live <= if y.marker.mode.Sync? then g.marked + g.pinned else g.marked
  {
    hide NumUsed, GoodParts, FlagsInv;
  }

  /** The end of a pass, when the flags are answered. */
  lemma SleepTracks(y: Sys, h: Record)
    requires SysInv(y, h) && Possible(y, Sleep) && y.marker.Waiting?
    ensures TrackInv(Next(y, Sleep).core, Note(y, h, Sleep))
  {
    hide NumUsed, GoodParts, FlagsInv, MarkerInv;
    var c, d, g := y.core, Next(y, Sleep).core, Note(y, h, Sleep);
    assert Tracked(d, g, Bound(d, g)) by {
      forall i | 0 <= i < |d.slots| && d.slots[i].Used?
        ensures SlotTracked(d.slots[i].el, g, i < Bound(d, g))
      {
        assert SlotTracked(c.slots[i].el, h, i < Bound(c, h));
      }
    }
    assert forall u :: Holds(c, u) == Holds(d, u);
    assert forall u :: Stays(h, u) == Stays(g, u);
  }

  /** Other parties' steps take away no mark and none of the caller's mutex. */
  lemma StepLeavesMarks(c: Core, s: Step)
    requires Inv(c) && Enabled(c, s) && Plain(s)
    ensures |Apply(c, s).slots| == |c.slots|
    ensures Apply(c, s).ca.ByMarker? <==> c.ca.ByMarker?
    ensures Apply(c, s).fl.Gone? <==> c.fl.Gone?
    ensures c.ca.ByMarker? ==> forall i | 0 <= i < |c.slots| ::
              && (Apply(c, s).slots[i].Used? <==> c.slots[i].Used?)
              && (c.slots[i].Used? ==>
                    && Apply(c, s).slots[i].el.uid == c.slots[i].el.uid
                    && (c.slots[i].el.evict ==> Apply(c, s).slots[i].el.evict))
  {
    hide NumUsed, GoodParts, StageKnows;
  }

  lemma NoteLeavesCall(c: Core, h: Record, s: Step)
    requires Placed(c) && Enabled(c, s)
    ensures var g := NoteStep(c, h, s);
            && g.live == h.live && g.marked == h.marked && g.pinned == h.pinned
            && g.early == h.early && g.gaveUp == h.gaveUp
            && (g.phase.Passed? <==> h.phase.Passed?)
  {
  }

  lemma StepKeepsCall(y: Sys, h: Record, s: Step)
    requires SysInv(y, h) && Plain(s) && Enabled(y.core, s)
    ensures MarkerInv(Next(y, Do(s)), NoteStep(y.core, h, s)) && FlagsInv(Next(y, Do(s)), NoteStep(y.core, h, s))
  {
    hide GoodParts, TrackInv, StageKnows, Apply, Feasible, NoteStep, NumUsed;
    StepLeavesMarks(y.core, s);
    NoteLeavesCall(y.core, h, s);
  }

  lemma MarkerKept(y: Sys, h: Record, a: Act)
    requires SysInv(y, h) && Possible(y, a) && !a.Do?
    ensures MarkerInv(Next(y, a), Note(y, h, a))
  {
    hide NumUsed, GoodParts, TrackInv, StageKnows, FlagsInv, NoteStep;
    if a.Post? {
      PostMarks(y, h);
    }
  }

  lemma FlagsKept(y: Sys, h: Record, a: Act)
    requires SysInv(y, h) && Possible(y, a) && !a.Do?
    ensures FlagsInv(Next(y, a), Note(y, h, a))
  {
    hide NumUsed, GoodParts, MarkedBelow, Tracked, Accounted, StageTracked, StageKnows, NoteStep;
    hide Uids, MarkedUids, DirtyUids;
  }

  /** Every step of clients, flusher and the one caller keeps the invariant of the handshake. */
  lemma SysInvKept(y: Sys, h: Record, a: Act)
    requires SysInv(y, h) && Possible(y, a)
    ensures SysInv(Next(y, a), Note(y, h, a))
  {
    if !a.Do? {
      MarkerKept(y, h, a);
      FlagsKept(y, h, a);
    }
    hide NumUsed, GoodParts, MarkerInv, FlagsInv, TrackInv, Apply, Enabled, NoteStep, FlusherInv;
    match a
    case Do(s) =>
      InvKept(y.core, s);
      StepKeepsCall(y, h, s);
      if y.marker.Waiting? { TrackKept(y.core, h, s); }
    case Sleep =>
      InvKept(y.core, FSleep(y.exit));
      if y.marker.Waiting? { SleepTracks(y, h); }
    case Begin(mode) => InvKept(y.core, MarkerTake);
    case Mark => InvKept(y.core, MarkEvict(y.marker.j));
    case Post =>
      InvKept(y.core, MarkerGive);
      PostTracks(y, h);
    case _ =>
  }

  // ----- pins -----

  /** Slot i's element u is pinned, and no cache_sync is about to mark it. */
  predicate PinnedIn(y: Sys, i: nat, u: nat) {
    PinnedAt(y.core, i, u) && !(y.marker.Marking? && y.marker.j == i)
  }

  /** Nobody unpins, marks or evicts slot i's element by hand, and no cache_disable begins. */
  predicate Spares(a: Act, i: nat) {
    match a
    case Do(s) => LeavesPin(s, i)
    case Begin(mode) => mode.Sync?
    case _ => true
  }

  predicate NotDisabling(m: Marker) {
    m.Looking? || m.Marking? ==> m.mode.Sync?
  }

  lemma PinnedStaysIn(y: Sys, a: Act, i: nat, u: nat)
    requires Inv(y.core) && Possible(y, a) && PinnedIn(y, i, u) && NotDisabling(y.marker) && Spares(a, i)
    ensures PinnedIn(Next(y, a), i, u) && NotDisabling(Next(y, a).marker) && Inv(Next(y, a).core)
  {
    hide NumUsed, GoodParts;
    match a
    case Do(s) => DoKeepsPinned(y, s, i, u);
    case Sleep => InvKept(y.core, FSleep(y.exit));
    case Begin(mode) => InvKept(y.core, MarkerTake);
    case Mark => InvKept(y.core, MarkEvict(y.marker.j));
    case Post => InvKept(y.core, MarkerGive);
    case _ =>
  }

  lemma DoKeepsPinned(y: Sys, s: Step, i: nat, u: nat)
    requires Inv(y.core) && Possible(y, Do(s)) && PinnedIn(y, i, u) && LeavesPin(s, i)
    ensures PinnedIn(Next(y, Do(s)), i, u) && Inv(Next(y, Do(s)).core)
  {
    hide NumUsed, GoodParts, Apply, LeavesPin;
    InvKept(y.core, s);
    PinnedStays(y.core, s, i, u);
  }

  /** A pinned element outlives any number of cache_syncs, maps and flusher passes. */
  lemma {:induction false} PinnedOutlivesSyncs(y: Sys, acts: seq<Act>, i: nat, u: nat)
    requires Inv(y.core) && Goes(y, acts) && PinnedIn(y, i, u) && NotDisabling(y.marker)
    requires forall a | a in acts :: Spares(a, i)
    ensures PinnedIn(Final(y, acts), i, u)
    decreases |acts|
  {
    hide Inv, Possible, Next, PinnedIn, NotDisabling, Spares;
    if acts != [] {
      PinnedStaysIn(y, acts[0], i, u);
      PinnedOutlivesSyncs(Next(y, acts[0]), acts[1..], i, u);
    }
  }

  // ----- what an answer means -----

  /** When cache_sync sees LOOP_DONE, and it was down when the flag went up, a whole pass has begun since:
      of the elements that pass could lock and nobody else disturbed, exactly the unmarked ones remain,
      all of which were pinned, and whatever was dirty has been flushed. */
  lemma SyncDelivers(y: Sys, h: Record)
    requires SysInv(y, h) && y.marker == Waiting(Sync) && Possible(y, Poll) && !h.early
    ensures h.phase.Passed?
    ensures forall u | u in h.live && u !in h.skipped && u !in h.disturbed :: Holds(y.core, u) <==> u !in h.marked
    ensures forall u | u in h.live && u !in h.marked :: u in h.pinned
    ensures forall u | u in h.marked && u !in h.skipped :: !Holds(y.core, u)
    ensures forall u | u in h.dirty && u !in h.skipped :: u in h.cleaned
  {
    hide NumUsed, GoodParts, FlusherInv;
    AnswerIsPassed(y.core, h);
    forall u | u in h.live && u !in h.skipped && u !in h.disturbed
      ensures Holds(y.core, u) <==> u !in h.marked
    {
      assert u !in h.marked ==> Stays(h, u);
    }
  }

  /** After the pass a marked or dirty element is still there only if the pass could not lock it. */
  lemma AnswerIsPassed(c: Core, h: Record)
    requires TrackInv(c, h) && h.phase.Passed?
    ensures forall u | u in h.marked && u !in h.skipped :: !Holds(c, u)
    ensures forall u | u in h.dirty && u !in h.skipped :: u in h.cleaned
  {
    forall u | Holds(c, u)
      ensures Settled(h, u)
    {
      var i :| 0 <= i < |c.slots| && c.slots[i].Used? && c.slots[i].el.uid == u;
      assert SlotTracked(c.slots[i].el, h, i < Bound(c, h));
    }
  }

  /** EVICTED after cache_disable means an empty array when no map intervened and no trylock failed. */
  lemma DisableEmpties(y: Sys, h: Record)
    requires SysInv(y, h) && y.marker == Waiting(Disable) && Possible(y, Poll)
    requires !h.mapped && h.skipped == {}
    ensures forall i | 0 <= i < |y.core.slots| :: y.core.slots[i].Empty?
    ensures y.core.inUse == 0
  {
    hide NumUsed, GoodParts, FlusherInv;
    forall i | 0 <= i < |y.core.slots|
      ensures y.core.slots[i].Empty?
    {
      assert y.core.slots[i].Used? ==> SlotTracked(y.core.slots[i].el, h, i < Bound(y.core, h));
    }
    NumUsedBounds(y.core.slots, |y.core.slots|);
  }

  /** An element counts as flushed only when the device has its contents. */
  lemma CleanedMeansFlushed(c: Core, h: Record, s: Step, u: nat)
    requires Inv(c) && Enabled(c, s) && u in NoteStep(c, h, s).cleaned && u !in h.cleaned
    ensures exists i | 0 <= i < |c.slots| ::
              c.slots[i].Used? && c.slots[i].el.uid == u && Saved(c.slots[i].el, Apply(c, s).device)
  {
    hide NumUsed;
    var i := Site(c, s);
    LiveIsGood(c, i);
    assert c.slots[i].Used? && c.slots[i].el.uid == u;
  }

  /** A caller of cache_sync can be answered before any pass exactly when LOOP_DONE was left up. */
  lemma EarlyAnswerExactly(y: Sys, h: Record)
    requires SysInv(y, h) && Possible(y, Post) && y.marker.mode.Sync?
    ensures Possible(Next(y, Post), Poll) <==> y.done
    ensures Note(y, h, Post).early <==> y.done
    ensures Note(y, h, Post).phase.Unpassed?
    ensures !h.gaveUp ==> !y.done
  {
    hide NumUsed, GoodParts, FlusherInv, MarkerInv, TrackInv;
  }

  // ----- runs -----

  function Boot(capacity: nat, device: seq<nat>): Sys {
    Sys(CacheProtocol.Start(capacity, device), false, false, false, false, Idle)
  }

  const NOTHING := Record(false, false, Before, {}, {}, {}, {}, {}, {}, {}, false)

  ghost predicate Goes(y: Sys, acts: seq<Act>)
    decreases |acts|
  {
    acts == [] || (Placed(y.core) && Possible(y, acts[0]) && Goes(Next(y, acts[0]), acts[1..]))
  }

  ghost function Final(y: Sys, acts: seq<Act>): Sys
    requires Goes(y, acts)
    decreases |acts|
  {
    if acts == [] then y else Final(Next(y, acts[0]), acts[1..])
  }

  ghost function Noted(y: Sys, h: Record, acts: seq<Act>): Record
    requires Goes(y, acts)
    decreases |acts|
  {
    if acts == [] then h else Noted(Next(y, acts[0]), Note(y, h, acts[0]), acts[1..])
  }

  lemma {:induction false} RunsKeepSysInv(y: Sys, h: Record, acts: seq<Act>)
    requires SysInv(y, h) && Goes(y, acts)
    ensures SysInv(Final(y, acts), Noted(y, h, acts))
    decreases |acts|
  {
    hide SysInv, Next, Note, Possible;
    if acts != [] {
      SysInvKept(y, h, acts[0]);
      RunsKeepSysInv(Next(y, acts[0]), Note(y, h, acts[0]), acts[1..]);
    }
  }

  lemma BootIsInv(capacity: nat, device: seq<nat>)
    ensures SysInv(Boot(capacity, device), NOTHING)
  {
    NumUsedBounds(CacheProtocol.Start(capacity, device).slots, capacity);
  }

  /** In any run of a cache whose cache_sync calls have all been answered, a call that sees LOOP_DONE has
      what it asked for. */
  lemma EverySyncDelivers(capacity: nat, device: seq<nat>, acts: seq<Act>)
    requires Goes(Boot(capacity, device), acts)
    requires var y, h := Final(Boot(capacity, device), acts), Noted(Boot(capacity, device), NOTHING, acts);
             y.marker == Waiting(Sync) && y.done && !h.gaveUp
    ensures var y, h := Final(Boot(capacity, device), acts), Noted(Boot(capacity, device), NOTHING, acts);
            && (forall u | u in h.live && u !in h.skipped && u !in h.disturbed ::
                  Holds(y.core, u) <==> u !in h.marked)
            && (forall u | u in h.live && u !in h.marked :: u in h.pinned)
            && (forall u | u in h.dirty && u !in h.skipped :: u in h.cleaned)
  {
    BootIsInv(capacity, device);
    RunsKeepSysInv(Boot(capacity, device), NOTHING, acts);
    hide Inv, MarkerInv, TrackInv, Goes, Final, Noted;
    var y, h := Final(Boot(capacity, device), acts), Noted(Boot(capacity, device), NOTHING, acts);
    SyncDelivers(y, h);
  }

  /** In any run, EVICTED after cache_disable means an empty cache unless a map intervened or the
      flusher found an element locked. */
  lemma EveryDisableEmpties(capacity: nat, device: seq<nat>, acts: seq<Act>)
    requires Goes(Boot(capacity, device), acts)
    requires var y, h := Final(Boot(capacity, device), acts), Noted(Boot(capacity, device), NOTHING, acts);
             y.marker == Waiting(Disable) && y.evicted && !h.mapped && h.skipped == {}
    ensures AllEmpty(Final(Boot(capacity, device), acts).core)
  {
    BootIsInv(capacity, device);
    RunsKeepSysInv(Boot(capacity, device), NOTHING, acts);
    hide Inv, MarkerInv, TrackInv, Goes, Final, Noted;
    var y, h := Final(Boot(capacity, device), acts), Noted(Boot(capacity, device), NOTHING, acts);
    DisableEmpties(y, h);
  }

  /** The pass that ends next answers a request that was not answered early. */
  lemma PassAnswers(y: Sys, h: Record)
    requires SysInv(y, h) && Possible(y, Sleep)
    requires y.marker == Waiting(Disable) || (y.marker == Waiting(Sync) && !h.early)
    ensures Possible(Next(y, Sleep), Poll)
  {
    hide Inv, TrackInv, MarkerInv;
  }

  /** EXIT and EVICTED are up once the flusher has gone. */
  predicate GoneIsEvicted(y: Sys) {
    y.core.fl.Gone? ==> y.exit && y.evicted
  }

  lemma GoneIsEvictedKept(y: Sys, a: Act)
    requires Placed(y.core) && Possible(y, a) && GoneIsEvicted(y)
    ensures GoneIsEvicted(Next(y, a))
  {
  }

  lemma {:induction false} GoneStaysEvicted(y: Sys, acts: seq<Act>)
    requires Goes(y, acts) && GoneIsEvicted(y)
    ensures GoneIsEvicted(Final(y, acts))
    decreases |acts|
  {
    hide Next, Possible, GoneIsEvicted, Placed;
    if acts != [] {
      GoneIsEvictedKept(y, acts[0]);
      GoneStaysEvicted(Next(y, acts[0]), acts[1..]);
    }
  }

  /** In any run, a cache_disable that waits for a flusher that has gone has its answer. */
  lemma GoneHasAnswered(capacity: nat, device: seq<nat>, acts: seq<Act>)
    requires Goes(Boot(capacity, device), acts) && Final(Boot(capacity, device), acts).core.fl.Gone?
    ensures Final(Boot(capacity, device), acts).marker == Waiting(Disable) ==>
              Possible(Final(Boot(capacity, device), acts), Poll)
  {
    hide Goes, Final;
    GoneStaysEvicted(Boot(capacity, device), acts);
  }

  predicate AllEmpty(c: Core) {
    forall i | 0 <= i < |c.slots| :: c.slots[i].Empty?
  }

  // ----- a timeout that outlives its call -----

  ghost predicate CanReach(y: Sys, z: Sys) {
    exists acts: seq<Act> :: Goes(y, acts) && Final(y, acts) == z
  }

  lemma ReachesOn(y: Sys, a: Act, z: Sys)
    requires Placed(y.core) && Possible(y, a) && CanReach(Next(y, a), z)
    ensures CanReach(y, z)
  {
    hide Next, Possible, Placed;
    var acts: seq<Act> :| Goes(Next(y, a), acts) && Final(Next(y, a), acts) == z;
    assert ([a] + acts)[1..] == acts;
    assert Goes(y, [a] + acts) && Final(y, [a] + acts) == z;
  }

  /** A cache of one slot over a device of one block that holds 0. */
  function Tiny(s: Slot<El>, fl: Flusher, ca: Owner, setDone: bool, done: bool, m: Marker): Sys {
    Sys(Core([s], if s.Used? then 1 else 0, [0], fl, ca, if s.Used? then 1 else 0), setDone, done, false, false, m)
  }

  /** The one element: block 0, holding `mem`. */
  function TinySlot(mem: nat, dirty: bool, evict: bool): Slot<El> {
    Used(El(0, 0, [mem], true, dirty, !dirty, evict, false))
  }

  /** One step between two such states. */
  lemma TinyStep(a: Act, y: Sys, y': Sys, z: Sys)
    requires Placed(y.core) && Possible(y, a) && Next(y, a) == y' && CanReach(y', z)
    ensures CanReach(y, z)
  {
    hide Next, Possible, CanReach;
    ReachesOn(y, a, z);
  }

  lemma OneSlot(s: Slot<El>, r: Slot<El>)
    ensures [s][0 := r] == [r]
  {
  }

  /** A cache_sync of the empty cache gives up, leaving its request behind. */
  lemma SyncGivesUp(z: Sys)
    requires CanReach(Tiny(Empty, Asleep, Free, true, false, Idle), z)
    ensures CanReach(Tiny(Empty, Asleep, Free, false, false, Idle), z)
  {
    hide CanReach, Apply;
    var asked := Tiny(Empty, Asleep, Free, true, false, Waiting(Sync));
    TinyStep(Clear, asked.(marker := Clearing), Tiny(Empty, Asleep, Free, true, false, Idle), z);
    TinyStep(TimeOut, asked, asked.(marker := Clearing), z);
    RaiseFlag(Empty, false, z);
    LookAtEmpty(z);
  }

  lemma LookAtEmpty(z: Sys)
    requires CanReach(Tiny(Empty, Asleep, ByMarker, false, false, Looking(Sync, 1)), z)
    ensures CanReach(Tiny(Empty, Asleep, Free, false, false, Idle), z)
  {
    hide CanReach;
    var looking := Tiny(Empty, Asleep, ByMarker, false, false, Looking(Sync, 0));
    TinyStep(Look, looking, looking.(marker := Looking(Sync, 1)), z);
    BeginsSync(Empty, false, z);
  }

  lemma BeginsSync(s: Slot<El>, done: bool, z: Sys)
    requires CanReach(Tiny(s, Asleep, ByMarker, false, done, Looking(Sync, 0)), z)
    ensures CanReach(Tiny(s, Asleep, Free, false, done, Idle), z)
  {
    hide CanReach;
    TinyStep(Begin(Sync), Tiny(s, Asleep, Free, false, done, Idle),
             Tiny(s, Asleep, ByMarker, false, done, Looking(Sync, 0)), z);
  }

  lemma RaiseFlag(s: Slot<El>, done: bool, z: Sys)
    requires CanReach(Tiny(s, Asleep, Free, true, done, Waiting(Sync)), z)
    ensures CanReach(Tiny(s, Asleep, ByMarker, false, done, Looking(Sync, 1)), z)
  {
    hide CanReach;
    TinyStep(Post, Tiny(s, Asleep, ByMarker, false, done, Looking(Sync, 1)),
             Tiny(s, Asleep, Free, true, done, Waiting(Sync)), z);
  }

  /** The flusher answers the request that nobody waits for any more. */
  lemma LateAnswer(z: Sys)
    requires CanReach(Tiny(Empty, Asleep, Free, false, true, Idle), z)
    ensures CanReach(Tiny(Empty, Asleep, Free, true, false, Idle), z)
  {
    hide CanReach;
    var awake := Tiny(Empty, At(1), ByFlusher, true, false, Idle);
    TinyStep(Sleep, awake, Tiny(Empty, Asleep, Free, false, true, Idle), z);
    TinyStep(Do(FWake), Tiny(Empty, Asleep, Free, true, false, Idle), awake, z);
  }

  /** A client maps block 0 and writes 7 to it. */
  lemma MapAndWrite(z: Sys)
    requires CanReach(Tiny(TinySlot(7, true, false), Asleep, Free, false, true, Idle), z)
    ensures CanReach(Tiny(Empty, Asleep, Free, false, true, Idle), z)
  {
    hide CanReach;
    var mapped := Tiny(TinySlot(0, false, false), Asleep, Free, false, true, Idle);
    OneSlot(TinySlot(0, false, false), TinySlot(7, true, false));
    OneSlot(Empty, TinySlot(0, false, false));
    assert [0][0..1] == [0] && [0][0 := 7] == [7];
    TinyStep(Do(Write(0, 0, 7)), mapped, Tiny(TinySlot(7, true, false), Asleep, Free, false, true, Idle), z);
    TinyStep(Do(MapKey(0, 0, 1)), Tiny(Empty, Asleep, Free, false, true, Idle), mapped, z);
  }

  /** The next cache_sync looks at the element and marks it. */
  lemma LookAndMark(z: Sys)
    requires CanReach(Tiny(TinySlot(7, true, true), Asleep, ByMarker, false, true, Looking(Sync, 1)), z)
    ensures CanReach(Tiny(TinySlot(7, true, false), Asleep, Free, false, true, Idle), z)
  {
    MarkElement(z);
    LookAtElement(z);
    BeginsSync(TinySlot(7, true, false), true, z);
  }

  lemma LookAtElement(z: Sys)
    requires CanReach(Tiny(TinySlot(7, true, false), Asleep, ByMarker, false, true, Marking(Sync, 0)), z)
    ensures CanReach(Tiny(TinySlot(7, true, false), Asleep, ByMarker, false, true, Looking(Sync, 0)), z)
  {
    hide CanReach, Apply;
    var looking := Tiny(TinySlot(7, true, false), Asleep, ByMarker, false, true, Looking(Sync, 0));
    TinyStep(Look, looking, looking.(marker := Marking(Sync, 0)), z);
  }

  lemma MarkElement(z: Sys)
    requires CanReach(Tiny(TinySlot(7, true, true), Asleep, ByMarker, false, true, Looking(Sync, 1)), z)
    ensures CanReach(Tiny(TinySlot(7, true, false), Asleep, ByMarker, false, true, Marking(Sync, 0)), z)
  {
    hide CanReach;
    OneSlot(TinySlot(7, true, false), TinySlot(7, true, true));
    TinyStep(Mark, Tiny(TinySlot(7, true, false), Asleep, ByMarker, false, true, Marking(Sync, 0)),
             Tiny(TinySlot(7, true, true), Asleep, ByMarker, false, true, Looking(Sync, 1)), z);
  }

  lemma ReachesItself(z: Sys)
    ensures CanReach(z, z)
  {
    assert Goes(z, []) && Final(z, []) == z;
  }

  /** After a cache_sync that timed out, the next one can see LOOP_DONE at once, with the element it
      marked still in the cache and its write not on the device. */
  lemma EarlierTimeoutBreaksSync(z: Sys)
    requires z == Tiny(TinySlot(7, true, true), Asleep, Free, true, true, Waiting(Sync))
    ensures CanReach(Boot(1, [0]), z) && Possible(z, Poll)
    ensures z.core.slots[0].el.dirty && !Saved(z.core.slots[0].el, z.core.device)
  {
    hide CanReach;
    ReachesItself(z);
    RaiseFlag(TinySlot(7, true, true), true, z);
    LookAndMark(z);
    MapAndWrite(z);
    LateAnswer(z);
    SyncGivesUp(z);
    assert Boot(1, [0]).core.slots == [Empty];
    assert [0][0..1][0] != [7][0];
  }
}
