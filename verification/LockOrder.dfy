/** The three levels of mutexes of the page cache: pc_mutex, ca_mutex and each element's ce_mutex. A call
    is the list of lock operations its path through fs/page_cache.c and fs/cache.c performs; any number
    of threads make calls one after the other. */
module LockOrder {

  datatype Lock = Pc | Ca | Ce(element: nat)

  /** `Try` is pthread_mutex_trylock: when it fails, the next `skip` operations are not performed. */
  datatype Instr = Acquire(lock: Lock) | Try(lock: Lock, skip: nat) | Release(lock: Lock)

  /** The calls, by the path they take. */
  datatype Call =
    | MapHit
    | MapGrow(element: nat)
    | MapGrowFails(element: nat)
    | MapMiss
    | MapMissEvicting(victim: nat)
    | MapMissReadFails(element: nat)
    | MapMissEvictingReadFails(victim: nat, element: nat)
    | MarkElement(element: nat)
    | EvictKey(element: nat)
    | UnderCacheMutex
    | SyncCall(marked: seq<nat>)
    | DisableCall(marked: seq<nat>)
    | FlusherPass(visited: seq<nat>)

  function Brief(l: Lock): seq<Instr> {
    [Acquire(l), Release(l)]
  }

  function MarkAll(elements: seq<nat>): seq<Instr> {
    if elements == [] then [] else Brief(Ce(elements[0])) + MarkAll(elements[1..])
  }

  function VisitAll(elements: seq<nat>): seq<Instr> {
    if elements == [] then [] else [Try(Ce(elements[0]), 1), Release(Ce(elements[0]))] + VisitAll(elements[1..])
  }

  /** The lock operations of a call. `MapHit` and `MapMiss` are also pgcache_element_map_zero's paths;
      `MarkElement` is each of mark_dirty, mark_eviction, pin and unpin; `UnderCacheMutex` is
      cache_lookup, an unsuccessful cache_element_evict and the flag setters. */
  function Program(c: Call): seq<Instr> {
    match c
    case MapHit => Brief(Pc)
    case MapGrow(e) => [Acquire(Pc)] + Brief(Ce(e)) + [Release(Pc)]
    case MapGrowFails(e) => [Acquire(Pc), Acquire(Ce(e)), Release(Pc)]
    case MapMiss => [Acquire(Pc)] + Brief(Ca) + [Release(Pc)]
    case MapMissEvicting(v) => [Acquire(Pc), Acquire(Ca)] + Brief(Ce(v)) + [Release(Ca), Release(Pc)]
    case MapMissReadFails(e) => [Acquire(Pc)] + Brief(Ca) + Brief(Ce(e)) + [Release(Pc)]
    case MapMissEvictingReadFails(v, e) =>
      [Acquire(Pc)] + ([Acquire(Ca)] + Brief(Ce(v)) + [Release(Ca)] + Brief(Ce(e))) + [Release(Pc)]
    case MarkElement(e) => Brief(Ce(e))
    case EvictKey(e) => [Acquire(Ca)] + Brief(Ce(e)) + [Release(Ca)]
    case UnderCacheMutex => Brief(Ca)
    case SyncCall(marked) => [Acquire(Ca)] + MarkAll(marked) + [Release(Ca)] + Brief(Ca)
    case DisableCall(marked) => [Acquire(Ca)] + MarkAll(marked) + [Release(Ca)]
    case FlusherPass(visited) => [Acquire(Ca)] + VisitAll(visited) + [Release(Ca)]
  }

  function Rank(l: Lock): nat {
    match l case Pc => 0 case Ca => 1 case Ce(_) => 2
  }

  predicate AllBelow(held: set<Lock>, rank: nat) {
    forall m | m in held :: Rank(m) < rank
  }

  /** From a thread holding `held`, the operations block only on locks ranked above everything held,
      release only what is held, and leave nothing held. */
  predicate Disciplined(held: set<Lock>, ops: seq<Instr>)
    decreases |ops|
  {
    if ops == [] then held == {}
    else
      match ops[0]
      case Acquire(l) => AllBelow(held, Rank(l)) && Disciplined(held + {l}, ops[1..])
      case Try(l, skip) =>
        && l !in held && skip < |ops|
        && Disciplined(held + {l}, ops[1..]) && Disciplined(held, ops[1 + skip..])
      case Release(l) => l in held && Disciplined(held - {l}, ops[1..])
  }

  // ----- every call but one is disciplined -----

  lemma BriefThen(held: set<Lock>, l: Lock, rest: seq<Instr>)
    ensures AllBelow(held, Rank(l)) ==>
              (Disciplined(held, Brief(l) + rest) <==> Disciplined(held, rest))
  {
    if AllBelow(held, Rank(l)) {
      var ops := Brief(l) + rest;
      assert ops[1..] == [Release(l)] + rest && ops[1..][1..] == rest;
      assert held + {l} - {l} == held by { assert l !in held; }
    }
  }

  lemma {:induction false} MarkAllThen(elements: seq<nat>, rest: seq<Instr>)
    ensures Disciplined({Ca}, MarkAll(elements) + rest) <==> Disciplined({Ca}, rest)
  {
    hide Disciplined;
    if elements == [] {
      assert MarkAll(elements) + rest == rest;
    } else {
      var more := MarkAll(elements[1..]) + rest;
      assert MarkAll(elements) + rest == Brief(Ce(elements[0])) + more;
      BriefThen({Ca}, Ce(elements[0]), more);
      MarkAllThen(elements[1..], rest);
    }
  }

  lemma {:induction false} VisitAllThen(elements: seq<nat>, rest: seq<Instr>)
    ensures Disciplined({Ca}, VisitAll(elements) + rest) <==> Disciplined({Ca}, rest)
  {
    hide Disciplined;
    if elements == [] {
      assert VisitAll(elements) + rest == rest;
    } else {
      var l := Ce(elements[0]);
      var more := VisitAll(elements[1..]) + rest;
      assert VisitAll(elements) + rest == [Try(l, 1)] + ([Release(l)] + more);
      TryThen({Ca}, l, more);
      VisitAllThen(elements[1..], rest);
    }
  }

  lemma TryThen(held: set<Lock>, l: Lock, rest: seq<Instr>)
    requires l !in held
    ensures Disciplined(held, [Try(l, 1)] + ([Release(l)] + rest)) <==> Disciplined(held, rest)
  {
    var ops := [Try(l, 1)] + ([Release(l)] + rest);
    assert ops[1..] == [Release(l)] + rest && ops[1..][1..] == rest && ops[2..] == rest;
    assert held + {l} - {l} == held;
  }

  lemma AcquireThen(held: set<Lock>, l: Lock, rest: seq<Instr>)
    ensures Disciplined(held, [Acquire(l)] + rest) <==> AllBelow(held, Rank(l)) && Disciplined(held + {l}, rest)
  {
    assert ([Acquire(l)] + rest)[1..] == rest;
  }

  lemma ReleaseThen(held: set<Lock>, l: Lock, rest: seq<Instr>)
    ensures Disciplined(held, [Release(l)] + rest) <==> l in held && Disciplined(held - {l}, rest)
  {
    assert ([Release(l)] + rest)[1..] == rest;
  }

  /** [Acquire(l)] + middle + [Release(l)], when the middle is disciplined under l whatever follows. */
  lemma Around(held: set<Lock>, l: Lock, middle: seq<Instr>, rest: seq<Instr>)
    requires AllBelow(held, Rank(l))
    requires Disciplined(held + {l}, middle + ([Release(l)] + rest)) <==> Disciplined(held + {l}, [Release(l)] + rest)
    ensures Disciplined(held, [Acquire(l)] + middle + [Release(l)] + rest) <==> Disciplined(held, rest)
  {
    assert [Acquire(l)] + middle + [Release(l)] + rest == [Acquire(l)] + (middle + ([Release(l)] + rest));
    AcquireThen(held, l, middle + ([Release(l)] + rest));
    ReleaseThen(held + {l}, l, rest);
    assert held + {l} - {l} == held;
  }

  /** Whatever its parameters, a call takes its locks in order, never one it holds, and gives them all
      back, except for a map whose growth fails. */
  lemma DisciplinedExactly(c: Call)
    ensures Disciplined({}, Program(c)) <==> !c.MapGrowFails?
  {
    hide Disciplined;
    NothingLeft();
    match c
    case MapHit => Alone(Pc);
    case MarkElement(e) => Alone(Ce(e));
    case UnderCacheMutex => Alone(Ca);
    case MapGrow(e) => Pair(Pc, Ce(e), []);
    case MapMiss => Pair(Pc, Ca, []);
    case EvictKey(e) => Pair(Ca, Ce(e), []);
    case MapMissEvicting(v) =>
      var inner := [Acquire(Ca)] + Brief(Ce(v)) + [Release(Ca)];
      BriefThen({Pc} + {Ca}, Ce(v), [Release(Ca)] + ([Release(Pc)] + []));
      Around({Pc}, Ca, Brief(Ce(v)), [Release(Pc)] + []);
      assert inner + ([Release(Pc)] + []) == [Acquire(Ca)] + Brief(Ce(v)) + [Release(Ca)] + ([Release(Pc)] + []);
      assert {} + {Pc} == {Pc};
      Around({}, Pc, inner, []);
      assert Program(c) == [Acquire(Pc)] + inner + [Release(Pc)] + [];
    case MapMissReadFails(e) =>
      var inner := Brief(Ca) + Brief(Ce(e));
      BriefThen({Pc}, Ca, Brief(Ce(e)) + ([Release(Pc)] + []));
      BriefThen({Pc}, Ce(e), [Release(Pc)] + []);
      assert inner + ([Release(Pc)] + []) == Brief(Ca) + (Brief(Ce(e)) + ([Release(Pc)] + []));
      assert {} + {Pc} == {Pc};
      Around({}, Pc, inner, []);
      assert Program(c) == [Acquire(Pc)] + inner + [Release(Pc)] + [];
    case MapMissEvictingReadFails(v, e) =>
      var inner := [Acquire(Ca)] + Brief(Ce(v)) + [Release(Ca)] + Brief(Ce(e));
      var rest := Brief(Ce(e)) + ([Release(Pc)] + []);
      BriefThen({Pc} + {Ca}, Ce(v), [Release(Ca)] + rest);
      Around({Pc}, Ca, Brief(Ce(v)), rest);
      BriefThen({Pc}, Ce(e), [Release(Pc)] + []);
      assert inner + ([Release(Pc)] + []) == [Acquire(Ca)] + Brief(Ce(v)) + [Release(Ca)] + rest;
      assert {} + {Pc} == {Pc};
      Around({}, Pc, inner, []);
      assert Program(c) == [Acquire(Pc)] + inner + [Release(Pc)] + [];
    case SyncCall(marked) =>
      MarkAllThen(marked, [Release(Ca)] + Brief(Ca));
      assert {} + {Ca} == {Ca};
      Around({}, Ca, MarkAll(marked), Brief(Ca));
      Alone(Ca);
    case DisableCall(marked) =>
      MarkAllThen(marked, [Release(Ca)] + []);
      assert {} + {Ca} == {Ca};
      Around({}, Ca, MarkAll(marked), []);
      assert Program(c) == [Acquire(Ca)] + MarkAll(marked) + [Release(Ca)] + [];
    case FlusherPass(visited) =>
      VisitAllThen(visited, [Release(Ca)] + []);
      assert {} + {Ca} == {Ca};
      Around({}, Ca, VisitAll(visited), []);
      assert Program(c) == [Acquire(Ca)] + VisitAll(visited) + [Release(Ca)] + [];
    case MapGrowFails(e) => LeakIsUndisciplined(e);
  }

  lemma NothingLeft()
    ensures Disciplined({}, [])
  {
  }

  lemma Alone(l: Lock)
    ensures Disciplined({}, Brief(l))
  {
    NothingLeft();
    BriefThen({}, l, []);
    assert Brief(l) + [] == Brief(l);
  }

  lemma Pair(outer: Lock, inner: Lock, rest: seq<Instr>)
    requires Rank(outer) < Rank(inner)
    ensures Disciplined({}, [Acquire(outer)] + Brief(inner) + [Release(outer)])
  {
    hide Disciplined;
    NothingLeft();
    BriefThen({} + {outer}, inner, [Release(outer)] + []);
    Around({}, outer, Brief(inner), []);
    assert [Acquire(outer)] + Brief(inner) + [Release(outer)] + [] == [Acquire(outer)] + Brief(inner) + [Release(outer)];
  }

  lemma LeakIsUndisciplined(e: nat)
    ensures !Disciplined({}, Program(MapGrowFails(e)))
  {
    hide Disciplined;
    assert Program(MapGrowFails(e)) == [Acquire(Pc)] + ([Acquire(Ce(e))] + ([Release(Pc)] + []));
    AcquireThen({}, Pc, [Acquire(Ce(e))] + ([Release(Pc)] + []));
    AcquireThen({} + {Pc}, Ce(e), [Release(Pc)] + []);
    ReleaseThen({} + {Pc} + {Ce(e)}, Pc, []);
    EndsEmpty({} + {Pc} + {Ce(e)} - {Pc});
    assert Ce(e) in {} + {Pc} + {Ce(e)} - {Pc};
  }

  lemma EndsEmpty(held: set<Lock>)
    ensures Disciplined(held, []) <==> held == {}
  {
  }

  // ----- threads -----

  datatype Thread = Thread(held: set<Lock>, rest: seq<Instr>)

  /** A thread starts a call, or performs the next operation of the one it is in. */
  datatype Move = Start(t: nat, call: Call) | Go(t: nat)

  predicate Held(s: seq<Thread>, l: Lock) {
    exists u | 0 <= u < |s| :: l in s[u].held
  }

  /** Thread t is at an operation and is not blocked there. */
  predicate CanGo(s: seq<Thread>, t: nat) {
    t < |s| && s[t].rest != [] && (s[t].rest[0].Acquire? ==> !Held(s, s[t].rest[0].lock))
  }

  /** The operation at which thread t is, performed. */
  function AfterOp(s: seq<Thread>, t: nat): Thread
    requires t < |s| && s[t].rest != []
  {
    var (held, rest) := (s[t].held, s[t].rest);
    match rest[0]
    case Acquire(l) => Thread(held + {l}, rest[1..])
    case Try(l, skip) =>
      if !Held(s, l) then Thread(held + {l}, rest[1..])
      else Thread(held, rest[if skip < |rest| then 1 + skip else |rest|..])
    case Release(l) => Thread(held - {l}, rest[1..])
  }

  predicate CanMove(s: seq<Thread>, m: Move) {
    match m
    case Start(t, call) => t < |s| && s[t].rest == []
    case Go(t) => CanGo(s, t)
  }

  function Moved(s: seq<Thread>, m: Move): seq<Thread>
    requires CanMove(s, m)
  {
    match m
    case Start(t, call) => s[t := Thread(s[t].held, Program(call))]
    case Go(t) => s[t := AfterOp(s, t)]
  }

  ghost predicate Orderly(s: seq<Thread>) {
    && (forall t | 0 <= t < |s| :: Disciplined(s[t].held, s[t].rest))
    && (forall t, u | 0 <= t < u < |s| :: s[t].held !! s[u].held)
  }

  lemma OpKeepsDiscipline(s: seq<Thread>, t: nat)
    requires t < |s| && Disciplined(s[t].held, s[t].rest) && s[t].rest != []
    ensures Disciplined(AfterOp(s, t).held, AfterOp(s, t).rest)
  {
  }

  /** Every move of disciplined calls keeps mutual exclusion and the lock order. */
  lemma OrderlyKept(s: seq<Thread>, m: Move)
    requires Orderly(s) && CanMove(s, m) && (m.Start? ==> !m.call.MapGrowFails?)
    ensures Orderly(Moved(s, m))
  {
    hide Disciplined, Program;
    match m
    case Start(t, call) =>
      EndsEmpty(s[t].held);
      DisciplinedExactly(call);
    case Go(t) =>
      OpKeepsDiscipline(s, t);
  }

  // ----- calls under the same mutex exclude each other -----

  /** The mutex that a call holds from its first operation to its last. */
  function Guard(c: Call): Lock {
    match c
    case MapHit => Pc
    case MapGrow(e) => Pc
    case MapGrowFails(e) => Pc
    case MapMiss => Pc
    case MapMissEvicting(v) => Pc
    case MapMissReadFails(e) => Pc
    case MapMissEvictingReadFails(v, e) => Pc
    case MarkElement(e) => Ce(e)
    case EvictKey(e) => Ca
    case UnderCacheMutex => Ca
    case SyncCall(marked) => Ca
    case DisableCall(marked) => Ca
    case FlusherPass(visited) => Ca
  }

  lemma {:induction false} MarksAndVisitsTakeElements(elements: seq<nat>)
    ensures forall k | 0 <= k < |MarkAll(elements)| :: MarkAll(elements)[k].lock.Ce?
    ensures forall k | 0 <= k < |VisitAll(elements)| :: VisitAll(elements)[k].lock.Ce?
  {
    if elements != [] {
      MarksAndVisitsTakeElements(elements[1..]);
    }
  }

  /** Every call starts by taking its guard and ends by giving it back, and does not touch it in between,
      except for cache_sync, which takes ca_mutex once more, and a map whose growth fails, which ends so too
      early. */
  lemma GuardIsHeldThroughout(c: Call)
    requires !c.SyncCall? && !c.MapGrowFails?
    ensures var p, g := Program(c), Guard(c);
            && |p| >= 2 && p[0] == Acquire(g) && p[|p| - 1] == Release(g)
            && forall k | 0 < k < |p| - 1 :: p[k].lock != g
  {
    match c
    case DisableCall(marked) => MarksAndVisitsTakeElements(marked);
    case FlusherPass(visited) => MarksAndVisitsTakeElements(visited);
    case _ =>
  }

  predicate Takes(ops: seq<Instr>, l: Lock) {
    exists k | 0 <= k < |ops| :: ops[k].lock == l
  }

  lemma TakesEither(a: seq<Instr>, b: seq<Instr>, l: Lock)
    ensures Takes(a + b, l) <==> Takes(a, l) || Takes(b, l)
  {
    if k :| 0 <= k < |a| && a[k].lock == l {
      assert (a + b)[k].lock == l;
    }
    if k :| 0 <= k < |b| && b[k].lock == l {
      assert (a + b)[|a| + k].lock == l;
    }
  }

  lemma TakesBrief(l: Lock, m: Lock)
    ensures Takes([Acquire(l)], m) <==> m == l
    ensures Takes([Release(l)], m) <==> m == l
    ensures Takes(Brief(l), m) <==> m == l
  {
    assert [Acquire(l)][0].lock == l && [Release(l)][0].lock == l && Brief(l)[0].lock == l;
  }

  lemma {:induction false} ElementsTaken(elements: seq<nat>, l: Lock)
    ensures Takes(MarkAll(elements), l) <==> l.Ce? && l.element in elements
    ensures Takes(VisitAll(elements), l) <==> l.Ce? && l.element in elements
  {
    if elements != [] {
      var e := Ce(elements[0]);
      ElementsTaken(elements[1..], l);
      TakesBrief(e, l);
      TakesEither(Brief(e), MarkAll(elements[1..]), l);
      TakesEither([Try(e, 1), Release(e)], VisitAll(elements[1..]), l);
      assert [Try(e, 1), Release(e)][0].lock == e;
    }
  }

  lemma TakesAround(outer: Lock, middle: seq<Instr>, l: Lock)
    ensures Takes([Acquire(outer)] + middle + [Release(outer)], l) <==> l == outer || Takes(middle, l)
  {
    hide Takes;
    TakesBrief(outer, l);
    TakesEither([Acquire(outer)], middle, l);
    TakesEither([Acquire(outer)] + middle, [Release(outer)], l);
  }

  /** The mutexes that a call takes. */
  lemma CallTakesExactly(c: Call, l: Lock)
    ensures Takes(Program(c), l) <==>
              match c
              case MapHit => l == Pc
              case MapGrow(e) => l in {Pc, Ce(e)}
              case MapGrowFails(e) => l in {Pc, Ce(e)}
              case MapMiss => l in {Pc, Ca}
              case MapMissEvicting(v) => l in {Pc, Ca, Ce(v)}
              case MapMissReadFails(e) => l in {Pc, Ca, Ce(e)}
              case MapMissEvictingReadFails(v, e) => l in {Pc, Ca, Ce(v), Ce(e)}
              case MarkElement(e) => l == Ce(e)
              case EvictKey(e) => l in {Ca, Ce(e)}
              case UnderCacheMutex => l == Ca
              case SyncCall(marked) => l == Ca || (l.Ce? && l.element in marked)
              case DisableCall(marked) => l == Ca || (l.Ce? && l.element in marked)
              case FlusherPass(visited) => l == Ca || (l.Ce? && l.element in visited)
  {
    hide Takes, Brief, MarkAll, VisitAll;
    match c
    case MapHit => TakesBrief(Pc, l);
    case MapGrow(e) =>
      TakesBrief(Ce(e), l);
      TakesAround(Pc, Brief(Ce(e)), l);
    case MapGrowFails(e) =>
      TakesBrief(Pc, l);
      TakesBrief(Ce(e), l);
      TakesEither([Acquire(Pc)], [Acquire(Ce(e))], l);
      TakesEither([Acquire(Pc)] + [Acquire(Ce(e))], [Release(Pc)], l);
      assert Program(c) == [Acquire(Pc)] + [Acquire(Ce(e))] + [Release(Pc)];
    case MapMiss =>
      TakesBrief(Ca, l);
      TakesAround(Pc, Brief(Ca), l);
    case MapMissEvicting(v) =>
      TakesBrief(Ce(v), l);
      TakesAround(Ca, Brief(Ce(v)), l);
      TakesAround(Pc, [Acquire(Ca)] + Brief(Ce(v)) + [Release(Ca)], l);
      assert Program(c) == [Acquire(Pc)] + ([Acquire(Ca)] + Brief(Ce(v)) + [Release(Ca)]) + [Release(Pc)];
    case MapMissReadFails(e) =>
      TakesBrief(Ca, l);
      TakesBrief(Ce(e), l);
      TakesEither(Brief(Ca), Brief(Ce(e)), l);
      TakesAround(Pc, Brief(Ca) + Brief(Ce(e)), l);
      assert Program(c) == [Acquire(Pc)] + (Brief(Ca) + Brief(Ce(e))) + [Release(Pc)];
    case MapMissEvictingReadFails(v, e) =>
      TakesBrief(Ce(v), l);
      TakesBrief(Ce(e), l);
      TakesAround(Ca, Brief(Ce(v)), l);
      TakesEither([Acquire(Ca)] + Brief(Ce(v)) + [Release(Ca)], Brief(Ce(e)), l);
      TakesAround(Pc, [Acquire(Ca)] + Brief(Ce(v)) + [Release(Ca)] + Brief(Ce(e)), l);
    case MarkElement(e) => TakesBrief(Ce(e), l);
    case EvictKey(e) =>
      TakesBrief(Ce(e), l);
      TakesAround(Ca, Brief(Ce(e)), l);
    case UnderCacheMutex => TakesBrief(Ca, l);
    case SyncCall(marked) =>
      ElementsTaken(marked, l);
      TakesAround(Ca, MarkAll(marked), l);
      TakesBrief(Ca, l);
      TakesEither([Acquire(Ca)] + MarkAll(marked) + [Release(Ca)], Brief(Ca), l);
    case DisableCall(marked) =>
      ElementsTaken(marked, l);
      TakesAround(Ca, MarkAll(marked), l);
    case FlusherPass(visited) =>
      ElementsTaken(visited, l);
      TakesAround(Ca, VisitAll(visited), l);
  }

  /** The operations give lock g back before they take it again. */
  ghost predicate GivesBack(ops: seq<Instr>, g: Lock) {
    exists k | 0 <= k < |ops| :: ops[k] == Release(g) && forall j | 0 <= j < k :: ops[j].lock != g
  }

  lemma {:induction false} HeldUntilGivenBack(held: set<Lock>, ops: seq<Instr>, g: Lock)
    requires Disciplined(held, ops) && GivesBack(ops, g)
    ensures g in held
    decreases |ops|
  {
    var k :| 0 <= k < |ops| && ops[k] == Release(g) && forall j | 0 <= j < k :: ops[j].lock != g;
    if k > 0 {
      assert ops[1..][k - 1] == Release(g);
      assert GivesBack(ops[1..], g);
      match ops[0]
      case Acquire(l) => HeldUntilGivenBack(held + {l}, ops[1..], g);
      case Try(l, skip) => HeldUntilGivenBack(held + {l}, ops[1..], g);
      case Release(l) => HeldUntilGivenBack(held - {l}, ops[1..], g);
    }
  }

  /** Two threads are never in the middle of two calls with the same guard. */
  lemma CallsAreSerial(s: seq<Thread>, t: nat, u: nat, c: Call, d: Call, j: nat, k: nat)
    requires Orderly(s) && t < |s| && u < |s|
    requires !c.SyncCall? && !c.MapGrowFails? && !d.SyncCall? && !d.MapGrowFails? && Guard(c) == Guard(d)
    requires 0 < j < |Program(c)| && s[t].rest == Program(c)[j..]
    requires 0 < k < |Program(d)| && s[u].rest == Program(d)[k..]
    ensures t == u
  {
    hide Program, Guard, Disciplined, GivesBack;
    RestGivesBack(c, j);
    RestGivesBack(d, k);
    HeldUntilGivenBack(s[t].held, s[t].rest, Guard(c));
    HeldUntilGivenBack(s[u].held, s[u].rest, Guard(c));
  }

  lemma RestGivesBack(c: Call, j: nat)
    requires !c.SyncCall? && !c.MapGrowFails? && 0 < j < |Program(c)|
    ensures GivesBack(Program(c)[j..], Guard(c))
  {
    hide Program, Guard;
    GuardIsHeldThroughout(c);
    var p := Program(c);
    assert p[j..][|p| - 1 - j] == p[|p| - 1];
    assert forall i | 0 <= i < |p| - 1 - j :: p[j..][i] == p[j + i];
  }

  // ----- somebody can always go on -----

  /** Thread t is blocked on a lock that thread u holds. */
  predicate WaitsFor(s: seq<Thread>, t: nat, u: nat) {
    && t < |s| && u < |s| && s[t].rest != [] && s[t].rest[0].Acquire?
    && s[t].rest[0].lock in s[u].held
  }

  function WantedRank(s: seq<Thread>, t: nat): nat {
    if t < |s| && s[t].rest != [] then Rank(s[t].rest[0].lock) else 0
  }

  lemma WaitsGoUp(s: seq<Thread>, t: nat, u: nat, v: nat)
    requires Orderly(s) && WaitsFor(s, t, u) && WaitsFor(s, u, v)
    ensures WantedRank(s, t) < WantedRank(s, u)
  {
    assert Disciplined(s[u].held, s[u].rest);
  }

  /** No chain of threads, each waiting for the next, comes back to where it began. */
  lemma NoWaitCycle(s: seq<Thread>, chain: seq<nat>)
    requires Orderly(s) && |chain| >= 2
    requires forall k | 0 <= k < |chain| - 1 :: WaitsFor(s, chain[k], chain[k + 1])
    ensures chain[0] != chain[|chain| - 1]
  {
    hide Orderly, Disciplined;
    if chain[0] == chain[|chain| - 1] {
      var around := chain + [chain[1]];
      assert WaitsFor(s, chain[0], chain[1]);
      forall k | 0 <= k < |around| - 1
        ensures WaitsFor(s, around[k], around[k + 1])
      {
        if k < |chain| - 1 {
          assert WaitsFor(s, chain[k], chain[k + 1]);
        }
      }
      RanksRise(s, around, |chain| - 1);
    }
  }

  lemma {:induction false} RanksRise(s: seq<Thread>, chain: seq<nat>, n: nat)
    requires Orderly(s) && 0 < n < |chain| - 1
    requires forall k | 0 <= k < |chain| - 1 :: WaitsFor(s, chain[k], chain[k + 1])
    ensures WantedRank(s, chain[0]) < WantedRank(s, chain[n])
  {
    hide Orderly, Disciplined, WantedRank;
    assert WaitsFor(s, chain[n - 1], chain[n]) && WaitsFor(s, chain[n], chain[n + 1]);
    WaitsGoUp(s, chain[n - 1], chain[n], chain[n + 1]);
    if n > 1 {
      RanksRise(s, chain, n - 1);
    }
  }

  /** If thread t holds a lock, some thread that holds one can go on. */
  lemma {:induction false} HolderGoesOn(s: seq<Thread>, t: nat, l: Lock) returns (u: nat)
    requires Orderly(s) && t < |s| && l in s[t].held
    ensures CanGo(s, u) && s[u].held != {}
    decreases 2 - Rank(l)
  {
    assert Disciplined(s[t].held, s[t].rest);
    u := t;
    if !CanGo(s, t) {
      var wanted := s[t].rest[0].lock;
      var v :| 0 <= v < |s| && wanted in s[v].held;
      u := HolderGoesOn(s, v, wanted);
    }
  }

  /** There is no deadlock: while any call is unfinished, some thread can go on. */
  lemma SomebodyGoesOn(s: seq<Thread>, t: nat) returns (u: nat)
    requires Orderly(s) && t < |s| && s[t].rest != []
    ensures CanGo(s, u)
  {
    hide Orderly;
    u := t;
    if !CanGo(s, t) {
      var v :| 0 <= v < |s| && s[t].rest[0].lock in s[v].held;
      u := HolderGoesOn(s, v, s[t].rest[0].lock);
    }
  }

  // ----- runs -----

  ghost predicate Goes(s: seq<Thread>, moves: seq<Move>)
    decreases |moves|
  {
    moves == [] || (CanMove(s, moves[0]) && Goes(Moved(s, moves[0]), moves[1..]))
  }

  ghost function Final(s: seq<Thread>, moves: seq<Move>): seq<Thread>
    requires Goes(s, moves)
    decreases |moves|
  {
    if moves == [] then s else Final(Moved(s, moves[0]), moves[1..])
  }

  predicate NoFailedGrowth(moves: seq<Move>) {
    forall k | 0 <= k < |moves| :: moves[k].Start? ==> !moves[k].call.MapGrowFails?
  }

  lemma {:induction false} RunsStayOrderly(s: seq<Thread>, moves: seq<Move>)
    requires Orderly(s) && Goes(s, moves) && NoFailedGrowth(moves)
    ensures Orderly(Final(s, moves))
    decreases |moves|
  {
    hide Orderly, Moved, CanMove;
    if moves != [] {
      OrderlyKept(s, moves[0]);
      assert NoFailedGrowth(moves[1..]) by {
        assert forall k | 0 <= k < |moves| - 1 :: moves[1..][k] == moves[k + 1];
      }
      RunsStayOrderly(Moved(s, moves[0]), moves[1..]);
    }
  }

  /** Any number of threads, making any calls in any interleaving: none of the states reached has a cycle
      of waiting threads, and in each some thread can go on if any call is unfinished. */
  lemma NoRunDeadlocks(threads: nat, moves: seq<Move>, t: nat) returns (u: nat)
    requires Goes(seq(threads, _ => Thread({}, [])), moves) && NoFailedGrowth(moves)
    requires t < |Final(seq(threads, _ => Thread({}, [])), moves)|
    requires Final(seq(threads, _ => Thread({}, [])), moves)[t].rest != []
    ensures CanGo(Final(seq(threads, _ => Thread({}, [])), moves), u)
  {
    assert Orderly(seq(threads, _ => Thread({}, [])));
    RunsStayOrderly(seq(threads, _ => Thread({}, [])), moves);
    u := SomebodyGoesOn(Final(seq(threads, _ => Thread({}, [])), moves), t);
  }

  /** Operations left to perform in all the calls under way. */
  function Remaining(s: seq<Thread>): nat {
    if s == [] then 0 else |s[0].rest| + Remaining(s[1..])
  }

  lemma {:induction false} RemainingAfter(s: seq<Thread>, t: nat, r: Thread)
    requires t < |s|
    ensures Remaining(s[t := r]) == Remaining(s) - |s[t].rest| + |r.rest|
  {
    if t == 0 {
      assert s[t := r][1..] == s[1..];
    } else {
      assert s[t := r][1..] == s[1..][t - 1 := r];
      RemainingAfter(s[1..], t - 1, r);
    }
  }

  lemma Prepend(s: seq<Thread>, m: Move, rest: seq<Move>)
    requires CanMove(s, m) && Goes(Moved(s, m), rest)
    ensures Goes(s, [m] + rest) && Final(s, [m] + rest) == Final(Moved(s, m), rest)
  {
    hide Moved, CanMove;
    assert ([m] + rest)[1..] == rest;
  }

  predicate AtRest(s: seq<Thread>) {
    forall t | 0 <= t < |s| :: s[t] == Thread({}, [])
  }

  lemma IdleIsAtRest(s: seq<Thread>)
    requires Orderly(s) && forall t | 0 <= t < |s| :: s[t].rest == []
    ensures AtRest(s)
  {
    forall t | 0 <= t < |s|
      ensures s[t] == Thread({}, [])
    {
      EndsEmpty(s[t].held);
    }
  }

  /** Let the threads finish what they are in: they all do, and hold nothing at the end. */
  lemma {:induction false} CallsFinish(s: seq<Thread>) returns (moves: seq<Move>)
    requires Orderly(s)
    ensures forall k | 0 <= k < |moves| :: moves[k].Go?
    ensures |moves| <= Remaining(s) && Goes(s, moves) && AtRest(Final(s, moves))
    decreases Remaining(s)
  {
    hide Orderly, AtRest;
    if t :| 0 <= t < |s| && s[t].rest != [] {
      var u := SomebodyGoesOn(s, t);
      OrderlyKept(s, Go(u));
      RemainingAfter(s, u, AfterOp(s, u));
      var rest := CallsFinish(Moved(s, Go(u)));
      moves := [Go(u)] + rest;
      Prepend(s, Go(u), rest);
    } else {
      moves := [];
      IdleIsAtRest(s);
    }
  }

  /** However they are scheduled, the threads cannot go on longer than that without a new call. */
  lemma {:induction false} NoScheduleIsLonger(s: seq<Thread>, moves: seq<Move>)
    requires Goes(s, moves) && forall k | 0 <= k < |moves| :: moves[k].Go?
    ensures |moves| <= Remaining(s)
    decreases |moves|
  {
    if moves != [] {
      var t := moves[0].t;
      RemainingAfter(s, t, AfterOp(s, t));
      assert forall k | 0 <= k < |moves| - 1 :: moves[1..][k] == moves[k + 1];
      NoScheduleIsLonger(Moved(s, moves[0]), moves[1..]);
    }
  }

  /** A map whose growth fails keeps the element's mutex. */
  lemma FailedGrowthLeaks(s: seq<Thread>, t: nat, e: nat)
    requires t < |s| && s[t] == Thread({}, []) && !Held(s, Pc) && !Held(s, Ce(e))
    ensures var moves := [Start(t, MapGrowFails(e))] + ([Go(t)] + ([Go(t)] + ([Go(t)] + [])));
            Goes(s, moves) && Final(s, moves) == s[t := Thread({Ce(e)}, [])]
  {
    var s1 := s[t := Thread({}, Program(MapGrowFails(e)))];
    var s2 := s[t := Thread({Pc}, [Acquire(Ce(e)), Release(Pc)])];
    var s3 := s[t := Thread({Pc, Ce(e)}, [Release(Pc)])];
    var s4 := s[t := Thread({Ce(e)}, [])];
    hide Goes, Final;
    NothingToDo(s4);
    LastRelease(s3, s4, t, e);
    Prepend(s3, Go(t), []);
    SecondAcquire(s2, s3, t, e);
    Prepend(s2, Go(t), [Go(t)] + []);
    FirstAcquire(s1, s2, t, e);
    Prepend(s1, Go(t), [Go(t)] + ([Go(t)] + []));
    Prepend(s, Start(t, MapGrowFails(e)), [Go(t)] + ([Go(t)] + ([Go(t)] + [])));
  }

  lemma NothingToDo(s: seq<Thread>)
    ensures Goes(s, []) && Final(s, []) == s
  {
  }

  lemma FirstAcquire(s: seq<Thread>, z: seq<Thread>, t: nat, e: nat)
    requires t < |s| && !Held(s, Pc) && s[t] == Thread({}, Program(MapGrowFails(e)))
    requires z == s[t := Thread({Pc}, [Acquire(Ce(e)), Release(Pc)])]
    ensures CanMove(s, Go(t)) && Moved(s, Go(t)) == z
  {
    assert {} + {Pc} == {Pc};
    assert s[t].rest[1..] == [Acquire(Ce(e)), Release(Pc)];
  }

  lemma SecondAcquire(s: seq<Thread>, z: seq<Thread>, t: nat, e: nat)
    requires t < |s| && !Held(s, Ce(e)) && s[t] == Thread({Pc}, [Acquire(Ce(e)), Release(Pc)])
    requires z == s[t := Thread({Pc, Ce(e)}, [Release(Pc)])]
    ensures CanMove(s, Go(t)) && Moved(s, Go(t)) == z
  {
    assert {Pc} + {Ce(e)} == {Pc, Ce(e)};
    assert s[t].rest[1..] == [Release(Pc)];
  }

  lemma LastRelease(s: seq<Thread>, z: seq<Thread>, t: nat, e: nat)
    requires t < |s| && s[t] == Thread({Pc, Ce(e)}, [Release(Pc)])
    requires z == s[t := Thread({Ce(e)}, [])]
    ensures CanMove(s, Go(t)) && Moved(s, Go(t)) == z
  {
    assert {Pc, Ce(e)} - {Pc} == {Ce(e)};
    assert s[t].rest[1..] == [];
  }

  /** Whoever then marks that element, the same thread included, waits for a thread that holds the
      element's mutex and is in no call that would release it. */
  lemma LeakBlocksMarks(s: seq<Thread>, t: nat, u: nat, e: nat)
    requires t < |s| && u < |s| && s[t] == Thread({Ce(e)}, []) && s[u].rest == []
    ensures CanMove(s, Start(u, MarkElement(e)))
    ensures WaitsFor(Moved(s, Start(u, MarkElement(e))), u, t)
    ensures !CanGo(Moved(s, Start(u, MarkElement(e))), u)
    ensures u != t ==> Moved(s, Start(u, MarkElement(e)))[t] == Thread({Ce(e)}, [])
  {
    var z := Moved(s, Start(u, MarkElement(e)));
    assert Ce(e) in z[t].held;
  }
}
