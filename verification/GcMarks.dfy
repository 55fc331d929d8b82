/** What gc_mark and gc_sweep of fs/gc.c come to over whole runs: a sweep takes exactly the allocations
    that were marked since they were made. */
module GcMarks {
  import opened Bytes
  import opened GcList
  import opened Ring

  // ----- runs by their last step -----

  lemma {:induction false} RunsOn(c: seq<Alloc>, ops: seq<Op>, op: Op)
    ensures Runs(c, ops + [op]) <==> Runs(c, ops) && Enabled(After(c, ops), op)
    ensures Runs(c, ops + [op]) ==> After(c, ops + [op]) == Apply(After(c, ops), op)
    decreases |ops|
  {
    if ops == [] {
      assert ([] + [op])[1..] == [];
    } else {
      assert (ops + [op])[1..] == ops[1..] + [op];
      if Enabled(c, ops[0]) {
        RunsOn(Apply(c, ops[0]), ops[1..], op);
      }
    }
  }

  lemma LastStep(c: seq<Alloc>, ops: seq<Op>)
    requires Runs(c, ops) && ops != []
    ensures var n := |ops| - 1;
            && Runs(c, ops[..n]) && Enabled(After(c, ops[..n]), ops[n])
            && After(c, ops) == Apply(After(c, ops[..n]), ops[n])
  {
    var n := |ops| - 1;
    assert ops == ops[..n] + [ops[n]];
    RunsOn(c, ops[..n], ops[n]);
  }

  // ----- which allocation is which -----

  /** For each tracked allocation, newest first, the step of the run that made it. */
  function Births(ops: seq<Op>): (b: seq<nat>)
    requires Runs([], ops)
    ensures |b| == |After([], ops)|
    decreases |ops|
  {
    if ops == [] then []
    else
      var n := |ops| - 1;
      LastStep([], ops);
      BirthsAfter(After([], ops[..n]), Births(ops[..n]), n, ops[n])
  }

  function BirthsAfter(c: seq<Alloc>, b: seq<nat>, n: nat, op: Op): (b': seq<nat>)
    requires |b| == |c| && Enabled(c, op)
    ensures |b'| == |Apply(c, op)|
  {
    match op
    case Malloc(size, granted) => if granted then [n] + b else b
    case Free(k) => Without(b, k)
    case Mark(k) => b
    case Sweep =>
      KeptPairs(b, c, MarkFlags(c));
      Kept(b, MarkFlags(c))
    case Destroy => []
  }

  /** Step m of the run marks the allocation that step t made. */
  ghost predicate Marks(ops: seq<Op>, m: nat, t: nat) {
    && m < |ops| && ops[m].Mark?
    && Runs([], ops[..m])
    && ops[m].k < |Births(ops[..m])| && Births(ops[..m])[ops[m].k] == t
  }

  ghost predicate MarkedSince(ops: seq<Op>, t: nat) {
    exists m: nat | t < m < |ops| :: Marks(ops, m, t)
  }

  lemma MarkedSinceByLast(ops: seq<Op>, t: nat)
    requires ops != []
    ensures var n := |ops| - 1;
            MarkedSince(ops, t) <==> MarkedSince(ops[..n], t) || (t < n && Marks(ops, n, t))
  {
    var n := |ops| - 1;
    hide Births;
    assert forall m: nat | m < n :: ops[..n][..m] == ops[..m];
    assert forall m: nat | m < n :: Marks(ops[..n], m, t) == Marks(ops, m, t);
  }

  // ----- allocations keep their order -----

  ghost predicate Decreasing(b: seq<nat>, bound: nat) {
    && (forall i | 0 <= i < |b| :: b[i] < bound)
    && (forall i, j | 0 <= i < j < |b| :: b[i] > b[j])
  }

  lemma {:induction false} KeptIsDecreasing(b: seq<nat>, off: seq<bool>, bound: nat)
    requires |b| == |off| && Decreasing(b, bound)
    ensures Decreasing(Kept(b, off), bound)
    ensures forall x | x in Kept(b, off) :: x in b
    decreases |b|
  {
    if b != [] {
      var n := |b| - 1;
      KeptIsDecreasing(b[..n], off[..n], bound);
      forall x | x in Kept(b[..n], off[..n])
        ensures x in b && x > b[n]
      {
        var i :| 0 <= i < n && b[..n][i] == x;
        assert b[i] == x;
      }
      OneMoreDecreases(Kept(b[..n], off[..n]), b[n], bound);
    }
  }

  lemma OneMoreDecreases(b: seq<nat>, x: nat, bound: nat)
    requires Decreasing(b, bound) && x < bound && forall y | y in b :: y > x
    ensures Decreasing(b + [x], bound)
  {
    forall i, j | 0 <= i < j < |b| + 1
      ensures (b + [x])[i] > (b + [x])[j]
    {
      assert b[i] in b;
    }
  }

  lemma WithoutIsDecreasing(b: seq<nat>, k: nat, bound: nat)
    requires k < |b| && Decreasing(b, bound)
    ensures Decreasing(Without(b, k), bound)
  {
  }

  lemma {:induction false} BirthsDecrease(ops: seq<Op>)
    requires Runs([], ops)
    ensures Decreasing(Births(ops), |ops|)
    decreases |ops|
  {
    if ops != [] {
      var n := |ops| - 1;
      LastStep([], ops);
      BirthsDecrease(ops[..n]);
      var b := Births(ops[..n]);
      if ops[n].Free? {
        WithoutIsDecreasing(b, ops[n].k, n);
      } else if ops[n].Sweep? {
        KeptIsDecreasing(b, MarkFlags(After([], ops[..n])), n);
      }
    }
  }

  // ----- marks -----

  /** What the tracker knows of an allocation: its size, and whether it was marked since it was made. */
  ghost predicate Remembered(ops: seq<Op>, a: Alloc, t: nat) {
    && t < |ops| && ops[t].Malloc? && ops[t].granted
    && a.size == ops[t].size % TWO_TO_THE_32
    && (a.marked <==> MarkedSince(ops, t))
  }

  lemma StillRemembered(ops: seq<Op>, a: Alloc, t: nat)
    requires ops != [] && Remembered(ops[..|ops| - 1], a, t) && !Marks(ops, |ops| - 1, t)
    ensures Remembered(ops, a, t)
  {
    hide MarkedSince, Marks;
    MarkedSinceByLast(ops, t);
  }

  /** Where an allocation was before a step, unless that step made or marked it. */
  lemma Origin(c: seq<Alloc>, b: seq<nat>, n: nat, op: Op, i: nat) returns (j: nat)
    requires |b| == |c| && Enabled(c, op) && i < |Apply(c, op)|
    requires !op.Mark? && (op.Malloc? && op.granted ==> i > 0)
    ensures j < |c| && Apply(c, op)[i] == c[j] && BirthsAfter(c, b, n, op)[i] == b[j]
  {
    hide Kept, MarkFlags;
    match op {
      case Malloc(size, granted) => j := if granted then i - 1 else i;
      case Free(k) => j := if i < k then i else i + 1;
      case Sweep => j := KeptOrigin(c, b, i);
    }
  }

  lemma KeptOrigin(c: seq<Alloc>, b: seq<nat>, i: nat) returns (j: nat)
    requires |b| == |c| && i < |Kept(c, MarkFlags(c))|
    ensures j < |c| && |Kept(b, MarkFlags(c))| == |Kept(c, MarkFlags(c))|
    ensures Kept(b, MarkFlags(c))[i] == b[j] && Kept(c, MarkFlags(c))[i] == c[j]
  {
    hide Kept, MarkFlags;
    KeptPairs(b, c, MarkFlags(c));
    j :| 0 <= j < |b| && Kept(b, MarkFlags(c))[i] == b[j] && Kept(c, MarkFlags(c))[i] == c[j];
  }

  lemma {:induction false} MarksAreRemembered(ops: seq<Op>, i: nat)
    requires Runs([], ops) && i < |Births(ops)|
    ensures Remembered(ops, After([], ops)[i], Births(ops)[i])
    decreases |ops|
  {
    hide MarkedSince, Remembered;
    var n := |ops| - 1;
    LastStep([], ops);
    if ops[n].Malloc? && ops[n].granted && i == 0 {
      NewIsUnmarked(ops, After([], ops)[i]);
    } else if ops[n].Mark? {
      MarksAreRemembered(ops[..n], i);
      MarkingStep(ops, i);
    } else {
      var j := Origin(After([], ops[..n]), Births(ops[..n]), n, ops[n], i);
      MarksAreRemembered(ops[..n], j);
      StillRemembered(ops, After([], ops[..n])[j], Births(ops[..n])[j]);
    }
  }

  lemma MarkingStep(ops: seq<Op>, i: nat)
    requires Runs([], ops) && ops != [] && ops[|ops| - 1].Mark? && i < |Births(ops)|
    requires Runs([], ops[..|ops| - 1]) && i < |Births(ops[..|ops| - 1])|
    requires Remembered(ops[..|ops| - 1], After([], ops[..|ops| - 1])[i], Births(ops[..|ops| - 1])[i])
    ensures Remembered(ops, After([], ops)[i], Births(ops)[i])
  {
    hide MarkedSince, Remembered;
    var n := |ops| - 1;
    LastStep([], ops);
    var before, b := After([], ops[..n]), Births(ops[..n]);
    if i == ops[n].k {
      NowMarked(ops, before[i], b[i]);
    } else {
      BirthsDecrease(ops[..n]);
      StillRemembered(ops, before[i], b[i]);
    }
  }

  lemma NewIsUnmarked(ops: seq<Op>, a: Alloc)
    requires ops != [] && ops[|ops| - 1].Malloc? && ops[|ops| - 1].granted
    requires a == Alloc(ops[|ops| - 1].size % TWO_TO_THE_32, false)
    ensures Remembered(ops, a, |ops| - 1)
  {
  }

  lemma NowMarked(ops: seq<Op>, a: Alloc, t: nat)
    requires ops != [] && Remembered(ops[..|ops| - 1], a, t) && Marks(ops, |ops| - 1, t)
    ensures Remembered(ops, a.(marked := true), t)
  {
    hide MarkedSince, Marks;
    MarkedSinceByLast(ops, t);
  }

  // ----- sweeps -----

  lemma {:induction false} KeptMembers(b: seq<nat>, off: seq<bool>, bound: nat, i: nat)
    requires |b| == |off| && Decreasing(b, bound) && i < |b|
    ensures b[i] in Kept(b, off) <==> !off[i]
    decreases |b|
  {
    var n := |b| - 1;
    KeptIsDecreasing(b[..n], off[..n], bound);
    if i < n {
      KeptMembers(b[..n], off[..n], bound, i);
    }
  }

  /** Of the allocations that are tracked, a sweep takes exactly those marked since they were made. */
  lemma SweepTakesTheMarked(ops: seq<Op>, t: nat)
    requires Runs([], ops) && t in Births(ops)
    ensures Runs([], ops + [Sweep])
    ensures t !in Births(ops + [Sweep]) <==> MarkedSince(ops, t)
  {
    hide MarkedSince;
    RunsOn([], ops, Sweep);
    assert (ops + [Sweep])[..|ops|] == ops;
    var i :| 0 <= i < |Births(ops)| && Births(ops)[i] == t;
    MarksAreRemembered(ops, i);
    BirthsDecrease(ops);
    KeptMembers(Births(ops), MarkFlags(After([], ops)), |ops|, i);
  }

  ghost predicate NoneMarked(c: seq<Alloc>) {
    forall a | a in c :: !a.marked
  }

  lemma {:induction false} SweepOfUnmarked(c: seq<Alloc>)
    requires NoneMarked(c)
    ensures Apply(c, Sweep) == c
    decreases |c|
  {
    if c != [] {
      var n := |c| - 1;
      SweepOfUnmarked(c[..n]);
      assert MarkFlags(c)[..n] == MarkFlags(c[..n]);
      assert !c[n].marked && c == c[..n] + [c[n]];
    }
  }

  /** A run without marks loses nothing to a sweep. */
  lemma UnmarkedRunSurvives(ops: seq<Op>)
    requires Runs([], ops) && forall op | op in ops :: !op.Mark?
    ensures Runs([], ops + [Sweep]) && After([], ops + [Sweep]) == After([], ops)
  {
    RunsOn([], ops, Sweep);
    forall i | 0 <= i < |After([], ops)|
      ensures !After([], ops)[i].marked
    {
      MarksAreRemembered(ops, i);
    }
    SweepOfUnmarked(After([], ops));
  }

  /** Marking one allocation of an unmarked list and sweeping takes that one alone. */
  lemma {:induction false} MarkThenSweep(c: seq<Alloc>, k: nat)
    requires NoneMarked(c) && k < |c|
    ensures Apply(Apply(c, Mark(k)), Sweep) == Without(c, k)
    decreases |c|
  {
    var n := |c| - 1;
    var d := Apply(c, Mark(k));
    assert MarkFlags(d)[..n] == MarkFlags(d[..n]);
    assert c == c[..n] + [c[n]];
    if k == n {
      assert d[..n] == c[..n];
      SweepOfUnmarked(c[..n]);
    } else {
      assert d[..n] == Apply(c[..n], Mark(k));
      MarkThenSweep(c[..n], k);
      assert d[n] == c[n] && !c[n].marked;
      assert Without(c, k) == Without(c[..n], k) + [c[n]];
    }
  }
}
