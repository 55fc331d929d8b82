/** The allocation tracker of fs/gc.c on the ring of fs/list.h. A node stands for its data pointer. */
module GcList {
  import opened Bytes
  import opened Ring

  /** An allocation as the tracker sees it. */
  datatype Alloc = Alloc(size: nat, marked: bool)

  /** The bytes of a list of allocations. */
  function Sum(c: seq<Alloc>): nat {
    if c == [] then 0 else Sum(c[..|c| - 1]) + c[|c| - 1].size
  }

  /** The elements of s whose flag is off, in order. */
  function Kept<T>(s: seq<T>, off: seq<bool>): (r: seq<T>)
    requires |s| == |off|
    ensures |r| <= |s|
    decreases |s|
  {
    if s == [] then []
    else
      var n := |s| - 1;
      Kept(s[..n], off[..n]) + if off[n] then [] else [s[n]]
  }

  function MarkFlags(c: seq<Alloc>): (f: seq<bool>)
    ensures |f| == |c|
  {
    seq(|c|, i requires 0 <= i < |c| => c[i].marked)
  }

  function ClearFlags(c: seq<Alloc>): (f: seq<bool>)
    ensures |f| == |c|
  {
    seq(|c|, i requires 0 <= i < |c| => !c[i].marked)
  }

  // ----- the tracker on values -----

  datatype Op = Malloc(size: nat, granted: bool) | Free(k: nat) | Mark(k: nat) | Sweep | Destroy

  predicate Enabled(c: seq<Alloc>, op: Op) {
    match op
    case Free(k) => k < |c|
    case Mark(k) => k < |c|
    case _ => true
  }

  function Apply(c: seq<Alloc>, op: Op): seq<Alloc>
    requires Enabled(c, op)
  {
    match op
    case Malloc(size, granted) => if granted then [Alloc(size % TWO_TO_THE_32, false)] + c else c
    case Free(k) => Without(c, k)
    case Mark(k) => c[k := c[k].(marked := true)]
    case Sweep => Kept(c, MarkFlags(c))
    case Destroy => []
  }

  /** The marked allocations. */
  function MarkedOnes(c: seq<Alloc>): seq<Alloc> {
    Kept(c, ClearFlags(c))
  }

  /** The bytes that an operation hands out and gives back. */
  function Taken(op: Op): nat {
    if op.Malloc? && op.granted then op.size % TWO_TO_THE_32 else 0
  }

  function Given(c: seq<Alloc>, op: Op): nat
    requires Enabled(c, op)
  {
    match op
    case Free(k) => c[k].size
    case Sweep => Sum(MarkedOnes(c))
    case Destroy => Sum(c)
    case _ => 0
  }

  lemma {:induction false} SumSplit(c: seq<Alloc>, d: seq<Alloc>)
    ensures Sum(c + d) == Sum(c) + Sum(d)
    decreases |d|
  {
    if d == [] {
      assert c + d == c;
    } else {
      SumSplit(c, d[..|d| - 1]);
      assert (c + d)[..|c + d| - 1] == c + d[..|d| - 1];
    }
  }

  lemma {:induction false} SweepConserves(c: seq<Alloc>)
    ensures Sum(c) == Sum(Kept(c, MarkFlags(c))) + Sum(MarkedOnes(c))
    decreases |c|
  {
    if c != [] {
      var n := |c| - 1;
      var last := [c[n]];
      SweepConserves(c[..n]);
      assert MarkFlags(c)[..n] == MarkFlags(c[..n]) && ClearFlags(c)[..n] == ClearFlags(c[..n]);
      SumSplit(Kept(c[..n], MarkFlags(c[..n])), last);
      SumSplit(MarkedOnes(c[..n]), last);
      SumOfOne(c[n]);
      if c[n].marked {
        assert MarkedOnes(c) == MarkedOnes(c[..n]) + last;
        assert Kept(c, MarkFlags(c)) == Kept(c[..n], MarkFlags(c[..n]));
      } else {
        assert MarkedOnes(c) == MarkedOnes(c[..n]);
        assert Kept(c, MarkFlags(c)) == Kept(c[..n], MarkFlags(c[..n])) + last;
      }
    }
  }

  /** One operation changes the tracked bytes by what it takes less what it gives back. */
  lemma StepConserves(c: seq<Alloc>, op: Op)
    requires Enabled(c, op)
    ensures Sum(Apply(c, op)) + Given(c, op) == Sum(c) + Taken(op)
  {
    hide Sum, Kept, MarkedOnes;
    match op {
      case Malloc(size, granted) =>
        if granted {
          var a := [Alloc(size % TWO_TO_THE_32, false)];
          SumSplit(a, c);
          SumOfOne(a[0]);
        }
      case Free(k) => SumWithout(c, k);
      case Mark(k) =>
        var d := c[k := c[k].(marked := true)];
        SumWithout(c, k);
        SumWithout(d, k);
        assert Without(c, k) == Without(d, k);
      case Sweep => SweepConserves(c);
      case Destroy => SumOfNone();
    }
  }

  lemma SumOfOne(a: Alloc)
    ensures Sum([a]) == a.size
  {
    assert [a][..0] == [];
  }

  lemma SumOfNone()
    ensures Sum([]) == 0
  {
  }

  lemma SumOfPrefix(c: seq<Alloc>, k: nat)
    requires k < |c|
    ensures Sum(c[..k + 1]) == Sum(c[..k]) + c[k].size
    ensures Sum(c[..k + 1]) % TWO_TO_THE_64 == (Sum(c[..k]) % TWO_TO_THE_64 + c[k].size) % TWO_TO_THE_64
  {
    assert c[..k + 1][..k] == c[..k];
    WrappedSum(Sum(c[..k]), c[k].size);
  }

  lemma WrappedSum(a: nat, b: nat)
    ensures (a % TWO_TO_THE_64 + b) % TWO_TO_THE_64 == (a + b) % TWO_TO_THE_64
  {
  }

  lemma SumWithout(c: seq<Alloc>, k: nat)
    requires k < |c|
    ensures Sum(c) == Sum(Without(c, k)) + c[k].size
  {
    hide Sum;
    assert c == c[..k] + [c[k]] + c[k + 1..];
    SumSplit(c[..k] + [c[k]], c[k + 1..]);
    SumSplit(c[..k], [c[k]]);
    SumSplit(c[..k], c[k + 1..]);
    SumOfOne(c[k]);
  }

  ghost predicate Runs(c: seq<Alloc>, ops: seq<Op>)
    decreases |ops|
  {
    ops == [] || (Enabled(c, ops[0]) && Runs(Apply(c, ops[0]), ops[1..]))
  }

  function After(c: seq<Alloc>, ops: seq<Op>): seq<Alloc>
    requires Runs(c, ops)
    decreases |ops|
  {
    if ops == [] then c else After(Apply(c, ops[0]), ops[1..])
  }

  function TotalTaken(ops: seq<Op>): nat {
    if ops == [] then 0 else Taken(ops[0]) + TotalTaken(ops[1..])
  }

  function TotalGiven(c: seq<Alloc>, ops: seq<Op>): nat
    requires Runs(c, ops)
    decreases |ops|
  {
    if ops == [] then 0 else Given(c, ops[0]) + TotalGiven(Apply(c, ops[0]), ops[1..])
  }

  /** Over any run, the bytes tracked at the end are those at the start, plus all bytes handed out,
      less all bytes given back. */
  lemma {:induction false} RunConserves(c: seq<Alloc>, ops: seq<Op>)
    requires Runs(c, ops)
    ensures Sum(After(c, ops)) + TotalGiven(c, ops) == Sum(c) + TotalTaken(ops)
    decreases |ops|
  {
    if ops != [] {
      StepConserves(c, ops[0]);
      RunConserves(Apply(c, ops[0]), ops[1..]);
    }
  }

  /** The number of flags that are off before position i. */
  function Rank(off: seq<bool>, i: nat): nat
    requires i <= |off|
  {
    if i == 0 then 0 else Rank(off, i - 1) + (if off[i - 1] then 0 else 1)
  }

  lemma {:induction false} RankOfPrefix(off: seq<bool>, n: nat, i: nat)
    requires i <= n <= |off|
    ensures Rank(off[..n], i) == Rank(off, i)
  {
    if i > 0 {
      RankOfPrefix(off, n, i - 1);
    }
  }

  /** Sweeping keeps exactly the unmarked elements, in their order: the one at i ends up at the
      position given by the number of unmarked elements before it, and there are no others. */
  lemma {:induction false} KeptInOrder<T>(s: seq<T>, off: seq<bool>, i: nat)
    requires |s| == |off| && i < |s|
    ensures |Kept(s, off)| == Rank(off, |s|)
    ensures !off[i] ==> Rank(off, i) < |Kept(s, off)| && Kept(s, off)[Rank(off, i)] == s[i]
    decreases |s|
  {
    var n := |s| - 1;
    RankOfPrefix(off, n, n);
    if i < n {
      KeptInOrder(s[..n], off[..n], i);
      RankOfPrefix(off, n, i);
    } else if n > 0 {
      KeptInOrder(s[..n], off[..n], 0);
    }
  }

  /** Parallel sequences stay parallel. */
  lemma {:induction false} KeptPairs<T, U>(s: seq<T>, t: seq<U>, off: seq<bool>)
    requires |s| == |t| == |off|
    ensures |Kept(s, off)| == |Kept(t, off)|
    ensures forall j | 0 <= j < |Kept(s, off)| ::
              exists i | 0 <= i < |s| :: Kept(s, off)[j] == s[i] && Kept(t, off)[j] == t[i]
    decreases |s|
  {
    if s != [] {
      var n := |s| - 1;
      KeptPairs(s[..n], t[..n], off[..n]);
      var ks, kt := Kept(s, off), Kept(t, off);
      forall j | 0 <= j < |ks|
        ensures exists i | 0 <= i < |s| :: ks[j] == s[i] && kt[j] == t[i]
      {
        if j < |Kept(s[..n], off[..n])| {
          var i :| 0 <= i < n && Kept(s[..n], off[..n])[j] == s[..n][i] && Kept(t[..n], off[..n])[j] == t[..n][i];
          assert ks[j] == s[i] && kt[j] == t[i];
        } else {
          assert ks[j] == s[n] && kt[j] == t[n];
        }
      }
    }
  }

  // ----- the code -----

  lemma KeptStep<T>(s: seq<T>, off: seq<bool>, k: nat)
    requires k < |s| == |off|
    ensures Kept(s[..k + 1], off[..k + 1]) == Kept(s[..k], off[..k]) + if off[k] then [] else [s[k]]
  {
    assert s[..k + 1][..k] == s[..k] && off[..k + 1][..k] == off[..k];
  }

  lemma RemoveAtSplit<T>(kept: seq<T>, s: seq<T>, k: nat)
    requires k < |s|
    ensures Without(kept + s[k..], |kept|) == kept + s[k + 1..]
    ensures kept + s[k..] == (kept + [s[k]]) + s[k + 1..]
  {
  }

  class GcList {
    const head: Node
    /** The tracked allocations, newest first. */
    ghost var nodes: seq<Node>
    /** The allocated and not yet freed heap nodes. */
    ghost var live: set<Node>

    ghost predicate Valid()
      reads this, head, nodes
    {
      && Linked(head, nodes)
      && (forall x | x in live :: x in nodes) && (forall x | x in nodes :: x in live)
    }

    ghost function Contents(): (c: seq<Alloc>)
      reads this, nodes
      ensures |c| == |nodes|
    {
      seq(|nodes|, i requires 0 <= i < |nodes| reads this, nodes => Alloc(nodes[i].size, nodes[i].mark == 1))
    }

    /** gc_list_init */
    constructor ()
      ensures Valid() && nodes == [] && fresh(head)
    {
      head := new Node(0);
      nodes := [];
      live := {};
    }

    /** Reads a next pointer; only the head and nodes that are still allocated may be read. */
    method Follow(pos: Node) returns (n: Node)
      requires pos == head || pos in live
      ensures n == pos.next
    {
      n := pos.next;
    }

    /** Reads an allocation's size; only a node that is still allocated has one. */
    method SizeOf(pos: Node) returns (size: nat)
      requires pos in live
      ensures size == pos.size
    {
      size := pos.size;
    }

    /** Reads an allocation's mark; only a node that is still allocated has one. */
    method MarkOf(pos: Node) returns (mark: nat)
      requires pos in live
      ensures mark == pos.mark
    {
      mark := pos.mark;
    }

    /** gc_malloc; granted says whether malloc finds memory. */
    method GcMalloc(size: nat, granted: bool) returns (data: Node?)
      requires Valid()
      modifies this`nodes, this`live, head`next, head.next`prev
      ensures Valid()
      ensures if granted then data != null && fresh(data) && nodes == [data] + old(nodes)
              else data == null && nodes == old(nodes)
      ensures Contents() == Apply(old(Contents()), Malloc(size, granted))
    {
      if !granted {
        return null;
      }
      var node := new Node(size % TWO_TO_THE_32);
      ListAdd(node, head, nodes);
      nodes := [node] + nodes;
      live := live + {node};
      return node;
    }

    /** gc_free of the allocation at position k */
    method GcFree(node: Node, ghost k: nat)
      requires Valid() && k < |nodes| && nodes[k] == node
      modifies this`nodes, this`live, node.next`prev, node.prev`next
      ensures Valid()
      ensures nodes == Without(old(nodes), k) && live == old(live) - {node}
      ensures Contents() == Apply(old(Contents()), Free(k))
    {
      ghost var c := Contents();
      ListDel(node, head, nodes, k);
      nodes := Without(nodes, k);
      live := live - {node};
      assert Contents() == Without(c, k);
    }

    /** gc_mark */
    method GcMark(node: Node, ghost k: nat)
      requires Valid() && k < |nodes| && nodes[k] == node
      modifies node`mark
      ensures Valid()
      ensures Contents() == Apply(old(Contents()), Mark(k))
      ensures Contents() == old(Contents())[k := Alloc(old(Contents())[k].size, true)]
    {
      node.mark := 1;
    }

    method GcListTotalMem() returns (size: nat)
      requires Valid()
      ensures size == Sum(Contents()) % TWO_TO_THE_64
    {
      size := 0;
      ghost var k := 0;
      ghost var c := Contents();
      SumOfNone();
      hide Sum;
      assert Entry(head, nodes, 0).next == Entry(head, nodes, 1);
      var pos := Follow(head);
      var n := Follow(pos);
      while pos != head
        invariant k <= |nodes| && pos == Entry(head, nodes, k + 1) && n == pos.next
        invariant size == Sum(c[..k]) % TWO_TO_THE_64
        decreases |nodes| - k
      {
        SumOfPrefix(c, k);
        assert Entry(head, nodes, k + 1).next == Entry(head, nodes, k + 2);
        var bytes := SizeOf(pos);
        assert bytes == c[k].size;
        size := (size + bytes) % TWO_TO_THE_64;
        pos := n;
        n := Follow(pos);
        k := k + 1;
      }
      assert c[..k] == c;
    }

    /** gc_sweep has visited the first k of the nodes it started with and stands at pos. */
    ghost predicate Sweeping(before: seq<Node>, marks: seq<bool>, k: nat, pos: Node)
      reads this, head, nodes, before
    {
      && Valid() && k <= |before| == |marks|
      && nodes == Kept(before[..k], marks[..k]) + before[k..]
      && pos == Entry(head, nodes, |Kept(before[..k], marks[..k])| + 1)
      && (forall x | x in nodes :: x in before)
      && (forall i | 0 <= i < |before| :: (before[i].mark == 1) == marks[i])
    }

    lemma SweepPosition(before: seq<Node>, marks: seq<bool>, k: nat, pos: Node)
      requires Sweeping(before, marks, k, pos)
      ensures pos == head <==> k == |before|
      ensures pos != head ==>
                && pos == before[k] && pos in live
                && (pos.next == head || pos.next in before) && (pos.prev == head || pos.prev in before)
    {
      var kept := Kept(before[..k], marks[..k]);
      EntryIsHead(head, nodes, |kept|);
      if k < |before| {
        assert nodes[|kept|] == before[k];
        Neighbours(head, nodes, |kept|);
      }
    }

    lemma SweepStarts(pos: Node)
      requires Valid() && pos == head.next
      ensures Sweeping(nodes, MarkFlags(Contents()), 0, pos)
    {
      assert Entry(head, nodes, 0).next == Entry(head, nodes, 1);
      assert nodes == [] + nodes[0..];
    }

    lemma SweepEnds(before: seq<Node>, marks: seq<bool>, pos: Node)
      requires Sweeping(before, marks, |before|, pos)
      ensures Valid() && nodes == Kept(before, marks)
    {
      assert before[..|before|] == before && marks[..|before|] == marks;
    }

    lemma SweepKeeps(before: seq<Node>, marks: seq<bool>, k: nat, pos: Node)
      requires Sweeping(before, marks, k, pos) && k < |before| && pos.mark != 1
      ensures Sweeping(before, marks, k + 1, pos.next)
    {
      hide Kept, Without, Linked;
      var kept := Kept(before[..k], marks[..k]);
      KeptStep(before, marks, k);
      RemoveAtSplit(kept, before, k);
      assert pos == before[k] == nodes[|kept|];
      Neighbours(head, nodes, |kept|);
    }

    /** What the visit of a marked node finds, and what is left to do once it is unlinked. */
    lemma SweepBeforeFree(before: seq<Node>, marks: seq<bool>, k: nat, pos: Node)
      requires Sweeping(before, marks, k, pos) && k < |before| && pos.mark == 1
      ensures var kept := Kept(before[..k], marks[..k]);
              && Valid() && |kept| < |nodes| && nodes[|kept|] == pos
              && pos.next == Entry(head, nodes, |kept| + 2)
              && Without(nodes, |kept|) == Kept(before[..k + 1], marks[..k + 1]) + before[k + 1..]
              && |Kept(before[..k + 1], marks[..k + 1])| == |kept|
              && (forall x | x in nodes :: x in before)
    {
      hide Kept, Without, Linked;
      var kept := Kept(before[..k], marks[..k]);
      KeptStep(before, marks, k);
      RemoveAtSplit(kept, before, k);
      assert pos == before[k] == nodes[|kept|];
      Neighbours(head, nodes, |kept|);
    }

    method SweepFrees(pos: Node, ghost before: seq<Node>, ghost marks: seq<bool>, ghost k: nat)
      requires Sweeping(before, marks, k, pos) && k < |before| && pos.mark == 1
      modifies this`nodes, this`live, pos.next`prev, pos.prev`next
      ensures Sweeping(before, marks, k + 1, old(pos.next))
    {
      SweepBeforeFree(before, marks, k, pos);
      hide Valid, Kept, Without;
      ghost var kept := Kept(before[..k], marks[..k]);
      ghost var was := nodes;
      ghost var next := pos.next;
      GcFree(pos, |kept|);
      EntryOfWithout(head, was, |kept|);
    }

    /** The body of gc_sweep's loop: a marked node is freed, and the node whose address was read
        beforehand is the next one to visit. */
    method SweepVisit(pos: Node, next: Node, ghost before: seq<Node>, ghost marks: seq<bool>, ghost k: nat)
      requires Sweeping(before, marks, k, pos) && k < |before| && next == pos.next
      modifies this`nodes, this`live, pos.next`prev, pos.prev`next
      ensures Sweeping(before, marks, k + 1, next)
    {
      SweepPosition(before, marks, k, pos);
      hide Sweeping;
      var mark := MarkOf(pos);
      if mark == 1 {
        SweepFrees(pos, before, marks, k);
      } else {
        SweepKeeps(before, marks, k, pos);
      }
    }

    /** gc_sweep, with the node taken to be the list entry itself */
    method GcSweep()
      requires Valid()
      modifies this`nodes, this`live, head`next, head`prev, nodes`next, nodes`prev
      ensures Valid()
      ensures nodes == Kept(old(nodes), MarkFlags(old(Contents())))
      ensures Contents() == Apply(old(Contents()), Op.Sweep)
    {
      hide Sweeping, Valid, Kept, MarkFlags;
      ghost var before, contents, marks := nodes, Contents(), MarkFlags(Contents());
      ghost var k := 0;
      var pos := Follow(head);
      SweepStarts(pos);
      SweepPosition(before, marks, k, pos);
      var n := Follow(pos);
      while pos != head
        invariant |before| == |marks|
        invariant Sweeping(before, marks, k, pos) && n == pos.next
        invariant k <= |before|
        decreases |before| - k
      {
        SweepPosition(before, marks, k, pos);
        SweepVisit(pos, n, before, marks, k);
        pos := n;
        k := k + 1;
        SweepPosition(before, marks, k, pos);
        n := Follow(pos);
      }
      SweepPosition(before, marks, k, pos);
      SweepEnds(before, marks, pos);
      KeptPairs(before, contents, marks);
      assert Contents() == Kept(contents, marks);
    }

    /** gc_list_destroy: every node is freed, none is read after it was freed. */
    method GcListDestroy()
      requires Valid()
      modifies this`nodes, this`live, head
      ensures Valid() && nodes == [] && live == {}
      ensures Contents() == Apply(old(Contents()), Op.Destroy)
    {
      ghost var k := 0;
      assert Entry(head, nodes, 0).next == Entry(head, nodes, 1);
      var pos := Follow(head);
      var n := Follow(pos);
      while pos != head
        invariant k <= |nodes|
        invariant (forall x | x in live :: x in nodes[k..]) && (forall x | x in nodes[k..] :: x in live)
        invariant pos == Entry(head, nodes, k + 1) && n == pos.next
        decreases |nodes| - k
        modifies this`live
      {
        assert Entry(head, nodes, k + 1).next == Entry(head, nodes, k + 2);
        live := live - {pos};
        k := k + 1;
        pos := n;
        n := Follow(pos);
      }
      head.next := head;
      head.prev := head;
      nodes := [];
    }
  }
}
