/** The intrusive circular doubly-linked list of fs/list.h. */
module Ring {

  /** A list entry together with the allocation header it is embedded in (gc_node_t). */
  class Node {
    var next: Node
    var prev: Node
    var size: nat
    var mark: nat

    /** An entry that is a ring of its own, as INIT_LIST_HEAD leaves it. */
    constructor (size: nat)
      ensures next == this && prev == this && this.size == size && mark == 0
    {
      next := this;
      prev := this;
      this.size := size;
      mark := 0;
    }
  }

  /** Entry i of the ring that starts at head: head itself, the nodes, and head again. */
  function Entry(head: Node, nodes: seq<Node>, i: nat): Node
    requires i <= |nodes| + 1
  {
    if 1 <= i <= |nodes| then nodes[i - 1] else head
  }

  lemma EntriesDiffer(head: Node, nodes: seq<Node>)
    requires Distinct(head, nodes)
    ensures forall i, j | 0 <= i < j <= |nodes| :: Entry(head, nodes, i) != Entry(head, nodes, j)
    ensures forall i, j | 0 < i < j <= |nodes| + 1 :: Entry(head, nodes, i) != Entry(head, nodes, j)
  {
  }

  ghost predicate Distinct(head: Node, nodes: seq<Node>) {
    && head !in nodes
    && forall i, j | 0 <= i < j < |nodes| :: nodes[i] != nodes[j]
  }

  /** next and prev form one circle through head and, in order, the nodes. */
  ghost predicate Linked(head: Node, nodes: seq<Node>)
    reads head, nodes
  {
    && Distinct(head, nodes)
    && (forall i | 0 <= i <= |nodes| :: Entry(head, nodes, i).next == Entry(head, nodes, i + 1))
    && (forall i | 0 <= i <= |nodes| :: Entry(head, nodes, i + 1).prev == Entry(head, nodes, i))
  }

  lemma EntryIsHead(head: Node, nodes: seq<Node>, i: nat)
    requires Linked(head, nodes) && i <= |nodes|
    ensures Entry(head, nodes, i + 1) == head <==> i == |nodes|
  {
  }

  lemma Neighbours(head: Node, nodes: seq<Node>, k: nat)
    requires Linked(head, nodes) && k < |nodes|
    ensures nodes[k].next == Entry(head, nodes, k + 2) && nodes[k].prev == Entry(head, nodes, k)
    ensures nodes[k].next == head || nodes[k].next in nodes
    ensures nodes[k].prev == head || nodes[k].prev in nodes
  {
    assert nodes[k] == Entry(head, nodes, k + 1);
  }

  method ListEmpty(list: Node, ghost nodes: seq<Node>) returns (empty: bool)
    requires Linked(list, nodes)
    ensures empty <==> nodes == []
  {
    empty := list.next == list;
    assert Entry(list, nodes, 0).next == Entry(list, nodes, 1);
  }

  method ListAdd(newEntry: Node, head: Node, ghost nodes: seq<Node>)
    requires Linked(head, nodes) && newEntry != head && newEntry !in nodes
    modifies newEntry`next, newEntry`prev, head`next, head.next`prev
    ensures Linked(head, [newEntry] + nodes)
  {
    assert Entry(head, nodes, 0).next == Entry(head, nodes, 1);
    newEntry.next := head.next;
    newEntry.prev := head;
    head.next.prev := newEntry;
    head.next := newEntry;
    ghost var r := [newEntry] + nodes;
    forall i | 0 <= i <= |r|
      ensures Entry(head, r, i).next == Entry(head, r, i + 1)
      ensures Entry(head, r, i + 1).prev == Entry(head, r, i)
    {
      if i > 0 {
        assert Entry(head, r, i + 1) == Entry(head, nodes, i);
      }
      if i > 1 {
        assert Entry(head, r, i) == Entry(head, nodes, i - 1);
      }
    }
  }

  method ListAddTail(newEntry: Node, head: Node, ghost nodes: seq<Node>)
    requires Linked(head, nodes) && newEntry != head && newEntry !in nodes
    modifies newEntry`next, newEntry`prev, head`prev, head.prev`next
    ensures Linked(head, nodes + [newEntry])
  {
    assert Entry(head, nodes, |nodes| + 1).prev == Entry(head, nodes, |nodes|);
    newEntry.next := head;
    newEntry.prev := head.prev;
    head.prev.next := newEntry;
    head.prev := newEntry;
    ghost var r := nodes + [newEntry];
    forall i | 0 <= i <= |r|
      ensures Entry(head, r, i).next == Entry(head, r, i + 1)
      ensures Entry(head, r, i + 1).prev == Entry(head, r, i)
    {
      if i <= |nodes| {
        assert Entry(head, r, i) == Entry(head, nodes, i);
      }
      if i < |nodes| {
        assert Entry(head, r, i + 1) == Entry(head, nodes, i + 1);
      }
    }
  }

  /** nodes without the one at position k. */
  function Without<T>(nodes: seq<T>, k: nat): seq<T>
    requires k < |nodes|
  {
    nodes[..k] + nodes[k + 1..]
  }

  lemma EntryOfWithout(head: Node, nodes: seq<Node>, k: nat)
    requires k < |nodes|
    ensures Entry(head, Without(nodes, k), k + 1) == Entry(head, nodes, k + 2)
  {
  }

  method ListDel(entry: Node, ghost head: Node, ghost nodes: seq<Node>, ghost k: nat)
    requires Linked(head, nodes) && k < |nodes| && nodes[k] == entry
    modifies entry.next`prev, entry.prev`next
    ensures Linked(head, Without(nodes, k))
  {
    assert Entry(head, nodes, k + 1) == entry;
    assert entry.prev == Entry(head, nodes, k) && entry.next == Entry(head, nodes, k + 2);
    EntriesDiffer(head, nodes);
    entry.next.prev := entry.prev;
    entry.prev.next := entry.next;
    ghost var r := Without(nodes, k);
    forall i | 0 <= i <= |r|
      ensures Entry(head, r, i).next == Entry(head, r, i + 1)
      ensures Entry(head, r, i + 1).prev == Entry(head, r, i)
    {
      var from := if i <= k then i else i + 1;
      var to := if i < k then i + 1 else i + 2;
      assert Entry(head, r, i) == Entry(head, nodes, from);
      assert Entry(head, r, i + 1) == Entry(head, nodes, to);
    }
  }

  /** Moves a non-empty list to a new head and leaves an empty one alone. */
  method ListReparent(list: Node, newEntry: Node, ghost nodes: seq<Node>)
    requires Linked(list, nodes) && newEntry != list && newEntry !in nodes
    modifies newEntry`next, newEntry`prev, list.next`prev, list.prev`next
    ensures nodes != [] ==> Linked(newEntry, nodes)
    ensures nodes == [] ==> newEntry.next == old(newEntry.next) && newEntry.prev == old(newEntry.prev) && Linked(list, [])
  {
    assert Entry(list, nodes, 0).next == Entry(list, nodes, 1);
    assert Entry(list, nodes, |nodes| + 1).prev == Entry(list, nodes, |nodes|);
    if list.next == list {
      return;
    }
    newEntry.next := list.next;
    newEntry.prev := list.prev;
    newEntry.prev.next := newEntry;
    newEntry.next.prev := newEntry;
    forall i | 0 <= i <= |nodes|
      ensures Entry(newEntry, nodes, i).next == Entry(newEntry, nodes, i + 1)
      ensures Entry(newEntry, nodes, i + 1).prev == Entry(newEntry, nodes, i)
    {
      if 0 < i {
        assert Entry(newEntry, nodes, i) == Entry(list, nodes, i);
      }
      if i < |nodes| {
        assert Entry(newEntry, nodes, i + 1) == Entry(list, nodes, i + 1);
      }
    }
  }
}
