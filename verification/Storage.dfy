/** What both models of the cache share: an array of slots, and extents of blocks on a device. */
module Storage {

  datatype Slot<+T> = Empty | Used(el: T)

  /** The number of used slots among the first n. */
  function NumUsed<T>(slots: seq<Slot<T>>, n: nat): (k: nat)
    requires n <= |slots|
    ensures k <= n
  {
    if n == 0 then 0 else NumUsed(slots, n - 1) + (if slots[n - 1].Used? then 1 else 0)
  }

  lemma {:induction false} NumUsedAfter<T>(slots: seq<Slot<T>>, i: nat, s: Slot<T>, n: nat)
    requires i < |slots| && n <= |slots|
    ensures NumUsed(slots[i := s], n) ==
            NumUsed(slots, n) + (if i < n && s.Used? then 1 else 0) - (if i < n && slots[i].Used? then 1 else 0)
  {
    if n > 0 {
      NumUsedAfter(slots, i, s, n - 1);
    }
  }

  /** The number of used slots is zero or full exactly when the array is. */
  lemma {:induction false} NumUsedBounds<T>(slots: seq<Slot<T>>, n: nat)
    requires n <= |slots|
    ensures NumUsed(slots, n) == 0 <==> forall j | 0 <= j < n :: slots[j].Empty?
    ensures NumUsed(slots, n) == n <==> forall j | 0 <= j < n :: slots[j].Used?
  {
    if n > 0 {
      NumUsedBounds(slots, n - 1);
    }
  }

  /** Two extents, given by first block and length, do not overlap and do not start at the same block. */
  predicate ExtentsApart(a: nat, n: nat, b: nat, m: nat) {
    a != b && (a + n <= b || b + m <= a)
  }

  /** The device after the blocks of mem were written from block addr on. */
  function WriteExtent<T>(disk: seq<T>, addr: nat, mem: seq<T>): (d: seq<T>)
    requires addr + |mem| <= |disk|
    ensures |d| == |disk|
    ensures forall b | 0 <= b < |disk| :: d[b] == if addr <= b < addr + |mem| then mem[b - addr] else disk[b]
  {
    disk[..addr] + mem + disk[addr + |mem|..]
  }

  lemma WrittenExtent<T>(disk: seq<T>, addr: nat, mem: seq<T>)
    requires addr + |mem| <= |disk|
    ensures WriteExtent(disk, addr, mem)[addr..addr + |mem|] == mem
  {
  }

  lemma UnwrittenExtent<T>(disk: seq<T>, addr: nat, mem: seq<T>, a: nat, n: nat)
    requires addr + |mem| <= |disk| && a + n <= |disk|
    requires addr + |mem| <= a || a + n <= addr
    ensures WriteExtent(disk, addr, mem)[a..a + n] == disk[a..a + n]
  {
  }
}
