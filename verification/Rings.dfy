/** The circular lists of the cache, linked through the handles themselves with a dummy at the head. */
module Rings {
  import opened HandleTables

  // The dummy, the handles in order, and the dummy again.
  ghost function Node(d: Handle, list: seq<Handle>, j: nat): Handle
    requires j <= |list| + 1
  {
    if 1 <= j <= |list| then list[j - 1] else d
  }

  ghost predicate Ring(d: Handle, list: seq<Handle>)
    reads Around(d, list)`next, Around(d, list)`prev
  {
    && NoRepeats(list) && d !in list
    && (forall j :: 0 <= j <= |list| ==> Node(d, list, j).next == Node(d, list, j + 1))
    && (forall j :: 0 <= j <= |list| ==> Node(d, list, j + 1).prev == Node(d, list, j))
  }

  ghost function Around(d: Handle, list: seq<Handle>): set<Handle> {
    {d} + set h | h in list
  }

  /** Takes a handle out of its ring. */
  method Remove(e: Handle, ghost d: Handle, ghost list: seq<Handle>, ghost j: nat)
    requires Ring(d, list) && j < |list| && list[j] == e
    modifies Around(d, list)`next, Around(d, list)`prev
    ensures Ring(d, Without(list, j))
    ensures e.next == old(e.next) && e.prev == old(e.prev)
  {
    hide Without, NoRepeats;
    NodesApart(d, list, j);
    assert Node(d, list, j + 1) == e;
    assert e.next == Node(d, list, j + 2) && e.prev == Node(d, list, j);
    assert e.next in Around(d, list) && e.prev in Around(d, list);
    e.next.prev := e.prev;
    e.prev.next := e.next;
    WithoutElements(list, j);
    WithoutNodes(d, list, j);
  }

  // The neighbours of a handle are those of no other handle.
  lemma NodesApart(d: Handle, list: seq<Handle>, j: nat)
    requires NoRepeats(list) && d !in list && j < |list|
    ensures forall k :: 0 <= k <= |list| && k != j ==> Node(d, list, k) != Node(d, list, j)
    ensures forall k :: 1 <= k <= |list| + 1 && k != j + 2 ==> Node(d, list, k) != Node(d, list, j + 2)
  {
  }

  lemma WithoutNodes(d: Handle, list: seq<Handle>, j: nat)
    requires j < |list| && NoRepeats(list)
    ensures NoRepeats(Without(list, j)) && |Without(list, j)| == |list| - 1
    ensures forall k :: 0 <= k <= |list| ==>
      Node(d, Without(list, j), k) == Node(d, list, if k <= j then k else k + 1)
  {
  }

  /** Puts a handle in as the newest, before the dummy. */
  method Append(d: Handle, e: Handle, ghost list: seq<Handle>)
    requires Ring(d, list) && e !in list && e != d
    modifies (Around(d, list) + {e})`next, (Around(d, list) + {e})`prev
    ensures Ring(d, list + [e])
  {
    assert Node(d, list, |list| + 1).prev == Node(d, list, |list|);
    e.next := d;
    e.prev := d.prev;
    e.prev.next := e;
    e.next.prev := e;
    AppendNodes(d, list, e);
  }

  lemma AppendNodes(d: Handle, list: seq<Handle>, e: Handle)
    ensures forall k :: 0 <= k <= |list| ==> Node(d, list + [e], k) == Node(d, list, k)
    ensures Node(d, list + [e], |list| + 1) == e && Node(d, list + [e], |list| + 2) == d
  {
  }

  /** From one ring to the end of another. */
  method Shift(e: Handle, ghost d: Handle, ghost list: seq<Handle>, ghost j: nat, d2: Handle, ghost list2: seq<Handle>)
    requires Ring(d, list) && Ring(d2, list2) && NoRepeats(list) && d !in list
    requires Around(d, list) !! Around(d2, list2) && j < |list| && list[j] == e
    modifies (Around(d, list) + Around(d2, list2))`next, (Around(d, list) + Around(d2, list2))`prev
    ensures Ring(d, Without(list, j)) && Ring(d2, list2 + [e])
  {
    hide Ring, Without;
    assert e in list;
    InRing(d, list, e);
    Remove(e, d, list, j);
    OutOfRing(d, list, j);
    Append(d2, e, list2);
  }

  lemma InRing(d: Handle, list: seq<Handle>, e: Handle)
    requires Ring(d, list) && e in list
    ensures e != d && e in Around(d, list)
  {
  }

  lemma OutOfRing(d: Handle, list: seq<Handle>, j: nat)
    requires j < |list| && NoRepeats(list) && d !in list
    ensures Around(d, Without(list, j)) == Around(d, list) - {list[j]}
  {
    WithoutElements(list, j);
  }
}
