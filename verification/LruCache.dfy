/** One shard of the cache: reference-counted handles in a hash table, and on one of two lists: those in use by clients
    and those that may be evicted, oldest first. */
module LruCache {
  import opened HandleTables
  import opened Rings

  ghost function Elems(list: seq<Handle>): set<Handle> {
    set h | h in list
  }

  ghost function Charges(list: seq<Handle>): nat {
    if list == [] then 0 else Charges(list[..|list| - 1]) + list[|list| - 1].charge
  }

  /** The list without a handle. */
  ghost function Minus(list: seq<Handle>, e: Handle): seq<Handle> {
    if list == [] then [] else if list[0] == e then list[1..] else [list[0]] + Minus(list[1..], e)
  }

  lemma {:induction false} MinusIs(list: seq<Handle>, e: Handle)
    ensures e !in list ==> Minus(list, e) == list
    ensures forall j :: 0 <= j < |list| && list[j] == e && NoRepeats(list) ==> Minus(list, e) == Without(list, j)
  {
    if list != [] {
      var rest := list[1..];
      MinusIs(rest, e);
      assert list == [list[0]] + rest;
      forall j | 0 <= j < |list| && list[j] == e && NoRepeats(list) ensures Minus(list, e) == Without(list, j) {
        if j > 0 {
          assert rest[j - 1] == e && list[0] != e;
          assert forall a, b :: 0 <= a < b < |rest| ==> rest[a] == list[a + 1] && rest[b] == list[b + 1];
          assert Without(list, j) == [list[0]] + Without(rest, j - 1);
        }
      }
    }
  }

  lemma {:induction false} ChargesWithout(list: seq<Handle>, j: nat)
    requires j < |list|
    ensures Charges(Without(list, j)) + list[j].charge == Charges(list)
  {
    var m := |list| - 1;
    if j == m {
      assert Without(list, j) == list[..m];
    } else {
      ChargesWithout(list[..m], j);
      assert Without(list, j) == Without(list[..m], j) + [list[m]];
      ChargesSnoc(Without(list[..m], j), list[m]);
    }
  }

  lemma ChargesSnoc(list: seq<Handle>, e: Handle)
    ensures Charges(list + [e]) == Charges(list) + e.charge
  {
    assert (list + [e])[..|list|] == list;
  }

  lemma ListChange(list: seq<Handle>, list2: seq<Handle>, j: nat)
    requires j < |list| && NoRepeats(list)
    ensures list[j] in list && Elems(Without(list, j)) == Elems(list) - {list[j]}
    ensures Elems(list2 + [list[j]]) == Elems(list2) + {list[j]}
    ensures forall h :: h in list <==> h in Elems(list)
    ensures forall h :: h in list2 <==> h in Elems(list2)
  {
    WithoutElements(list, j);
  }

  lemma ElemsSnoc(list: seq<Handle>, e: Handle)
    ensures Elems(list + [e]) == Elems(list) + {e}
  {
  }

  lemma ElemsAre(list: seq<Handle>)
    ensures forall h :: h in list <==> h in Elems(list)
  {
  }

  lemma RingParts(d: Handle, list: seq<Handle>)
    requires Ring(d, list)
    ensures NoRepeats(list) && d !in list
  {
  }

  lemma EmptyRing(d: Handle)
    requires d.next == d && d.prev == d
    ensures Ring(d, []) && Elems([]) == {} && Charges([]) == 0
  {
  }

  /** References: one for the cache, if it holds the handle, one for each client, and one more for `loose`. The deleter
      has been called, once, for exactly the handles that nobody refers to any more. */
  ghost predicate Books(handles: set<Handle>, idle: set<Handle>, busy: set<Handle>, deleted: seq<Handle>,
                        loose: Handle?)
    reads handles`refs, handles`inCache, handles`held
  {
    && (forall h :: h in handles ==> h.inCache == (h in idle || h in busy))
    && (forall h :: h in handles ==> h.refs == h.held + (if h.inCache then 1 else 0) + if h == loose then 1 else 0)
    && (forall h :: h in idle ==> h in handles && h.held == 0 && h != loose)
    && (forall h :: h in busy ==> h in handles && (h.held > 0 || h == loose))
    && NoRepeats(deleted)
    && (forall h :: h in deleted ==> h in handles && h.refs == 0)
    && (forall h :: h in handles && h.refs == 0 ==> h in deleted)
  }

  // A client more.
  method AddClient(e: Handle, ghost handles: set<Handle>, ghost idle: set<Handle>, ghost busy: set<Handle>,
                   ghost deleted: seq<Handle>)
    requires Books(handles, idle, busy, deleted, null) && (e in idle || e in busy)
    modifies e`refs, e`held
    ensures Books(handles, idle - {e}, busy + {e}, deleted, null) && e.held == old(e.held) + 1
  {
    e.refs := e.refs + 1;
    e.held := e.held + 1;
  }

  // The cache takes a reference of its own.
  method TakeReference(e: Handle, ghost handles: set<Handle>, ghost idle: set<Handle>, ghost busy: set<Handle>,
                       ghost deleted: seq<Handle>)
    requires Books(handles, idle, busy, deleted, null) && e in handles && !e.inCache && e.held > 0
    modifies e`refs, e`inCache
    ensures Books(handles, idle, busy + {e}, deleted, null) && e.inCache
  {
    e.refs := e.refs + 1;
    e.inCache := true;
  }

  // The cache no longer holds the handle; its reference is still there.
  method LetGo(e: Handle, ghost handles: set<Handle>, ghost idle: set<Handle>, ghost busy: set<Handle>,
               ghost deleted: seq<Handle>)
    requires Books(handles, idle, busy, deleted, null) && (e in idle || e in busy)
    modifies e`inCache
    ensures Books(handles, idle - {e}, busy - {e}, deleted, e) && !e.inCache
  {
    e.inCache := false;
  }

  // The reference of a client that is done is still there.
  ghost method GiveBack(e: Handle, handles: set<Handle>, idle: set<Handle>, busy: set<Handle>, deleted: seq<Handle>)
    requires Books(handles, idle, busy, deleted, null) && e in handles && e.held > 0
    modifies e`held
    ensures Books(handles, idle, busy, deleted, e) && e.held == old(e.held) - 1
  {
    e.held := e.held - 1;
  }

  // The loose reference goes, the last one with the deleter called, the last client's with the handle made idle.
  method DropReference(e: Handle, ghost handles: set<Handle>, ghost idle: set<Handle>, ghost busy: set<Handle>,
                       ghost deleted: seq<Handle>)
    requires Books(handles, idle, busy, deleted, e) && e in handles
    modifies e`refs
    ensures e.refs == old(e.refs) - 1 == e.held + if e.inCache then 1 else 0
    ensures e.inCache ==> e in busy
    ensures e.refs == 0 ==> Books(handles, idle, busy, deleted + [e], null)
    ensures e.refs > 0 && !(e.inCache && e.refs == 1) ==> Books(handles, idle, busy, deleted, null)
    ensures e.inCache && e.refs == 1 ==> Books(handles, idle + {e}, busy - {e}, deleted, null)
  {
    e.refs := e.refs - 1;
  }

  class Cache {
    var capacity: nat
    var usage: nat
    const lru: Handle
    const inUse: Handle
    const table: HandleTable
    var deleted: seq<Handle>                // what the deleter has been called for
    ghost var idle: seq<Handle>             // on the LRU list, oldest first
    ghost var busy: seq<Handle>             // on the in-use list
    ghost var handles: set<Handle>          // all there ever were

    ghost predicate Valid()
      reads this, table, table.list, lru, inUse, handles
    {
      && Lists() && table.members == Elems(idle) + Elems(busy) && table.Valid()
      && Counted()
      && usage == Charges(idle) + Charges(busy)
    }

    /** Two disjoint rings of handles. */
    ghost predicate Lists()
      reads this`idle, this`busy, this`handles
      reads lru`next, lru`prev, inUse`next, inUse`prev, handles`next, handles`prev
    {
      && lru != inUse && lru !in handles && inUse !in handles
      && Elems(idle) <= handles && Elems(busy) <= handles
      && Ring(lru, idle) && Ring(inUse, busy)
      && Elems(idle) !! Elems(busy)
    }

    ghost predicate Counted()
      reads this`idle, this`busy, this`handles, this`deleted, handles`refs, handles`inCache, handles`held
    {
      Books(handles, Elems(idle), Elems(busy), deleted, null)
    }

    // As Counted, but the handle has one reference more than the cache and the clients account for.
    ghost predicate Loose(e: Handle)
      reads this`idle, this`busy, this`handles, this`deleted, handles`refs, handles`inCache, handles`held
    {
      e in handles && Books(handles, Elems(idle), Elems(busy), deleted, e)
    }

    constructor (capacity: nat)
      ensures Valid() && this.capacity == capacity && table.members == {} && handles == {} && deleted == []
    {
      hide Ring, Elems, Charges, HandleTable.Valid;
      this.capacity, usage := capacity, 0;
      lru := new Handle("", 0, 0);
      inUse := new Handle("", 0, 0);
      table := new HandleTable();
      deleted, idle, busy, handles := [], [], [], {};
      new;
      lru.next, lru.prev := lru, lru;
      inUse.next, inUse.prev := inUse, inUse;
      EmptyRing(lru);
      EmptyRing(inUse);
    }

    // From the handles that may be evicted to those in use.
    method ToBusy(e: Handle)
      requires Lists() && e in idle
      modifies this`idle, this`busy, lru`next, lru`prev, inUse`next, inUse`prev, handles`next, handles`prev
      ensures Lists() && idle == Minus(old(idle), e) && busy == old(busy) + [e]
      ensures Elems(idle) == old(Elems(idle)) - {e} && Elems(busy) == old(Elems(busy)) + {e}
      ensures Charges(idle) + Charges(busy) == old(Charges(idle) + Charges(busy))
    {
      hide Without, Elems, Ring, Minus, Charges;
      ghost var j :| 0 <= j < |idle| && idle[j] == e;
      RingParts(lru, idle);
      MinusIs(idle, e);
      ListChange(idle, busy, j);
      ChargesWithout(idle, j);
      ChargesSnoc(busy, e);
      Shift(e, lru, idle, j, inUse, busy);
      idle := Without(idle, j);
      busy := busy + [e];
    }

    // ... and back, as the newest.
    method ToIdle(e: Handle)
      requires Lists() && e in busy
      modifies this`idle, this`busy, lru`next, lru`prev, inUse`next, inUse`prev, handles`next, handles`prev
      ensures Lists() && busy == Minus(old(busy), e) && idle == old(idle) + [e]
      ensures Elems(busy) == old(Elems(busy)) - {e} && Elems(idle) == old(Elems(idle)) + {e}
      ensures Charges(idle) + Charges(busy) == old(Charges(idle) + Charges(busy))
    {
      hide Without, Elems, Ring, Minus, Charges;
      ghost var j :| 0 <= j < |busy| && busy[j] == e;
      RingParts(inUse, busy);
      MinusIs(busy, e);
      ListChange(busy, idle, j);
      ChargesWithout(busy, j);
      ChargesSnoc(idle, e);
      Shift(e, inUse, busy, j, lru, idle);
      busy := Without(busy, j);
      idle := idle + [e];
    }

    method Ref(e: Handle)
      requires Valid() && e in table.members
      modifies this`idle, this`busy, lru`next, lru`prev, inUse`next, inUse`prev
      modifies handles`next, handles`prev, e`refs, e`held
      ensures Valid() && e.held == old(e.held) + 1
      ensures idle == Minus(old(idle), e) && busy == if e in old(idle) then old(busy) + [e] else old(busy)
    {
      hide Ring, Charges, Minus, Elems, HandleTable.Valid, Around, Books, Lists;
      ElemsAre(idle);
      ElemsAre(busy);
      MinusIs(idle, e);
      WhereIs(e);
      ghost var idle0, busy0 := Elems(idle), Elems(busy);
      if e.refs == 1 && e.inCache {
        ToBusy(e);
      }
      AddClient(e, handles, idle0, busy0, deleted);
    }

    // A handle in the cache is on one list, and which one tells whether clients use it.
    lemma WhereIs(e: Handle)
      requires Lists() && Counted() && (e in Elems(idle) || e in Elems(busy))
      ensures e in handles && e.inCache
      ensures (e in Elems(idle) <==> e.refs == 1) && (e in Elems(idle) <==> e !in Elems(busy))
      ensures e in Elems(idle) ==> Elems(busy) - {e} == Elems(busy)
      ensures e in Elems(busy) ==> Elems(idle) - {e} == Elems(idle) && Elems(busy) + {e} == Elems(busy)
    {
      hide Ring, Elems, NoRepeats;
    }

    method Lookup(key: Key, hash: nat) returns (h: Handle?)
      requires Valid()
      modifies this`idle, this`busy, lru`next, lru`prev, inUse`next, inUse`prev
      modifies handles`next, handles`prev, handles`refs, handles`held
      ensures Valid()
      ensures h == null ==> idle == old(idle) && busy == old(busy)
      ensures h == null ==> forall g :: g in table.members ==> !g.Is(key, hash)
      ensures h != null ==> h in table.members && h.Is(key, hash) && h.held == old(h.held) + 1
      ensures h != null ==> idle == Minus(old(idle), h)
      ensures forall g :: g in handles && g != h ==> g.held == old(g.held)
    {
      hide Ring, Charges, Minus, Elems, HandleTable.Valid, Around, Books, Lists;
      h := table.Lookup(key, hash);
      if h != null {
        WhereIs(h);
        Ref(h);
      }
    }

    /** One reference less; the last one deletes the handle, and the last client's makes it evictable. */
    method Unref(e: Handle)
      requires Lists() && Loose(e)
      modifies this`idle, this`busy, this`deleted, lru`next, lru`prev, inUse`next, inUse`prev
      modifies handles`next, handles`prev, e`refs
      ensures Lists() && Counted() && e.refs == old(e.refs) - 1 == e.held + if e.inCache then 1 else 0
      ensures deleted == old(deleted) + if e.refs == 0 then [e] else []
      ensures idle == if e.inCache && e.refs == 1 then old(idle) + [e] else old(idle)
      ensures busy == if e.inCache && e.refs == 1 then Minus(old(busy), e) else old(busy)
      ensures Elems(idle) + Elems(busy) == old(Elems(idle) + Elems(busy))
      ensures Charges(idle) + Charges(busy) == old(Charges(idle) + Charges(busy))
    {
      hide Ring, Charges, Minus, Elems, Around, Books, Lists;
      ElemsAre(busy);
      DropReference(e, handles, Elems(idle), Elems(busy), deleted);
      if e.refs == 0 {
        deleted := deleted + [e];
      } else if e.inCache && e.refs == 1 {
        ToIdle(e);
      }
    }

    /** A client gives a handle back. */
    method Release(h: Handle)
      requires Valid() && h in handles && h.held > 0
      modifies this`idle, this`busy, this`deleted, lru`next, lru`prev, inUse`next, inUse`prev
      modifies handles`next, handles`prev, h`refs, h`held
      ensures Valid() && h.held == old(h.held) - 1
      ensures deleted == old(deleted) + if h.held == 0 && !h.inCache then [h] else []
      ensures idle == old(idle) + if h.held == 0 && h.inCache then [h] else []
    {
      hide Ring, Charges, Minus, Elems, HandleTable.Valid, Around, Books, Lists;
      GiveBack(h, handles, Elems(idle), Elems(busy), deleted);
      Unref(h);
    }

    lemma RingsApart()
      requires Lists()
      ensures Around(lru, idle) !! Around(inUse, busy)
      ensures Around(lru, idle) <= {lru} + handles && Around(inUse, busy) <= {inUse} + handles
      ensures forall h :: h in handles && h !in idle ==> h !in Around(lru, idle)
    {
      hide Ring;
    }

    // Off the list it is on.
    method TakeOff(e: Handle)
      requires Lists() && (e in idle || e in busy)
      modifies this`idle, this`busy, lru`next, lru`prev, inUse`next, inUse`prev, handles`next, handles`prev
      ensures Lists() && idle == Minus(old(idle), e) && busy == Minus(old(busy), e)
      ensures Elems(idle) == old(Elems(idle)) - {e} && Elems(busy) == old(Elems(busy)) - {e}
      ensures Charges(idle) + Charges(busy) + e.charge == old(Charges(idle) + Charges(busy))
    {
      hide Without, Elems, Ring, Minus, Charges, Around;
      RingsApart();
      RingParts(lru, idle);
      RingParts(inUse, busy);
      ElemsAre(idle);
      ElemsAre(busy);
      MinusIs(idle, e);
      MinusIs(busy, e);
      ghost var d, list := if e in idle then lru else inUse, if e in idle then idle else busy;
      ghost var j :| 0 <= j < |list| && list[j] == e;
      ListChange(list, [], j);
      ChargesWithout(list, j);
      Rings.Remove(e, d, list, j);
      if e in idle {
        idle := Without(idle, j);
      } else {
        busy := Without(busy, j);
      }
    }

    /** As Valid, but for a handle that the table has let go. */
    ghost predicate Erasing(e: Handle)
      reads this, table, table.list, lru, inUse, handles
    {
      && Lists() && (e in idle || e in busy)
      && table.members == Elems(idle) + Elems(busy) - {e} && table.Valid()
      && Counted()
      && usage == Charges(idle) + Charges(busy)
    }

    method FinishErase(e: Handle)
      requires Erasing(e)
      modifies this`idle, this`busy, this`deleted, this`usage, lru`next, lru`prev, inUse`next, inUse`prev
      modifies handles`next, handles`prev, e`refs, e`inCache
      ensures Valid() && !e.inCache
      ensures idle == Minus(old(idle), e) && busy == Minus(old(busy), e)
      ensures usage == old(usage) - e.charge
      ensures deleted == old(deleted) + if e.held == 0 then [e] else []
    {
      hide Ring, Charges, Minus, Elems, HandleTable.Valid, Around, Books, Lists;
      ElemsAre(idle);
      ElemsAre(busy);
      ghost var idle0, busy0 := Elems(idle), Elems(busy);
      WhereIs(e);
      TakeOff(e);
      LetGo(e, handles, idle0, busy0, deleted);
      usage := usage - e.charge;
      Unref(e);
    }

    /** Takes a key out of the cache; clients may still use what was there. */
    method Erase(key: Key, hash: nat) returns (ghost h: Handle?)
      requires Valid()
      modifies this`idle, this`busy, this`deleted, this`usage, lru`next, lru`prev, inUse`next, inUse`prev
      modifies handles`next, handles`prev, handles`refs, handles`inCache, handles`nextHash, table, table.list
      ensures Valid() && table.members == old(table.members) - {h} && table.list == old(table.list)
      ensures h == null ==> idle == old(idle) && busy == old(busy) && deleted == old(deleted) && usage == old(usage)
      ensures h == null ==> forall g :: g in old(table.members) ==> !g.Is(key, hash)
      ensures h != null ==> h in old(table.members) && h.Is(key, hash) && usage == old(usage) - h.charge
      ensures h != null ==> idle == Minus(old(idle), h) && busy == Minus(old(busy), h)
      ensures h != null ==> deleted == old(deleted) + if h.held == 0 then [h] else []
    {
      hide Ring, Charges, Minus, Elems, Buckets, Chained, OnePerKey, Around, HandleTable.Valid, NoRepeats;
      ElemsAre(idle);
      ElemsAre(busy);
      var e := table.Remove(key, hash);
      h := e;
      if e != null {
        FinishErase(e);
        ElemsAre(idle);
        ElemsAre(busy);
      }
    }

    lemma OldestIdle()
      requires Lists()
      ensures lru.next == if idle == [] then lru else idle[0]
      ensures idle != [] ==> idle[0] != lru && Minus(idle, idle[0]) == idle[1..] && Minus(busy, idle[0]) == busy
    {
      assert Node(lru, idle, 0).next == Node(lru, idle, 1);
      if idle != [] {
        assert idle[0] in Elems(idle);
        MinusIs(busy, idle[0]);
      }
    }

    // Evicts the oldest handle that no client uses.
    method EvictOldest()
      requires Valid() && idle != []
      modifies this`idle, this`busy, this`deleted, this`usage, lru`next, lru`prev, inUse`next, inUse`prev
      modifies handles`next, handles`prev, handles`refs, handles`inCache, handles`nextHash, table, table.list
      ensures Valid() && idle == old(idle)[1..] && busy == old(busy) && deleted == old(deleted) + [old(idle)[0]]
      ensures usage == old(usage) - old(idle)[0].charge
      ensures table.members == old(table.members) - {old(idle)[0]} && table.list == old(table.list)
    {
      hide Ring, Charges, Minus, Elems, Buckets, Chained, Around, HandleTable.Valid, NoRepeats;
      OldestIdle();
      ElemsAre(idle);
      KeysDiffer();
      var e := lru.next;
      ghost var h := Erase(e.key, e.hash);
    }

    lemma KeysDiffer()
      requires table.Valid()
      ensures OnePerKey(table.members)
    {
    }

    /** Throws out everything that no client uses, oldest first. */
    method Prune()
      requires Valid()
      modifies this`idle, this`busy, this`deleted, this`usage, lru`next, lru`prev, inUse`next, inUse`prev
      modifies handles`next, handles`prev, handles`refs, handles`inCache, handles`nextHash, table, table.list
      ensures Valid() && idle == [] && busy == old(busy) && deleted == old(deleted) + old(idle)
    {
      hide Ring, Charges, Minus, Elems, Buckets, Chained, Around, HandleTable.Valid, NoRepeats, Lists, Counted;
      ghost var n := 0;
      OldestIdle();
      while lru.next != lru
        invariant Valid() && busy == old(busy) && n <= |old(idle)| && table.list == old(table.list)
        invariant idle == old(idle)[n..] && deleted == old(deleted) + old(idle)[..n]
        invariant lru.next == if idle == [] then lru else idle[0]
        invariant idle != [] ==> idle[0] != lru
        decreases |idle|
      {
        EvictOldest();
        OldestIdle();
        n := n + 1;
      }
    }

    // A handle of a client's that the cache does not hold.
    method NewHandle(key: Key, hash: nat, charge: nat) returns (e: Handle)
      requires Valid()
      modifies this`handles
      ensures Valid() && fresh(e) && e.Is(key, hash) && e.charge == charge && e.held == 1 && !e.inCache
      ensures handles == old(handles) + {e} && e !in table.members && e.refs == 1
    {
      hide Ring, Charges, Elems, Buckets, Chained, OnePerKey, Around, HandleTable.Valid, NoRepeats;
      RingsApart();
      e := new Handle(key, hash, charge);
      handles := handles + {e};
      ElemsAre(idle);
      ElemsAre(busy);
    }

    // The cache takes a reference of its own; a handle with the same key goes out.
    method Enter(e: Handle) returns (ghost replaced: Handle?)
      requires Valid() && e in handles && !e.inCache && e.held > 0
      modifies this`idle, this`busy, this`deleted, this`usage, lru`next, lru`prev, inUse`next, inUse`prev
      modifies handles`next, handles`prev, handles`refs, handles`inCache, handles`nextHash, table, table.list
      ensures Valid() && e in table.members && e.inCache
      ensures table.list == old(table.list) || fresh(table.list)
      ensures replaced == null ==> forall g :: g in old(table.members) ==> !g.Is(e.key, e.hash)
      ensures replaced != null ==> replaced in old(table.members) && replaced.Is(e.key, e.hash)
      ensures table.members == old(table.members) - {replaced} + {e}
      ensures idle == if replaced == null then old(idle) else Minus(old(idle), replaced)
      ensures busy == if replaced == null then old(busy) + [e] else Minus(old(busy) + [e], replaced)
      ensures deleted == old(deleted) + if replaced != null && replaced.held == 0 then [replaced] else []
    {
      hide Ring, Charges, Minus, Elems, Around, HandleTable.Valid, Books, Lists;
      ElemsAre(idle);
      ListedAreHandles();
      Join(e);
      ElemsAre(busy);
      var h := table.Insert(e);
      replaced := h;
      if h != null {
        FinishErase(h);
      }
    }

    lemma ListedAreHandles()
      requires Lists()
      ensures Elems(idle) + Elems(busy) <= handles
    {
      hide Ring, Elems;
    }

    // In use, and counted, but not yet in the table.
    method Join(e: Handle)
      requires Lists() && Counted() && usage == Charges(idle) + Charges(busy)
      requires e in handles && !e.inCache && e.held > 0
      modifies this`busy, this`usage, inUse`next, inUse`prev, handles`next, handles`prev, e`refs, e`inCache
      ensures Lists() && Counted() && usage == Charges(idle) + Charges(busy)
      ensures e.inCache && e !in old(Elems(idle)) && e !in old(Elems(busy))
      ensures busy == old(busy) + [e] && Elems(busy) == old(Elems(busy)) + {e}
    {
      hide Ring, Charges, Elems, Books, Lists;
      ElemsAre(idle);
      ElemsAre(busy);
      NotHeld(e);
      TakeReference(e, handles, Elems(idle), Elems(busy), deleted);
      PutOn(e);
      usage := usage + e.charge;
    }

    lemma NotHeld(e: Handle)
      requires Counted() && e in handles && !e.inCache
      ensures e !in Elems(idle) && e !in Elems(busy)
    {
      hide Elems;
    }

    // On the list of handles in use.
    method PutOn(e: Handle)
      requires Lists() && e in handles && e !in idle && e !in busy
      modifies this`busy, inUse`next, inUse`prev, handles`next, handles`prev
      ensures Lists() && busy == old(busy) + [e] && Elems(busy) == old(Elems(busy)) + {e}
      ensures Charges(busy) == old(Charges(busy)) + e.charge
    {
      hide Ring, Charges, Elems, Around;
      RingsApart();
      ElemsAre(idle);
      ElemsAre(busy);
      ChargesSnoc(busy, e);
      ElemsSnoc(busy, e);
      Rings.Append(inUse, e, busy);
      busy := busy + [e];
    }

    // Evicts until the cache fits, or nothing can be evicted.
    method EvictToFit() returns (ghost n: nat)
      requires Valid()
      modifies this`idle, this`busy, this`deleted, this`usage, lru`next, lru`prev, inUse`next, inUse`prev
      modifies handles`next, handles`prev, handles`refs, handles`inCache, handles`nextHash, table, table.list
      ensures Valid() && (usage <= capacity || idle == [])
      ensures n <= |old(idle)| && idle == old(idle)[n..] && deleted == old(deleted) + old(idle)[..n]
      ensures n > 0 ==> usage + old(idle)[n - 1].charge > capacity
      ensures busy == old(busy) && table.members == old(table.members) - Elems(old(idle)[..n])
    {
      hide Ring, Charges, Minus, Elems, Buckets, Chained, Around, HandleTable.Valid, NoRepeats, Lists, Counted;
      n := 0;
      OldestIdle();
      NoElems(idle);
      while usage > capacity && lru.next != lru
        invariant Valid() && busy == old(busy) && n <= |old(idle)| && table.list == old(table.list)
        invariant idle == old(idle)[n..] && deleted == old(deleted) + old(idle)[..n]
        invariant lru.next == if idle == [] then lru else idle[0]
        invariant idle != [] ==> idle[0] != lru
        invariant n > 0 ==> usage + old(idle)[n - 1].charge > capacity
        invariant table.members == old(table.members) - Elems(old(idle)[..n])
        decreases |idle|
      {
        EvictOldest();
        OldestIdle();
        MoreElems(old(idle), n);
        n := n + 1;
      }
    }

    /** A handle for a new entry, which replaces one with the same key; others go, oldest first, until the cache
        fits. */
    method Insert(key: Key, hash: nat, charge: nat) returns (e: Handle, ghost replaced: Handle?, ghost n: nat)
      requires Valid()
      modifies this`handles, this`idle, this`busy, this`deleted, this`usage, lru`next, lru`prev, inUse`next, inUse`prev
      modifies handles`next, handles`prev, handles`refs, handles`inCache, handles`nextHash, table, table.list
      ensures Valid() && (usage <= capacity || idle == [])
      ensures fresh(e) && e.Is(key, hash) && e.held == 1 && handles == old(handles) + {e}
      ensures e.inCache == (capacity > 0) && (e.inCache ==> e in table.members)
      ensures replaced != null ==> replaced in old(table.members) && replaced.Is(key, hash)
      ensures capacity > 0 && replaced == null ==> forall g :: g in old(table.members) ==> !g.Is(key, hash)
      // what is left to evict is what there was, less the one replaced and the oldest ones
      ensures var rest := if replaced == null then old(idle) else Minus(old(idle), replaced);
        && n <= |rest| && idle == rest[n..] && (n > 0 ==> usage + rest[n - 1].charge > capacity)
        && table.members == old(table.members) - {replaced} + (if capacity > 0 then {e} else {}) - Elems(rest[..n])
        && deleted == old(deleted) + (if replaced != null && replaced.held == 0 then [replaced] else []) + rest[..n]
      ensures capacity == 0 ==> busy == old(busy)
      ensures capacity > 0 ==> busy == if replaced == null then old(busy) + [e] else Minus(old(busy) + [e], replaced)
    {
      hide Ring, Charges, Minus, Elems, Around, HandleTable.Valid, Counted, Lists;
      e := NewHandle(key, hash, charge);
      replaced := null;
      if capacity > 0 {
        replaced := Enter(e);
      }
      InUse(e);
      n := EvictToFit();
      InUse(e);
    }

    /** A handle that a client has is never evicted. */
    lemma InUse(e: Handle)
      requires Valid() && e in handles && e.held > 0
      ensures e.inCache <==> e in busy
      ensures e in busy ==> e in table.members
    {
      hide Ring, Charges, Buckets, Chained, OnePerKey, Around, HandleTable.Valid, NoRepeats;
    }
  }

  lemma NoElems(list: seq<Handle>)
    ensures Elems(list[..0]) == {}
  {
  }

  lemma MoreElems(list: seq<Handle>, n: nat)
    requires n < |list|
    ensures Elems(list[..n + 1]) == Elems(list[..n]) + {list[n]}
  {
  }
}
