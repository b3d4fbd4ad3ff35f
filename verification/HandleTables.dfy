/** The hash table of the cache: buckets of handles chained through a link inside the handles. */
module HandleTables {

  type Key = string

  class Handle {
    const key: Key
    const hash: nat
    const charge: nat
    var next: Handle?
    var prev: Handle?
    var nextHash: Handle?
    var inCache: bool
    var refs: nat
    ghost var held: nat                // by clients

    constructor (key: Key, hash: nat, charge: nat)
      ensures this.key == key && this.hash == hash && this.charge == charge && !inCache && refs == 1 && held == 1
      ensures next == null && prev == null && nextHash == null
    {
      this.key, this.hash, this.charge := key, hash, charge;
      next, prev, nextHash, inCache, refs, held := null, null, null, false, 1, 1;
    }

    predicate Is(key: Key, hash: nat) {
      this.hash == hash && this.key == key
    }
  }

  ghost function At(chain: seq<Handle>, j: nat): Handle? {
    if j < |chain| then chain[j] else null
  }

  /** The slot points to the first handle of the chain, and each handle to the next. */
  ghost predicate Chained(slot: Handle?, chain: seq<Handle>)
    reads chain`nextHash
  {
    slot == At(chain, 0) && forall j :: 0 <= j < |chain| ==> chain[j].nextHash == At(chain, j + 1)
  }

  // `length` is a power of two, and the source takes the low bits.
  function BucketOf(hash: nat, length: nat): (b: nat)
    requires length > 0
    ensures b < length
  {
    hash % length
  }

  ghost predicate NoRepeats(chain: seq<Handle>) {
    forall i, j :: 0 <= i < j < |chain| ==> chain[i] != chain[j]
  }

  /** The chains hold the members, each in the bucket of its hash. */
  ghost predicate Buckets(chains: seq<seq<Handle>>, members: set<Handle>) {
    && (forall i :: 0 <= i < |chains| ==> NoRepeats(chains[i]))
    && (forall i, h :: 0 <= i < |chains| && h in chains[i] ==> h in members && BucketOf(h.hash, |chains|) == i)
    && (|chains| > 0 ==> forall h :: h in members ==> h in chains[BucketOf(h.hash, |chains|)])
  }

  /** No two members answer to the same key. */
  ghost predicate OnePerKey(members: set<Handle>) {
    forall h, g :: h in members && g in members && h.Is(g.key, g.hash) ==> h == g
  }

  class HandleTable {
    var list: array<Handle?>
    var elems: nat
    ghost var chains: seq<seq<Handle>>
    ghost var members: set<Handle>

    ghost predicate Valid()
      reads this, list, members`nextHash
    {
      && list.Length > 0 && |chains| == list.Length
      && Buckets(chains, members) && OnePerKey(members)
      && elems == |members|
      && forall i :: 0 <= i < list.Length ==> InChains(i) && Chained(list[i], chains[i])
    }

    // So that the frame of a chain is the members.
    ghost predicate InChains(i: nat)
      requires i < |chains|
      reads this
    {
      forall h :: h in chains[i] ==> h in members
    }

    constructor ()
      ensures Valid() && members == {} && fresh(list)
    {
      list := new Handle?[4](_ => null);
      elems, chains, members := 0, seq(4, _ => []), {};
    }

    /** The slot that points to the handle with this key, or the empty slot at the end of its chain: in the bucket if
        `before` is null, in `before` otherwise. */
    method FindPointer(key: Key, hash: nat) returns (bucket: nat, before: Handle?, h: Handle?, ghost j: nat)
      requires Valid()
      ensures bucket == BucketOf(hash, list.Length) && j <= |chains[bucket]| && h == At(chains[bucket], j)
      ensures if j == 0 then before == null else before == chains[bucket][j - 1]
      ensures h != null ==> h in members && h.Is(key, hash)
      ensures h == null ==> forall g :: g in members ==> !g.Is(key, hash)
    {
      bucket := BucketOf(hash, list.Length);
      ghost var chain := chains[bucket];
      before, h, j := null, list[bucket], 0;
      assert InChains(bucket) && Chained(list[bucket], chain);
      while h != null && (h.hash != hash || h.key != key)
        invariant j <= |chain| && h == At(chain, j)
        invariant if j == 0 then before == null else before == chain[j - 1]
        invariant forall k :: 0 <= k < j ==> !chain[k].Is(key, hash)
        decreases |chain| - j
      {
        before, h, j := h, h.nextHash, j + 1;
      }
    }

    method Lookup(key: Key, hash: nat) returns (h: Handle?)
      requires Valid()
      ensures h != null ==> h in members && h.Is(key, hash)
      ensures h == null ==> forall g :: g in members ==> !g.Is(key, hash)
    {
      var bucket, before;
      ghost var j;
      bucket, before, h, j := FindPointer(key, hash);
    }

    // Stores into the slot that FindPointer has found.
    method SetSlot(bucket: nat, before: Handle?, x: Handle?)
      requires bucket < list.Length
      modifies list, (if before == null then {} else {before})`nextHash
      ensures forall i :: 0 <= i < list.Length && (before != null || i != bucket) ==> list[i] == old(list[i])
      ensures if before == null then list[bucket] == x else before.nextHash == x
    {
      if before == null {
        list[bucket] := x;
      } else {
        before.nextHash := x;
      }
    }

    /** Links a handle into a chain, in the place of another or at the end. */
    method PutAt(h: Handle, bucket: nat, before: Handle?, replaced: Handle?, ghost j: nat)
      requires Valid() && h !in members && bucket < list.Length && j <= |chains[bucket]|
      requires replaced == At(chains[bucket], j)
      requires if j == 0 then before == null else before == chains[bucket][j - 1]
      modifies list, members`nextHash, h`nextHash
      ensures var chains2 := chains[bucket := Replaced(chains[bucket], j, h)];
        forall i :: 0 <= i < list.Length ==> Chained(list[i], chains2[i])
    {
      hide OnePerKey, Buckets, Replaced;
      ghost var chain := chains[bucket];
      assert InChains(bucket) && Chained(list[bucket], chain);
      OtherChains(chains, members, bucket);
      assert before == null || before in chain;
      h.nextHash := if replaced == null then null else replaced.nextHash;
      SetSlot(bucket, before, h);
      ChainedWith(list[bucket], chain, j, h);
      forall i | 0 <= i < list.Length && i != bucket ensures Chained(list[i], chains[i]) {
        assert before !in chains[i] && h !in chains[i];
        assert old(Chained(list[i], chains[i]));
      }
    }

    /** Puts in a handle; one with the same key goes out and is returned. */
    method Insert(h: Handle) returns (replaced: Handle?)
      requires Valid() && h !in members
      modifies this, list, members`nextHash, h`nextHash
      ensures Valid() && (list == old(list) || fresh(list))
      ensures replaced != null ==> replaced in old(members) && replaced.Is(h.key, h.hash)
      ensures replaced == null ==> forall g :: g in old(members) ==> !g.Is(h.key, h.hash)
      ensures members == old(members) - {replaced} + {h}
    {
      hide OnePerKey, Buckets, Chained, InChains;
      replaced := Put(h);
      if replaced == null && elems > list.Length {
        Resize();
      }
    }

    method Put(h: Handle) returns (replaced: Handle?)
      requires Valid() && h !in members
      modifies this`chains, this`members, this`elems, list, members`nextHash, h`nextHash
      ensures Valid()
      ensures replaced != null ==> replaced in old(members) && replaced.Is(h.key, h.hash)
      ensures replaced == null ==> forall g :: g in old(members) ==> !g.Is(h.key, h.hash)
      ensures members == old(members) - {replaced} + {h}
    {
      hide OnePerKey, Buckets, Chained, Replaced, BucketOf;
      var bucket, before;
      ghost var j;
      bucket, before, replaced, j := FindPointer(h.key, h.hash);
      BucketsReplace(chains, members, bucket, j, h);
      KeysReplace(members, replaced, h);
      ghost var chains2, members2 := chains[bucket := Replaced(chains[bucket], j, h)], members - {replaced} + {h};
      PutAt(h, bucket, before, replaced, j);
      if replaced == null {
        elems := elems + 1;
      }
      Adopt(chains2, members2);
    }

    /** Takes out the handle with this key. */
    method Remove(key: Key, hash: nat) returns (h: Handle?)
      requires Valid()
      modifies this, list, members`nextHash
      ensures Valid() && list == old(list)
      ensures h != null ==> h in old(members) && h.Is(key, hash)
      ensures h == null ==> forall g :: g in old(members) ==> !g.Is(key, hash)
      ensures members == old(members) - {h}
    {
      hide OnePerKey, Buckets, Without;
      var bucket, before;
      ghost var j;
      bucket, before, h, j := FindPointer(key, hash);
      if h != null {
        BucketsWithout(chains, members, bucket, j);
        KeysWithout(members, h);
        TakeOut(bucket, before, h, j);
        elems := elems - 1;
        Adopt(chains[bucket := Without(chains[bucket], j)], members - {h});
      }
    }

    // Unlinks a handle from its chain.
    method TakeOut(bucket: nat, before: Handle?, h: Handle, ghost j: nat)
      requires Valid() && bucket < list.Length && j < |chains[bucket]| && h == chains[bucket][j]
      requires if j == 0 then before == null else before == chains[bucket][j - 1]
      modifies list, members`nextHash
      ensures var chains2 := chains[bucket := Without(chains[bucket], j)];
        forall i :: 0 <= i < list.Length ==> Chained(list[i], chains2[i])
    {
      hide OnePerKey, Buckets, Without;
      ghost var chain := chains[bucket];
      assert InChains(bucket) && Chained(list[bucket], chain);
      OtherChains(chains, members, bucket);
      assert forall i :: 0 <= i < |chains| ==> Chained(list[i], chains[i]);
      var next := h.nextHash;
      assert before == null || before in chain;
      SetSlot(bucket, before, next);
      ChainedWithout(list[bucket], chain, j, next);
      forall i | 0 <= i < list.Length && i != bucket ensures Chained(list[i], chains[i]) {
        assert before !in chains[i];
        assert old(Chained(list[i], chains[i]));
      }
    }

    /** Twice the room or more, with every handle moved to its new bucket. */
    method Resize()
      requires Valid()
      modifies this`list, this`chains, this`members, members`nextHash
      ensures Valid() && fresh(list) && members == old(members)
    {
      hide OnePerKey, Buckets, Chained, Moving, Links;
      var newLength := 4;
      while newLength < elems
        invariant newLength > 0
      {
        newLength := newLength * 2;
      }
      var newList := new Handle?[newLength](_ => null);
      ghost var newChains: seq<seq<Handle>>, moved: set<Handle> := seq(newLength, _ => []), {};
      ghost var slots, was, all := list[..], chains, members;
      AllLinked();
      NoneMoved(newList[..], newChains, slots, was, all);
      var i := 0;
      while i < list.Length
        invariant 0 <= i <= list.Length && |newChains| == newList.Length == newLength
        invariant members == all && list == old(list) && list[..] == slots && fresh(newList)
        invariant Moving(newList[..], newChains, moved, slots, was, all, i, [])
      {
        var h := list[i];
        ghost var rest := was[i];
        MovingStart(newList[..], newChains, moved, slots, was, all, i);
        while h != null
          invariant |newChains| == newList.Length == newLength && Links(h, rest, all)
          invariant members == all && list == old(list) && list[..] == slots
          invariant Moving(newList[..], newChains, moved, slots, was, all, i + 1, rest)
          decreases |rest|
        {
          HeadOfChain(h, rest, all);
          var e: Handle := h;
          h := e.nextHash;
          var k := BucketOf(e.hash, newLength);
          Move(newList, e, k, newChains, moved, slots, was, all, i, rest);
          newChains := newChains[k := [e] + newChains[k]];
          moved := moved + {e};
          rest := rest[1..];
        }
        HeadOfChain(h, rest, all);
        i := i + 1;
      }
      AllMoved(newList[..], newChains, moved, slots, was, all);
      LinksAreChains(newList[..], newChains, all);
      assert forall k :: 0 <= k < newList.Length ==> newList[..][k] == newList[k];
      list := newList;
      Adopt(newChains, members);
    }

    // Notes what the chains have become.
    ghost method Adopt(chains2: seq<seq<Handle>>, members2: set<Handle>)
      requires list.Length > 0 && |chains2| == list.Length && elems == |members2|
      requires Buckets(chains2, members2) && OnePerKey(members2)
      requires forall i :: 0 <= i < list.Length ==> Chained(list[i], chains2[i])
      modifies this`chains, this`members
      ensures Valid() && chains == chains2 && members == members2
    {
      hide OnePerKey, Chained;
      chains, members := chains2, members2;
    }

    lemma AllLinked()
      requires Valid()
      ensures forall k :: 0 <= k < |chains| ==> Links(list[..][k], chains[k], members)
    {
      assert forall i :: 0 <= i < list.Length ==> InChains(i) && Chained(list[i], chains[i]);
    }
  }

  lemma LinksAreChains(slots: seq<Handle?>, chains: seq<seq<Handle>>, members: set<Handle>)
    requires |slots| == |chains| && forall k :: 0 <= k < |chains| ==> Links(slots[k], chains[k], members)
    ensures forall k :: 0 <= k < |chains| ==>
      Chained(slots[k], chains[k]) && forall h :: h in chains[k] ==> h in members
  {
  }

  // Moves one handle to the front of its new bucket.
  method Move(newList: array<Handle?>, h: Handle, k: nat, ghost newChains: seq<seq<Handle>>, ghost moved: set<Handle>,
    ghost slots: seq<Handle?>, ghost chains: seq<seq<Handle>>, ghost members: set<Handle>, ghost i: nat,
    ghost rest: seq<Handle>)
    requires newList.Length == |newChains| && Moving(newList[..], newChains, moved, slots, chains, members, i + 1, rest)
    requires Links(h, rest, members) && rest != [] && h == rest[0] && k == BucketOf(h.hash, |newChains|)
    modifies newList, h`nextHash
    ensures Moving(newList[..], newChains[k := [h] + newChains[k]], moved + {h}, slots, chains, members, i + 1,
                   rest[1..])
    ensures Links(old(h.nextHash), rest[1..], members)
  {
    hide Buckets, Chained;
    assert h in rest;
    MovedBuckets(newChains, moved, h);
    MovedRest(members, moved, |chains|, i + 1, rest);
    NotChained(newChains, moved, h);
    NotChained(chains, members, h);
    UnlinkHead(rest, members);
    h.nextHash := newList[k];
    newList[k] := h;
    PushFront(h, newChains[k], members);
  }

  /** Handles are being moved to new buckets: `moved` are those of the old buckets below `i`, except for `rest`. */
  ghost predicate Moving(newSlots: seq<Handle?>, newChains: seq<seq<Handle>>, moved: set<Handle>, slots: seq<Handle?>,
    chains: seq<seq<Handle>>, members: set<Handle>, i: nat, rest: seq<Handle>)
    reads members`nextHash
  {
    && |newSlots| == |newChains| > 0 && |slots| == |chains| >= i && |chains| > 0
    && Buckets(newChains, moved) && Buckets(chains, members)
    && moved <= members
    && (forall h :: h in rest ==> h in members && BucketOf(h.hash, |chains|) == i - 1) && NoRepeats(rest)
    && MovedBelow(members, moved, |chains|, i, rest)
    && (forall k :: 0 <= k < |newChains| ==> Links(newSlots[k], newChains[k], members))
    && (forall k :: i <= k < |chains| ==> Links(slots[k], chains[k], members))
  }

  // A chain of members.
  ghost predicate Links(slot: Handle?, chain: seq<Handle>, members: set<Handle>)
    reads members`nextHash
  {
    && (forall h :: h in chain ==> h in members)
    && Chained(slot, chain)
  }

  lemma OtherChains(chains: seq<seq<Handle>>, members: set<Handle>, bucket: nat)
    requires Buckets(chains, members) && bucket < |chains|
    ensures NoRepeats(chains[bucket])
    ensures forall i, h :: 0 <= i < |chains| && i != bucket && h in chains[i] ==> h in members && h !in chains[bucket]
  {
    hide BucketOf;
    forall i, h | 0 <= i < |chains| && i != bucket && h in chains[i] ensures h in members && h !in chains[bucket] {
      assert BucketOf(h.hash, |chains|) == i;
    }
  }

  // The chain of a slot with a handle put in, in the place of another or at the end.
  ghost function Replaced(chain: seq<Handle>, j: nat, h: Handle): seq<Handle>
    requires j <= |chain|
  {
    chain[..j] + [h] + if j == |chain| then [] else chain[j + 1..]
  }

  lemma BucketsReplace(chains: seq<seq<Handle>>, members: set<Handle>, bucket: nat, j: nat, h: Handle)
    requires Buckets(chains, members) && bucket < |chains| && j <= |chains[bucket]|
    requires h !in members && BucketOf(h.hash, |chains|) == bucket
    ensures var chain := chains[bucket];
      Buckets(chains[bucket := Replaced(chain, j, h)], members - {At(chain, j)} + {h})
  {
    hide BucketOf, Replaced;
    var chain := chains[bucket];
    var more := Replaced(chain, j, h);
    assert h !in chain;
    ReplacedElements(chain, j, h);
    var out := At(chain, j);
    assert out != null ==> out in chain && BucketOf(out.hash, |chains|) == bucket;
    var all := chains[bucket := more];
    forall g | g in members - {out} + {h} ensures g in all[BucketOf(g.hash, |all|)] {
      if g != h {
        assert g in chains[BucketOf(g.hash, |chains|)];
        assert BucketOf(g.hash, |chains|) == bucket ==> g in more;
      } else {
        assert g in more;
      }
    }
    forall i, g | 0 <= i < |all| && g in all[i] ensures g in members - {out} + {h} && BucketOf(g.hash, |all|) == i {
      if i == bucket {
        ReplacedElement(chain, j, h, g);
      } else {
        assert g in chains[i] && BucketOf(g.hash, |chains|) == i;
      }
    }
  }

  ghost function Without(chain: seq<Handle>, j: nat): seq<Handle>
    requires j < |chain|
  {
    chain[..j] + chain[j + 1..]
  }

  lemma BucketsWithout(chains: seq<seq<Handle>>, members: set<Handle>, bucket: nat, j: nat)
    requires Buckets(chains, members) && bucket < |chains| && j < |chains[bucket]|
    ensures Buckets(chains[bucket := Without(chains[bucket], j)], members - {chains[bucket][j]})
  {
    hide BucketOf;
    var chain := chains[bucket];
    var less, out := Without(chain, j), chain[j];
    WithoutElements(chain, j);
    assert NoRepeats(less);
    assert out in chain && BucketOf(out.hash, |chains|) == bucket;
    var all := chains[bucket := less];
    forall g | g in members - {out} ensures g in all[BucketOf(g.hash, |all|)] {
      assert g in chains[BucketOf(g.hash, |chains|)];
    }
  }

  lemma WithoutElements(chain: seq<Handle>, j: nat)
    requires j < |chain| && NoRepeats(chain)
    ensures forall g :: g in Without(chain, j) <==> g in chain && g != chain[j]
  {
    var less := Without(chain, j);
    forall g | g in chain && g != chain[j] ensures g in less {
      var k :| 0 <= k < |chain| && chain[k] == g;
      assert less[if k < j then k else k - 1] == g;
    }
  }

  lemma KeysWithout(members: set<Handle>, h: Handle)
    requires OnePerKey(members) && h in members
    ensures OnePerKey(members - {h}) && |members - {h}| == |members| - 1
  {
  }

  lemma ChainedWithout(slot: Handle?, chain: seq<Handle>, j: nat, next: Handle?)
    requires j < |chain| && (forall k :: 0 <= k < |chain| && k != j - 1 ==> chain[k].nextHash == At(chain, k + 1))
    requires next == At(chain, j + 1)
    requires if j == 0 then slot == next else slot == chain[0] && chain[j - 1].nextHash == next
    ensures Chained(slot, Without(chain, j))
  {
  }

  // ---------- moving to new buckets ----------

  lemma NoneMoved(newSlots: seq<Handle?>, newChains: seq<seq<Handle>>, slots: seq<Handle?>, chains: seq<seq<Handle>>,
    members: set<Handle>)
    requires |newSlots| == |newChains| > 0 && |slots| == |chains| > 0 && Buckets(chains, members)
    requires forall k :: 0 <= k < |newChains| ==> newChains[k] == [] && newSlots[k] == null
    requires forall k :: 0 <= k < |chains| ==> Links(slots[k], chains[k], members)
    ensures Moving(newSlots, newChains, {}, slots, chains, members, 0, [])
  {
  }

  lemma MovingStart(newSlots: seq<Handle?>, newChains: seq<seq<Handle>>, moved: set<Handle>, slots: seq<Handle?>,
    chains: seq<seq<Handle>>, members: set<Handle>, i: nat)
    requires Moving(newSlots, newChains, moved, slots, chains, members, i, []) && i < |chains|
    ensures Moving(newSlots, newChains, moved, slots, chains, members, i + 1, chains[i])
    ensures Links(slots[i], chains[i], members)
  {
    assert Links(slots[i], chains[i], members);
  }

  lemma AllMoved(newSlots: seq<Handle?>, newChains: seq<seq<Handle>>, moved: set<Handle>, slots: seq<Handle?>,
    chains: seq<seq<Handle>>, members: set<Handle>)
    requires Moving(newSlots, newChains, moved, slots, chains, members, |chains|, [])
    ensures moved == members && Buckets(newChains, members)
    ensures forall k :: 0 <= k < |newChains| ==> Links(newSlots[k], newChains[k], members)
  {
  }

  lemma HeadOfChain(h: Handle?, rest: seq<Handle>, members: set<Handle>)
    requires Links(h, rest, members)
    ensures if h == null then rest == [] else rest != [] && rest[0] == h && h in members
  {
  }

  lemma UnlinkHead(rest: seq<Handle>, members: set<Handle>)
    requires rest != [] && Links(rest[0], rest, members)
    ensures Links(rest[0].nextHash, rest[1..], members)
  {
    assert forall j :: 0 <= j < |rest| - 1 ==> rest[1..][j] == rest[j + 1];
  }

  lemma PushFront(h: Handle, chain: seq<Handle>, members: set<Handle>)
    requires h in members && Links(h.nextHash, chain, members)
    ensures Links(h, [h] + chain, members)
  {
  }

  ghost predicate MovedBelow(members: set<Handle>, moved: set<Handle>, n: nat, i: nat, rest: seq<Handle>)
    requires n > 0
  {
    forall h :: h in members ==> (h in moved <==> BucketOf(h.hash, n) < i && h !in rest)
  }

  lemma MovedRest(members: set<Handle>, moved: set<Handle>, n: nat, i: nat, rest: seq<Handle>)
    requires n > 0 && MovedBelow(members, moved, n, i, rest)
    requires rest != [] && NoRepeats(rest) && forall h :: h in rest ==> BucketOf(h.hash, n) < i
    ensures MovedBelow(members, moved + {rest[0]}, n, i, rest[1..]) && NoRepeats(rest[1..])
    ensures rest[0] !in rest[1..] && forall h :: h in rest[1..] ==> h in rest
  {
    hide BucketOf;
    var h := rest[0];
    assert forall g :: g in rest <==> g == h || g in rest[1..];
    assert forall j :: 0 <= j < |rest| - 1 ==> rest[1..][j] == rest[j + 1];
  }

  lemma NotChained(chains: seq<seq<Handle>>, members: set<Handle>, h: Handle)
    requires Buckets(chains, members) && |chains| > 0
    ensures h !in members ==> forall k :: 0 <= k < |chains| ==> h !in chains[k]
    ensures forall k :: BucketOf(h.hash, |chains|) < k < |chains| ==> h !in chains[k]
  {
    hide BucketOf;
  }

  lemma MovedBuckets(newChains: seq<seq<Handle>>, moved: set<Handle>, h: Handle)
    requires |newChains| > 0
    requires Buckets(newChains, moved) && h !in moved
    ensures var k := BucketOf(h.hash, |newChains|); Buckets(newChains[k := [h] + newChains[k]], moved + {h})
  {
    hide BucketOf;
    var k := BucketOf(h.hash, |newChains|);
    var all := newChains[k := [h] + newChains[k]];
    forall g | g in moved + {h} ensures g in all[BucketOf(g.hash, |all|)] {
      if g != h {
        assert g in newChains[BucketOf(g.hash, |newChains|)];
      }
    }
  }

  lemma ReplacedElement(chain: seq<Handle>, j: nat, h: Handle, g: Handle)
    requires j <= |chain| && NoRepeats(chain)
    ensures g in Replaced(chain, j, h) <==> g == h || (g in chain && g != At(chain, j))
  {
    ReplacedElements(chain, j, h);
  }

  lemma ReplacedElements(chain: seq<Handle>, j: nat, h: Handle)
    requires j <= |chain| && NoRepeats(chain)
    ensures forall g :: g in Replaced(chain, j, h) <==> g == h || (g in chain && g != At(chain, j))
    ensures h !in chain ==> NoRepeats(Replaced(chain, j, h))
  {
    var more := Replaced(chain, j, h);
    forall g | g == h || (g in chain && g != At(chain, j)) ensures g in more {
      if g == h {
        assert more[j] == h;
      } else {
        var k :| 0 <= k < |chain| && chain[k] == g;
        assert more[k] == g;
      }
    }
  }

  lemma KeysReplace(members: set<Handle>, replaced: Handle?, h: Handle)
    requires OnePerKey(members) && h !in members
    requires replaced != null ==> replaced in members && replaced.Is(h.key, h.hash)
    requires replaced == null ==> forall g :: g in members ==> !g.Is(h.key, h.hash)
    ensures OnePerKey(members - {replaced} + {h})
    ensures |members - {replaced} + {h}| == |members| + if replaced == null then 1 else 0
  {
  }

  lemma ChainedWith(slot: Handle?, chain: seq<Handle>, j: nat, h: Handle)
    requires j <= |chain| && h.nextHash == At(chain, j + 1)
    requires forall k :: 0 <= k < |chain| && k != j - 1 && k != j ==> chain[k].nextHash == At(chain, k + 1)
    requires if j == 0 then slot == h else slot == chain[0] && chain[j - 1].nextHash == h
    ensures Chained(slot, Replaced(chain, j, h))
  {
  }
}
