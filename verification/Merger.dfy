/** Merging sorted lists: a cursor over their union, made of one cursor per list. */
module Merger {
  import opened Keys
  import opened Tables
  import opened Cursors

  /** `merged` is the sorted union of the lists, and no key occurs in two of them. */
  ghost predicate IsUnion(lists: seq<seq<Entry>>, merged: seq<Entry>) {
    && Sorted(merged)
    && (forall i :: 0 <= i < |lists| ==> Sorted(lists[i]) && forall e :: e in lists[i] ==> e in merged)
    && (forall e :: e in merged ==> exists i :: 0 <= i < |lists| && e in lists[i])
    && (forall i, j, e, x :: 0 <= i < j < |lists| && e in lists[i] && x in lists[j] ==> e.key != x.key)
  }

  /** The entries of the list before `pos` are those it has in merged[..c]: the cursor stands on its first entry that
      belongs to merged[c..]. */
  ghost predicate AtCut(es: seq<Entry>, merged: seq<Entry>, pos: nat, c: nat) {
    && c <= |merged| && pos <= |es|
    && forall j, k :: 0 <= j < |es| && 0 <= k < |merged| && es[j] == merged[k] ==> (j < pos <==> k < c)
  }

  /** The cursor stands on the last entry that belongs to merged[..c], or is not valid if there is none. */
  ghost predicate AtBack(es: seq<Entry>, merged: seq<Entry>, pos: nat, c: nat) {
    pos <= |es| && AtCut(es, merged, if pos == |es| then 0 else pos + 1, c)
  }

  ghost predicate Part(es: seq<Entry>, merged: seq<Entry>) {
    Sorted(es) && Sorted(merged) && forall e :: e in es ==> e in merged
  }

  lemma SortedKeys(es: seq<Entry>, i: nat, j: nat)
    requires Sorted(es) && i < |es| && j < |es|
    ensures Less(es[i].key, es[j].key) <==> i < j
    ensures es[i].key == es[j].key ==> i == j
  {
    LessTotal(es[i].key, es[j].key);
    assert i < j ==> Less(es[i].key, es[j].key);
    assert j < i ==> Less(es[j].key, es[i].key);
  }

  // A list and the union agree on the order of their common entries.
  lemma SameOrder(es: seq<Entry>, merged: seq<Entry>, i: nat, a: nat, j: nat, b: nat)
    requires Sorted(es) && Sorted(merged) && i < |es| && j < |es| && a < |merged| && b < |merged|
    requires es[i] == merged[a] && es[j] == merged[b]
    ensures i < j <==> a < b
  {
    SortedKeys(es, i, j);
    SortedKeys(merged, a, b);
  }

  lemma Rank(es: seq<Entry>, merged: seq<Entry>, i: nat) returns (k: nat)
    requires Part(es, merged) && i < |es|
    ensures k < |merged| && merged[k] == es[i]
  {
    assert es[i] in es;
    k :| 0 <= k < |merged| && merged[k] == es[i];
  }

  /** Moving the cut past one entry moves the cursor that stands on it, and no other. */
  lemma CutAdvance(es: seq<Entry>, merged: seq<Entry>, pos: nat, c: nat)
    requires Part(es, merged) && AtCut(es, merged, pos, c) && c < |merged|
    ensures merged[c] in es ==> pos < |es| && es[pos] == merged[c] && AtCut(es, merged, pos + 1, c + 1)
    ensures merged[c] !in es ==> AtCut(es, merged, pos, c + 1)
  {
    if merged[c] in es {
      var i :| 0 <= i < |es| && es[i] == merged[c];
      var k := Rank(es, merged, pos);
      SameOrder(es, merged, pos, k, i, c);
      forall j, b | 0 <= j < |es| && 0 <= b < |merged| && es[j] == merged[b] ensures j < pos + 1 <==> b < c + 1 {
        SameOrder(es, merged, j, b, pos, c);
      }
    } else {
      forall j, b | 0 <= j < |es| && 0 <= b < |merged| && es[j] == merged[b] ensures j < pos <==> b < c + 1 {
        assert es[j] in es;
      }
    }
  }

  /** There is one place to stand for each cut. */
  lemma CutOfSeek(es: seq<Entry>, merged: seq<Entry>, key: InternalKey, pos: nat, c: nat)
    requires Part(es, merged) && pos <= |es| && c <= |merged|
    requires forall i :: 0 <= i < pos ==> Less(es[i].key, key)
    requires forall i :: pos <= i < |es| ==> !Less(es[i].key, key)
    requires forall i :: 0 <= i < c ==> Less(merged[i].key, key)
    requires forall i :: c <= i < |merged| ==> !Less(merged[i].key, key)
    ensures AtCut(es, merged, pos, c)
  {
  }

  // The smallest among the cursors that stand at a cut is the next entry of the union.
  lemma HeadIsLater(es: seq<Entry>, merged: seq<Entry>, pos: nat, c: nat)
    requires Part(es, merged) && AtCut(es, merged, pos, c) && pos < |es|
    ensures c < |merged| && (es[pos] == merged[c] || Less(merged[c].key, es[pos].key))
  {
    var k := Rank(es, merged, pos);
    SortedKeys(merged, c, k);
  }

  lemma TailIsEarlier(es: seq<Entry>, merged: seq<Entry>, pos: nat, c: nat)
    requires Part(es, merged) && AtBack(es, merged, pos, c) && pos < |es|
    ensures 0 < c <= |merged| && (es[pos] == merged[c - 1] || Less(es[pos].key, merged[c - 1].key))
  {
    var k := Rank(es, merged, pos);
    SortedKeys(merged, k, c - 1);
  }

  // Stepping back from a cut.
  lemma BackOfCut(es: seq<Entry>, merged: seq<Entry>, pos: nat, c: nat)
    requires AtCut(es, merged, pos, c)
    ensures AtBack(es, merged, if pos == 0 then |es| else pos - 1, c)
  {
  }

  lemma SeekCut(es: seq<Entry>, merged: seq<Entry>, pos: nat, c: nat)
    requires Part(es, merged) && c < |merged| && pos <= |es|
    requires forall i :: 0 <= i < pos ==> Less(es[i].key, merged[c].key)
    requires forall i :: pos <= i < |es| ==> !Less(es[i].key, merged[c].key)
    ensures AtCut(es, merged, pos, c)
  {
    forall j, k | 0 <= j < |es| && 0 <= k < |merged| && es[j] == merged[k] ensures j < pos <==> k < c {
      SortedKeys(merged, k, c);
    }
  }

  // The same for a list that does not hold merged[c].
  lemma OtherSeek(es: seq<Entry>, merged: seq<Entry>, pos: nat, c: nat)
    requires Part(es, merged) && c < |merged| && pos <= |es| && merged[c] !in es
    requires forall i :: 0 <= i < pos ==> Less(es[i].key, merged[c].key)
    requires forall i :: pos <= i < |es| ==> !Less(es[i].key, merged[c].key)
    ensures AtCut(es, merged, pos, c + 1)
    ensures pos < |es| ==> es[pos].key != merged[c].key
  {
    SeekCut(es, merged, pos, c);
    CutAdvance(es, merged, pos, c);
    if pos < |es| {
      assert es[pos] in es;
      var k := Rank(es, merged, pos);
      SortedKeys(merged, k, c);
    }
  }

  lemma NotOwnerBack(es: seq<Entry>, merged: seq<Entry>, pos: nat, c: nat)
    requires AtBack(es, merged, pos, c + 1) && c < |merged| && merged[c] !in es
    ensures AtBack(es, merged, pos, c)
  {
    forall j | 0 <= j < |es| ensures es[j] != merged[c] {
      assert es[j] in es;
    }
  }

  lemma OwnerCut(es: seq<Entry>, merged: seq<Entry>, pos: nat, c: nat)
    requires Part(es, merged) && c < |merged| && pos < |es| && es[pos] == merged[c]
    ensures AtCut(es, merged, pos, c)
  {
    forall j, k | 0 <= j < |es| && 0 <= k < |merged| && es[j] == merged[k] ensures j < pos <==> k < c {
      SameOrder(es, merged, j, k, pos, c);
    }
  }

  /** An iterator over the union of its children. */
  class MergingIterator {
    const children: seq<Cursor>
    ghost const merged: seq<Entry>
    var current: nat  // |children| when not valid
    var direction: Direction
    // The entry of the union the iterator is at.
    ghost var at: nat

    ghost function Lists(): seq<seq<Entry>> {
      seq(|children|, i requires 0 <= i < |children| => children[i].es)
    }

    // Everything that never changes.
    ghost predicate Fixed() {
      && IsUnion(Lists(), merged)
      && (forall i, j :: 0 <= i < j < |children| ==> children[i] != children[j])
      && forall i :: 0 <= i < |children| ==> Part(children[i].es, merged)
    }

    ghost predicate AllAtCut(c: nat)
      reads children
    {
      forall i :: 0 <= i < |children| ==> AtCut(children[i].es, merged, children[i].pos, c)
    }

    ghost predicate AllAtBack(c: nat)
      reads children
    {
      forall i :: 0 <= i < |children| ==> AtBack(children[i].es, merged, children[i].pos, c)
    }

    /** Moving forward, every child stands on its first entry not before the current one; moving backward, on its last
        entry not after it. */
    ghost predicate Ok(): (ok: bool)
      reads this, children
      ensures ok ==> Sorted(merged) && at <= |merged| && (Valid() <==> at < |merged|)
    {
      && Fixed() && (forall i :: 0 <= i < |children| ==> children[i].Ok())
      && at <= |merged| && current <= |children|
      && (current < |children| <==> at < |merged|)
      && (at < |merged| ==>
            && children[current].Valid() && children[current].es[children[current].pos] == merged[at]
            && if direction == Forward then AllAtCut(at) else AllAtBack(at + 1))
    }

    predicate Valid()
      reads this
    {
      current < |children|
    }

    function CurrentEntry(): (e: Entry)
      requires Ok() && Valid()
      reads this, children
      ensures e == merged[at]
    {
      children[current].es[children[current].pos]
    }

    constructor (children: seq<Cursor>, ghost merged: seq<Entry>)
      requires forall i, j :: 0 <= i < j < |children| ==> children[i] != children[j]
      requires forall i :: 0 <= i < |children| ==> children[i].Ok()
      requires IsUnion(seq(|children|, i requires 0 <= i < |children| => children[i].es), merged)
      ensures Ok() && at == |merged| && this.children == children && this.merged == merged
    {
      this.children, this.merged := children, merged;
      current, direction := |children|, Forward;
      at := |merged|;
      new;
      forall i | 0 <= i < |children| ensures Part(children[i].es, merged) {
        assert Lists()[i] == children[i].es;
      }
    }

    function HeadKey(i: nat): InternalKey
      requires i < |children| && children[i].Valid()
      reads children
    {
      children[i].es[children[i].pos].key
    }

    // The child that holds an entry of the union.
    lemma Owner(c: nat) returns (o: nat)
      requires Fixed() && c < |merged|
      ensures o < |children| && merged[c] in children[o].es
      ensures forall i :: 0 <= i < |children| && i != o ==> merged[c] !in children[i].es
    {
      assert merged[c] in merged;
      o :| 0 <= o < |Lists()| && merged[c] in Lists()[o];
      forall i | 0 <= i < |children| && i != o ensures merged[c] !in children[i].es {
        assert Lists()[i] == children[i].es;
      }
    }

    method FindSmallest(ghost c: nat)
      requires Fixed() && (forall i :: 0 <= i < |children| ==> children[i].Ok()) && direction == Forward
      requires c <= |merged| && AllAtCut(c)
      modifies this
      ensures Ok() && at == c && direction == old(direction)
    {
      hide IsUnion, AtCut, AtBack, Part, Sorted;
      var smallest: nat := |children|;
      for i := 0 to |children|
        invariant smallest <= |children|
        invariant smallest == |children| ==> forall k :: 0 <= k < i ==> !children[k].Valid()
        invariant smallest < |children| ==> children[smallest].Valid()
        invariant smallest < |children| ==>
          forall k :: 0 <= k < i && children[k].Valid() ==> !Less(HeadKey(k), HeadKey(smallest))
      {
        if children[i].Valid() {
          if smallest == |children| {
            smallest := i;
          } else if Less(HeadKey(i), HeadKey(smallest)) {
            smallest := i;
          }
        }
      }
      current := smallest;
      at := c;
      if c < |merged| {
        var o := Owner(c);
        CutAdvance(children[o].es, merged, children[o].pos, c);
      }
      if smallest < |children| {
        HeadIsLater(children[smallest].es, merged, children[smallest].pos, c);
      }
    }

    method FindLargest(ghost c: nat)
      requires Fixed() && (forall i :: 0 <= i < |children| ==> children[i].Ok()) && direction == Reverse
      requires c <= |merged| && AllAtBack(c)
      modifies this
      ensures Ok() && at == (if c == 0 then |merged| else c - 1) && direction == old(direction)
    {
      hide IsUnion, AtCut, AtBack, Part, Sorted;
      var largest: nat := |children|;
      var i: nat := |children|;
      while i > 0
        invariant i <= |children| && largest <= |children|
        invariant largest == |children| ==> forall k :: i <= k < |children| ==> !children[k].Valid()
        invariant largest < |children| ==> children[largest].Valid()
        invariant largest < |children| ==>
          forall k :: i <= k < |children| && children[k].Valid() ==> !Less(HeadKey(largest), HeadKey(k))
      {
        i := i - 1;
        if children[i].Valid() {
          if largest == |children| {
            largest := i;
          } else if Less(HeadKey(largest), HeadKey(i)) {
            largest := i;
          }
        }
      }
      current := largest;
      at := if c == 0 then |merged| else c - 1;
      if c > 0 {
        var o := Owner(c - 1);
        BackStands(children[o].es, merged, children[o].pos, c);
      }
      if largest < |children| {
        TailIsEarlier(children[largest].es, merged, children[largest].pos, c);
      }
    }

    ghost predicate ChildrenOk()
      reads children
    {
      Fixed() && forall i :: 0 <= i < |children| ==> children[i].Ok()
    }

    method SeekToFirst()
      requires Ok()
      modifies this, children
      ensures Ok() && at == 0
    {
      for i := 0 to |children|
        invariant ChildrenOk()
        invariant forall k :: 0 <= k < i ==> AtCut(children[k].es, merged, children[k].pos, 0)
      {
        children[i].SeekToFirst();
      }
      direction := Forward;
      FindSmallest(0);
    }

    method SeekToLast()
      requires Ok()
      modifies this, children
      ensures Ok() && at == if merged == [] then |merged| else |merged| - 1
    {
      for i := 0 to |children|
        invariant ChildrenOk()
        invariant forall k :: 0 <= k < i ==> AtBack(children[k].es, merged, children[k].pos, |merged|)
      {
        children[i].SeekToLast();
      }
      direction := Reverse;
      FindLargest(|merged|);
    }

    method Seek(target: InternalKey)
      requires Ok()
      modifies this, children
      ensures Ok()
      ensures forall i :: 0 <= i < at ==> Less(merged[i].key, target)
      ensures forall i :: at <= i < |merged| ==> !Less(merged[i].key, target)
    {
      ghost var c := CutFor(target);
      for i := 0 to |children|
        invariant ChildrenOk()
        invariant forall k :: 0 <= k < i ==> AtCut(children[k].es, merged, children[k].pos, c)
      {
        children[i].Seek(target);
        CutOfSeek(children[i].es, merged, target, children[i].pos, c);
      }
      direction := Forward;
      FindSmallest(c);
    }

    lemma CutFor(target: InternalKey) returns (c: nat)
      requires Sorted(merged)
      ensures c <= |merged|
      ensures forall i :: 0 <= i < c ==> Less(merged[i].key, target)
      ensures forall i :: c <= i < |merged| ==> !Less(merged[i].key, target)
    {
      c := 0;
      while c < |merged| && Less(merged[c].key, target)
        invariant c <= |merged| && forall i :: 0 <= i < c ==> Less(merged[i].key, target)
      {
        c := c + 1;
      }
      forall i | c <= i < |merged| ensures !Less(merged[i].key, target) {
        assert c < i ==> Less(merged[c].key, merged[i].key);
      }
    }

    method Next()
      requires Ok() && Valid()
      modifies this, children
      ensures Ok() && at == old(at) + 1
    {
      if direction != Forward {
        TurnForward();
      } else {
        AdvanceOthers();
      }
      children[current].Next();
      FindSmallest(at + 1);
    }

    // All other children have no entry equal to the current one, so they already stand past it.
    lemma AdvanceOthers()
      requires Ok() && Valid() && direction == Forward
      ensures forall i :: 0 <= i < |children| && i != current ==>
        AtCut(children[i].es, merged, children[i].pos, at + 1)
      ensures AtCut(children[current].es, merged, children[current].pos + 1, at + 1)
    {
      var o := Owner(at);
      CutAdvance(children[o].es, merged, children[o].pos, at);
      assert children[current].es[children[current].pos] in children[current].es;
      forall i | 0 <= i < |children| && i != current ensures AtCut(children[i].es, merged, children[i].pos, at + 1) {
        CutAdvance(children[i].es, merged, children[i].pos, at);
      }
    }

    /** Switches to moving forward: every other child is put on its first entry after the current one. */
    method TurnForward()
      requires Ok() && Valid() && direction == Reverse
      modifies children, this`direction
      ensures ChildrenOk() && direction == Forward
      ensures children[current].pos == old(children[current].pos)
      ensures forall i :: 0 <= i < |children| && i != current ==>
        AtCut(children[i].es, merged, children[i].pos, at + 1)
      ensures AtCut(children[current].es, merged, children[current].pos + 1, at + 1)
    {
      hide IsUnion, AtCut, Part, Sorted;
      var key := CurrentEntry().key;
      var o := Owner(at);
      assert children[current].es[children[current].pos] in children[current].es;
      for i := 0 to |children|
        invariant ChildrenOk() && children[current].pos == old(children[current].pos)
        invariant forall k :: 0 <= k < i && k != current ==>
          AtCut(children[k].es, merged, children[k].pos, at + 1)
      {
        if i != current {
          children[i].Seek(key);
          OtherSeek(children[i].es, merged, children[i].pos, at);
          if children[i].Valid() && children[i].es[children[i].pos].key == key {
            assert false;
          }
        }
      }
      direction := Forward;
    }

    method Prev()
      requires Ok() && Valid()
      modifies this, children
      ensures Ok() && at == if old(at) == 0 then |merged| else old(at) - 1
    {
      if direction != Reverse {
        TurnReverse();
      } else {
        RetreatOthers();
      }
      children[current].Prev();
      FindLargest(at);
    }

    lemma RetreatOthers()
      requires Ok() && Valid() && direction == Reverse
      ensures forall i :: 0 <= i < |children| && i != current ==>
        AtBack(children[i].es, merged, children[i].pos, at)
      ensures AtCut(children[current].es, merged, children[current].pos, at)
    {
      var o := Owner(at);
      assert children[current].es[children[current].pos] in children[current].es;
      forall i | 0 <= i < |children| && i != current ensures AtBack(children[i].es, merged, children[i].pos, at) {
        NotOwnerBack(children[i].es, merged, children[i].pos, at);
      }
      OwnerCut(children[current].es, merged, children[current].pos, at);
    }

    /** Switches to moving backward: every other child is put on its last entry before the current one. */
    method TurnReverse()
      requires Ok() && Valid() && direction == Forward
      modifies children, this`direction
      ensures ChildrenOk() && direction == Reverse
      ensures children[current].pos == old(children[current].pos)
      ensures forall i :: 0 <= i < |children| && i != current ==>
        AtBack(children[i].es, merged, children[i].pos, at)
      ensures AtCut(children[current].es, merged, children[current].pos, at)
    {
      hide IsUnion, AtCut, AtBack, Part, Sorted;
      var key := CurrentEntry().key;
      var o := Owner(at);
      assert children[current].es[children[current].pos] in children[current].es;
      for i := 0 to |children|
        invariant ChildrenOk() && children[current].pos == old(children[current].pos)
        invariant forall k :: 0 <= k < i && k != current ==> AtBack(children[k].es, merged, children[k].pos, at)
      {
        if i != current {
          children[i].Seek(key);
          SeekCut(children[i].es, merged, children[i].pos, at);
          BackOfCut(children[i].es, merged, children[i].pos, at);
          if children[i].Valid() {
            children[i].Prev();
          } else {
            children[i].SeekToLast();
          }
        }
      }
      direction := Reverse;
    }
  }

  // The list that holds the entry before the cut has its cursor on it.
  lemma BackStands(es: seq<Entry>, merged: seq<Entry>, pos: nat, c: nat)
    requires Part(es, merged) && AtBack(es, merged, pos, c) && 0 < c <= |merged| && merged[c - 1] in es
    ensures pos < |es| && es[pos] == merged[c - 1]
  {
    var i :| 0 <= i < |es| && es[i] == merged[c - 1];
    if pos < |es| {
      var k := Rank(es, merged, pos);
      SameOrder(es, merged, i, c - 1, pos, k);
    }
  }
}
