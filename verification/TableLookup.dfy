/** Finding a key in a table: a shortened key per block leads to the one block that can hold the answer. */
module TableLookup {
  import opened Options
  import opened Coding
  import opened Separators
  import opened Filters

  datatype Entry = Entry(key: InternalKey, value: Bytes)

  /** Entries in order, no key twice. */
  ghost predicate Sorted(es: seq<Entry>) {
    forall i, j :: 0 <= i < j < |es| ==> Before(es[i].key, es[j].key)
  }

  /** Blocks in order, each of them and one after the other. */
  ghost predicate InOrder(blocks: seq<seq<Entry>>) {
    && (forall b :: 0 <= b < |blocks| ==> Sorted(blocks[b]))
    && forall b, c :: 0 <= b < c < |blocks| ==> AllBefore(blocks[b], blocks[c])
  }

  ghost predicate AllBefore(a: seq<Entry>, b: seq<Entry>) {
    forall e, x :: e in a && x in b ==> Before(e.key, x.key)
  }

  ghost predicate InTable(blocks: seq<seq<Entry>>, e: Entry) {
    exists b :: 0 <= b < |blocks| && e in blocks[b]
  }

  // ---------- the index ----------

  function Last(b: seq<Entry>): InternalKey
    requires b != []
  {
    b[|b| - 1].key
  }

  /** Each index key separates its block from the next; the one of the last block comes after it. */
  ghost predicate IndexOf(blocks: seq<seq<Entry>>, index: seq<InternalKey>) {
    && |index| == |blocks|
    && (forall i :: 0 <= i < |blocks| ==> blocks[i] != [] && Succeeds(Last(blocks[i]), index[i]))
    && (forall i :: 0 <= i < |blocks| - 1 ==> Separates(Last(blocks[i]), index[i], blocks[i + 1][0].key))
  }

  // ---------- the builder ----------

  /** One index key for each block written, but for one whose key waits for the next entry. */
  ghost predicate IndexSoFar(blocks: seq<seq<Entry>>, current: seq<Entry>, index: seq<InternalKey>,
    lastKey: InternalKey, pending: bool)
  {
    && |blocks| == |index| + (if pending then 1 else 0)
    && (forall i :: 0 <= i < |blocks| ==> blocks[i] != [])
    && (forall i :: 0 <= i < |index| ==> Succeeds(Last(blocks[i]), index[i]))
    && (forall i :: 0 <= i < |index| && i < |blocks| - 1 ==> Separates(Last(blocks[i]), index[i], blocks[i + 1][0].key))
    && (if pending then current == [] && lastKey == Last(blocks[|blocks| - 1])
        else blocks != [] ==>
          current != [] && Separates(Last(blocks[|blocks| - 1]), index[|index| - 1], current[0].key))
    && (current != [] ==> lastKey == Last(current))
  }

  lemma AddIndex(blocks: seq<seq<Entry>>, current: seq<Entry>, index: seq<InternalKey>, lastKey: InternalKey,
    pending: bool, e: Entry, separator: InternalKey)
    requires IndexSoFar(blocks, current, index, lastKey, pending)
    requires pending ==> Separates(lastKey, separator, e.key)
    ensures IndexSoFar(blocks, current + [e], if pending then index + [separator] else index, e.key, false)
  {
    hide Less;
  }

  lemma FlushIndex(blocks: seq<seq<Entry>>, current: seq<Entry>, index: seq<InternalKey>, lastKey: InternalKey)
    requires IndexSoFar(blocks, current, index, lastKey, false) && current != []
    ensures IndexSoFar(blocks + [current], [], index, lastKey, true)
  {
    hide Less;
  }

  lemma FinishIndex(blocks: seq<seq<Entry>>, index: seq<InternalKey>, lastKey: InternalKey, pending: bool,
    successor: InternalKey)
    requires IndexSoFar(blocks, [], index, lastKey, pending) && (pending ==> Succeeds(lastKey, successor))
    ensures IndexOf(blocks, if pending then index + [successor] else index)
  {
    hide Less, Separates, Succeeds, Last;
  }

  lemma AddOrder(blocks: seq<seq<Entry>>, current: seq<Entry>, e: Entry)
    requires InOrder(blocks + [current])
    requires forall x :: InTable(blocks + [current], x) ==> Before(x.key, e.key)
    ensures InOrder(blocks + [current + [e]])
    ensures forall x :: InTable(blocks + [current + [e]], x) <==> InTable(blocks + [current], x) || x == e
  {
    hide Before;
    var all, more := blocks + [current], blocks + [current + [e]];
    var m := |blocks|;
    forall x ensures InTable(more, x) <==> InTable(all, x) || x == e {
      if InTable(all, x) {
        var b :| 0 <= b < |all| && x in all[b];
        assert x in more[b];
      }
      if x == e {
        assert x in more[m];
      }
      if InTable(more, x) {
        var b :| 0 <= b < |more| && x in more[b];
        assert x in all[b] || x == e;
      }
    }
    forall b | 0 <= b < |more| ensures Sorted(more[b]) {
      assert Sorted(all[b]);
      forall i | 0 <= i < |current| ensures Before(current[i].key, e.key) {
        assert current[i] in all[m] && InTable(all, current[i]);
      }
    }
    forall b, c | 0 <= b < c < |more| ensures AllBefore(more[b], more[c]) {
      assert AllBefore(all[b], all[c]);
      forall x: Entry | x in more[b] ensures Before(x.key, e.key) {
        assert x in all[b] && InTable(all, x);
      }
    }
  }

  lemma FlushOrder(blocks: seq<seq<Entry>>, current: seq<Entry>)
    requires InOrder(blocks + [current])
    ensures InOrder(blocks + [current] + [[]])
    ensures forall x :: InTable(blocks + [current] + [[]], x) <==> InTable(blocks + [current], x)
  {
    hide Before;
    var all := blocks + [current];
    var more := all + [[]];
    forall x | InTable(all, x) ensures InTable(more, x) {
      var b :| 0 <= b < |all| && x in all[b];
      assert x in more[b];
    }
    forall x | InTable(more, x) ensures InTable(all, x) {
      var b :| 0 <= b < |more| && x in more[b];
      assert x in all[b];
    }
    forall b, c | 0 <= b < c < |more| ensures AllBefore(more[b], more[c]) {
      if c < |all| {
        assert AllBefore(all[b], all[c]);
      }
    }
  }

  /** The filter was given the key of each entry while the block it is in was being written. */
  ghost predicate Filed(added: seq<Added>, handles: seq<nat>, blocks: seq<seq<Entry>>) {
    && |handles| == |blocks|
    && forall i, e :: 0 <= i < |blocks| && e in blocks[i] ==> Added(handles[i], e.key.user) in added
  }

  /** A finished table. */
  datatype Table = Table(blocks: seq<seq<Entry>>, index: seq<InternalKey>, handles: seq<nat>, filter: Option<Bytes>)

  ghost predicate IsTable(t: Table, hash: Hash, entries: seq<Entry>) {
    && InOrder(t.blocks) && IndexOf(t.blocks, t.index) && |t.handles| == |t.blocks|
    && (forall e :: e in entries <==> InTable(t.blocks, e))
    && (t.filter.Some? ==> forall b, e :: 0 <= b < |t.blocks| && e in t.blocks[b] ==>
         KeyMayMatch(hash, t.filter.value, t.handles[b], e.key.user))
  }

  class TableBuilder {
    const filter: FilterBlockBuilder?
    var dataBlock: seq<Entry>
    var blocks: seq<seq<Entry>>          // written
    var handles: seq<nat>                // where
    var index: seq<InternalKey>
    var lastKey: InternalKey
    var pendingIndexEntry: bool
    var offset: nat
    ghost var entries: seq<Entry>

    ghost predicate Valid()
      reads this, filter
    {
      && InOrder(blocks + [dataBlock])
      && IndexSoFar(blocks, dataBlock, index, lastKey, pendingIndexEntry)
      && |handles| == |blocks|
      && (forall e :: e in entries <==> InTable(blocks + [dataBlock], e))
      && (filter != null ==>
           filter.Valid() && filter.at == offset && Filed(filter.added, handles + [offset], blocks + [dataBlock]))
    }

    constructor (filter: FilterBlockBuilder?)
      requires filter != null ==> filter.Valid() && filter.added == [] && filter.at == 0
      ensures Valid() && entries == [] && this.filter == filter
    {
      this.filter := filter;
      dataBlock, blocks, handles, index, entries := [], [], [], [], [];
      lastKey, pendingIndexEntry, offset := InternalKey([], 0), false, 0;
    }

    /** One entry more, behind all others; `full` tells whether its block has reached its size, which is `size`. */
    method Add(key: InternalKey, value: Bytes, full: bool, size: nat)
      requires Valid() && forall e :: e in entries ==> Before(e.key, key)
      modifies this, filter
      ensures Valid() && entries == old(entries) + [Entry(key, value)]
    {
      hide IndexSoFar, InOrder, InTable, Before, Filed, FilterBlockBuilder.Valid;
      var e := Entry(key, value);
      var separator := key;
      if pendingIndexEntry {
        separator := FindInternalSeparator(lastKey, key);
        index := index + [separator];
      }
      AddOrder(blocks, dataBlock, e);
      AddIndex(blocks, dataBlock, old(index), old(lastKey), pendingIndexEntry, e, separator);
      if filter != null {
        filter.AddKey(key.user);
        AddFiled(old(filter.added), handles, offset, blocks, dataBlock, e);
      }
      pendingIndexEntry := false;
      lastKey := key;
      dataBlock := dataBlock + [e];
      entries := entries + [e];
      if full {
        Flush(size);
      }
    }

    /** Writes the block, which takes `size` bytes. */
    method Flush(size: nat)
      requires Valid()
      modifies this, filter
      ensures Valid() && dataBlock == [] && entries == old(entries)
    {
      hide IndexSoFar, InOrder, InTable, Before, Filed, FilterBlockBuilder.Valid;
      if dataBlock == [] {
        return;
      }
      NotPending(blocks, dataBlock, index, lastKey, pendingIndexEntry);
      FlushIndex(blocks, dataBlock, index, lastKey);
      FlushOrder(blocks, dataBlock);
      if filter != null {
        FlushFiled(filter.added, handles, offset, offset + size, blocks, dataBlock);
      }
      blocks := blocks + [dataBlock];
      handles := handles + [offset];
      offset := offset + size;
      dataBlock := [];
      pendingIndexEntry := true;
      if filter != null {
        filter.StartBlock(offset);
      }
    }

    /** The table; all of it is good for lookups if the filters fit into 32-bit offsets. */
    method Finish(size: nat) returns (t: Table)
      requires Valid()
      modifies this, filter
      ensures entries == old(entries)
      ensures (t.filter.Some? ==> |t.filter.value| < Blocks.WORD) ==>
        IsTable(t, if filter == null then (_ => 0) else filter.hash, entries)
    {
      hide IndexSoFar, InOrder, InTable, Filed, FilterBlockBuilder.Valid, Covered, Finished, IndexOf, KeyMayMatch;
      Flush(size);
      var contents := None;
      if filter != null {
        var bytes := filter.Finish();
        contents := Some(bytes);
        if |bytes| < Blocks.WORD {
          FilterKnows(filter.hash, filter.added, filter.filters, handles, offset, blocks);
        }
      }
      var successor := lastKey;
      if pendingIndexEntry {
        successor := FindInternalSuccessor(lastKey);
      }
      FinishIndex(blocks, index, lastKey, pendingIndexEntry, successor);
      FinishOrder(blocks);
      if pendingIndexEntry {
        index := index + [successor];
        pendingIndexEntry := false;
      }
      t := Table(blocks, index, handles, contents);
    }
  }

  lemma FilterKnows(hash: Hash, added: seq<Added>, filters: seq<Bytes>, handles: seq<nat>, offset: nat,
    blocks: seq<seq<Entry>>)
    requires |handles| == |blocks| && Filed(added, handles + [offset], blocks + [[]])
    requires Covered(hash, added, filters, []) && |Finished(filters)| < Blocks.WORD
    ensures forall b, e :: 0 <= b < |blocks| && e in blocks[b] ==>
      KeyMayMatch(hash, Finished(filters), handles[b], e.key.user)
  {
    hide Covered, Finished, KeyMayMatch;
    forall b, e: Entry | 0 <= b < |blocks| && e in blocks[b]
      ensures KeyMayMatch(hash, Finished(filters), handles[b], e.key.user)
    {
      assert e in (blocks + [[]])[b] && (handles + [offset])[b] == handles[b];
      NoFalseNegative(hash, added, filters, Added(handles[b], e.key.user));
    }
  }

  lemma FinishOrder(blocks: seq<seq<Entry>>)
    requires InOrder(blocks + [[]])
    ensures InOrder(blocks)
    ensures forall e :: InTable(blocks + [[]], e) <==> InTable(blocks, e)
  {
    hide Before;
    var all := blocks + [[]];
    forall b | 0 <= b < |blocks| ensures Sorted(blocks[b]) {
      assert Sorted(all[b]);
    }
    forall b, c | 0 <= b < c < |blocks| ensures AllBefore(blocks[b], blocks[c]) {
      assert AllBefore(all[b], all[c]);
    }
    forall e | InTable(blocks, e) ensures InTable(all, e) {
      var b :| 0 <= b < |blocks| && e in blocks[b];
      assert e in all[b];
    }
    forall e | InTable(all, e) ensures InTable(blocks, e) {
      var b :| 0 <= b < |all| && e in all[b];
      assert e in blocks[b];
    }
  }

  lemma NotPending(blocks: seq<seq<Entry>>, current: seq<Entry>, index: seq<InternalKey>, lastKey: InternalKey,
    pending: bool)
    requires IndexSoFar(blocks, current, index, lastKey, pending) && current != []
    ensures !pending
  {
  }

  lemma AddFiled(added: seq<Added>, handles: seq<nat>, offset: nat, blocks: seq<seq<Entry>>, current: seq<Entry>,
    e: Entry)
    requires |handles| == |blocks| && Filed(added, handles + [offset], blocks + [current])
    ensures Filed(added + [Added(offset, e.key.user)], handles + [offset], blocks + [current + [e]])
  {
    var all, more := blocks + [current], blocks + [current + [e]];
    forall i, x: Entry | 0 <= i < |more| && x in more[i]
      ensures Added((handles + [offset])[i], x.key.user) in added + [Added(offset, e.key.user)]
    {
      if x in all[i] {
      }
    }
  }

  lemma FlushFiled(added: seq<Added>, handles: seq<nat>, offset: nat, next: nat, blocks: seq<seq<Entry>>,
    current: seq<Entry>)
    requires |handles| == |blocks| && Filed(added, handles + [offset], blocks + [current])
    ensures Filed(added, handles + [offset] + [next], blocks + [current] + [[]])
  {
    var all, more := blocks + [current], blocks + [current] + [[]];
    forall i, x: Entry | 0 <= i < |more| && x in more[i]
      ensures Added((handles + [offset] + [next])[i], x.key.user) in added
    {
      assert x in all[i];
    }
  }

  // ---------- lookup ----------

  /** What a reader at this key may see: entries of the same user key, not newer. */
  ghost predicate Visible(k: InternalKey, e: Entry) {
    e.key.user == k.user && e.key.tag <= k.tag
  }

  ghost predicate NewestVisible(k: InternalKey, entries: seq<Entry>, e: Entry) {
    e in entries && Visible(k, e) && forall x :: x in entries && Visible(k, x) ==> x.key.tag <= e.key.tag
  }

  /** The first key of the index not before the one sought. */
  method SeekIndex(index: seq<InternalKey>, k: InternalKey) returns (i: nat)
    ensures i <= |index| && (i < |index| ==> !Before(index[i], k))
    ensures forall j :: 0 <= j < i ==> Before(index[j], k)
  {
    i := 0;
    while i < |index| && Before(index[i], k)
      invariant i <= |index| && forall j :: 0 <= j < i ==> Before(index[j], k)
    {
      i := i + 1;
    }
  }

  /** The first entry of a block not before the key. */
  method SeekBlock(block: seq<Entry>, k: InternalKey) returns (i: nat)
    ensures i <= |block| && (i < |block| ==> !Before(block[i].key, k))
    ensures forall j :: 0 <= j < i ==> Before(block[j].key, k)
  {
    i := 0;
    while i < |block| && Before(block[i].key, k)
      invariant i <= |block| && forall j :: 0 <= j < i ==> Before(block[j].key, k)
    {
      i := i + 1;
    }
  }

  /** One block is read at most, and none if its filter denies the user key. The entry handed over is the newest visible
      one whenever there is one; otherwise it is none, or has another user key. */
  method InternalGet(t: Table, hash: Hash, k: InternalKey, ghost entries: seq<Entry>) returns (r: Option<Entry>)
    requires IsTable(t, hash, entries)
    ensures r.Some? ==> r.value in entries && !Before(r.value.key, k)
    ensures (exists e :: e in entries && Visible(k, e)) ==> r.Some? && NewestVisible(k, entries, r.value)
    ensures !(exists e :: e in entries && Visible(k, e)) ==> r.None? || r.value.key.user != k.user
  {
    hide Less, Before, KeyMayMatch, InOrder, IndexOf, InTable, Visible, NewestVisible;
    r := None;
    var i := SeekIndex(t.index, k);
    SameLength(t.blocks, t.index);
    ghost var some := exists e :: e in entries && Visible(k, e);
    if some {
      ghost var e :| e in entries && Visible(k, e);
      RightBlock(t, hash, k, entries, i, e);
    }
    if i < |t.index| {
      var skip := t.filter.Some? && !KeyMayMatch(hash, t.filter.value, t.handles[i], k.user);
      if !skip {
        var j := SeekBlock(t.blocks[i], k);
        if some {
          Newest(t, hash, k, entries, i, j);
        }
        if j < |t.blocks[i]| {
          r := Some(t.blocks[i][j]);
          Handed(t, hash, k, entries, i, j);
        }
      }
    }
  }

  // ---------- why it is the right block ----------

  lemma Sandwich(k: InternalKey, f: InternalKey, e: InternalKey)
    requires !Before(f, k) && (f == e || Before(f, e)) && k.user == e.user && e.tag <= k.tag
    ensures f.user == k.user && e.tag <= f.tag <= k.tag
  {
    LessAsymmetric(f.user, e.user);
  }

  // Behind a visible entry there is no index key before the one sought.
  lemma NotBehind(k: InternalKey, e: InternalKey, last: InternalKey, sep: InternalKey)
    requires e.user == k.user && e.tag <= k.tag && (e == last || Before(e, last)) && Succeeds(last, sep)
    ensures !Before(sep, k)
  {
    hide Less;
    LessAsymmetric(sep.user, k.user);
    LessAsymmetric(last.user, k.user);
    LessAsymmetric(last.user, sep.user);
    if Less(last.user, sep.user) && Less(e.user, last.user) {
      LessTransitive(e.user, last.user, sep.user);
    }
  }

  // A key shortened between two user keys is before all entries of the second one's user key and behind.
  lemma Shortened(k: InternalKey, sep: InternalKey, first: InternalKey, e: InternalKey)
    requires Less(sep.user, first.user) && (first == e || Before(first, e)) && e.user == k.user
    ensures Before(sep, k)
  {
    hide Less;
    if Less(first.user, e.user) {
      LessTransitive(sep.user, first.user, e.user);
    }
  }

  lemma LastOfBlock(b: seq<Entry>, e: Entry)
    requires Sorted(b) && e in b
    ensures e.key == Last(b) || Before(e.key, Last(b))
    ensures b[0].key == e.key || Before(b[0].key, e.key)
  {
    hide Before;
    var j :| 0 <= j < |b| && b[j] == e;
    assert j < |b| - 1 ==> Before(b[j].key, b[|b| - 1].key);
    assert j > 0 ==> Before(b[0].key, b[j].key);
  }

  // No visible entry is in a block whose index key is before the one sought.
  lemma BlockAtOrBehind(blocks: seq<seq<Entry>>, index: seq<InternalKey>, k: InternalKey, b: nat, e: Entry)
    requires InOrder(blocks) && IndexOf(blocks, index) && b < |blocks| && e in blocks[b] && Visible(k, e)
    ensures !Before(index[b], k)
  {
    hide Before, Less;
    assert Sorted(blocks[b]);
    LastOfBlock(blocks[b], e);
    NotBehind(k, e.key, Last(blocks[b]), index[b]);
  }

  lemma RightBlock(t: Table, hash: Hash, k: InternalKey, entries: seq<Entry>, i: nat, e: Entry)
    requires IsTable(t, hash, entries) && e in entries && Visible(k, e)
    requires i <= |t.index| && (forall j :: 0 <= j < i ==> Before(t.index[j], k))
    requires i < |t.index| ==> !Before(t.index[i], k)
    ensures i < |t.blocks| == |t.index| == |t.handles| && exists v :: v in t.blocks[i] && Visible(k, v)
    ensures t.filter.Some? ==> KeyMayMatch(hash, t.filter.value, t.handles[i], k.user)
  {
    hide Less, Before, KeyMayMatch;
    assert InTable(t.blocks, e);
    var b :| 0 <= b < |t.blocks| && e in t.blocks[b];
    BlockAtOrBehind(t.blocks, t.index, k, b, e);
    if i == b {
      assert Visible(k, e);
    } else {
      VisibleHere(t.blocks, t.index, k, i, b, e);
    }
    var v :| v in t.blocks[i] && Visible(k, v);
  }

  // The seek stops short of the block: then the last entry of its block is visible too.
  lemma VisibleHere(blocks: seq<seq<Entry>>, index: seq<InternalKey>, k: InternalKey, i: nat, b: nat, e: Entry)
    requires InOrder(blocks) && IndexOf(blocks, index) && i < b < |blocks| && e in blocks[b] && Visible(k, e)
    requires !Before(index[i], k)
    ensures exists v :: v in blocks[i] && Visible(k, v)
  {
    hide Less, Before;
    var last := blocks[i][|blocks[i]| - 1];
    var first := blocks[i + 1][0];
    assert last in blocks[i] && first in blocks[i + 1];
    assert AllBefore(blocks[i], blocks[b]);
    assert Separates(Last(blocks[i]), index[i], blocks[i + 1][0].key);
    if index[i] == last.key {
      Sandwich(k, last.key, e.key);
      assert Visible(k, last);
    } else {
      if i + 1 < b {
        assert AllBefore(blocks[i + 1], blocks[b]);
      } else {
        assert Sorted(blocks[b]);
        LastOfBlock(blocks[b], e);
      }
      Shortened(k, index[i], first.key, e.key);
    }
  }

  lemma Newest(t: Table, hash: Hash, k: InternalKey, entries: seq<Entry>, i: nat, j: nat)
    requires IsTable(t, hash, entries) && i < |t.index| == |t.blocks|
    requires forall l :: 0 <= l < i ==> Before(t.index[l], k)
    requires exists v :: v in t.blocks[i] && Visible(k, v)
    requires j <= |t.blocks[i]| && (forall l :: 0 <= l < j ==> Before(t.blocks[i][l].key, k))
    requires j < |t.blocks[i]| ==> !Before(t.blocks[i][j].key, k)
    ensures j < |t.blocks[i]| && NewestVisible(k, entries, t.blocks[i][j])
  {
    hide Less, Before, KeyMayMatch;
    var block := t.blocks[i];
    var v :| v in block && Visible(k, v);
    FirstHere(block, k, j, v);
    var f := block[j];
    assert f in block && InTable(t.blocks, f);
    forall x | x in entries && Visible(k, x) ensures x.key.tag <= f.key.tag {
      assert InTable(t.blocks, x);
      var b :| 0 <= b < |t.blocks| && x in t.blocks[b];
      BlockAtOrBehind(t.blocks, t.index, k, b, x);
      if b == i {
        FirstHere(block, k, j, x);
      } else {
        assert AllBefore(block, t.blocks[b]);
        Sandwich(k, f.key, x.key);
      }
    }
  }

  // The first entry of a block not before the key, beside a visible one.
  lemma FirstHere(block: seq<Entry>, k: InternalKey, j: nat, v: Entry)
    requires v in block && Visible(k, v)
    requires j <= |block| && (forall l :: 0 <= l < j ==> Before(block[l].key, k))
    requires j < |block| ==> !Before(block[j].key, k)
    requires Sorted(block)
    ensures j < |block| && Visible(k, block[j]) && v.key.tag <= block[j].key.tag
  {
    hide Less;
    var l :| 0 <= l < |block| && block[l] == v;
    LessAsymmetric(v.key.user, k.user);
    assert !Before(v.key, k);
    assert j < l ==> Before(block[j].key, block[l].key);
    Sandwich(k, block[j].key, v.key);
  }

  lemma SameLength(blocks: seq<seq<Entry>>, index: seq<InternalKey>)
    requires IndexOf(blocks, index)
    ensures |blocks| == |index|
  {
  }

  lemma Handed(t: Table, hash: Hash, k: InternalKey, entries: seq<Entry>, i: nat, j: nat)
    requires IsTable(t, hash, entries) && i < |t.blocks| && j < |t.blocks[i]| && !Before(t.blocks[i][j].key, k)
    ensures t.blocks[i][j] in entries
    ensures t.blocks[i][j].key.user == k.user ==> Visible(k, t.blocks[i][j])
  {
    hide Less, KeyMayMatch, InOrder, IndexOf;
    assert t.blocks[i][j] in t.blocks[i] && InTable(t.blocks, t.blocks[i][j]);
  }
}
