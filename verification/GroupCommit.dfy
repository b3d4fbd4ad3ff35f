/** How concurrent writers share a record of the log: the group that the writer at the head of the queue builds. */
module GroupCommit {
  import opened Options
  import opened Coding
  import Batches
  type Op = Batches.Op

  /** A waiting writer; one without updates only asks for room in the memtable. */
  datatype Waiting = Waiting(ops: Option<seq<Op>>, sync: bool)

  /** The updates of some writers, in queue order. */
  function OpsOf(ws: seq<Waiting>): seq<Op> {
    if ws == [] then []
    else
      var m := |ws| - 1;
      OpsOf(ws[..m]) + OwnOps(ws[m])
  }

  function OwnOps(w: Waiting): seq<Op> {
    if w.ops.Some? then w.ops.value else []
  }

  function Size(ops: seq<Op>): nat {
    Batches.HEADER + |Batches.Body(ops)|
  }

  function OwnSize(w: Waiting): nat {
    if w.ops.Some? then Size(w.ops.value) else 0
  }

  function Sizes(ws: seq<Waiting>): nat {
    if ws == [] then 0 else Sizes(ws[..|ws| - 1]) + OwnSize(ws[|ws| - 1])
  }

  // A small write is not held up by much.
  function MaxSize(size: nat): nat {
    if size <= 0x2_0000 then size + 0x2_0000 else 0x10_0000
  }

  /** May the writer join a group of size `size` behind a leader? */
  predicate Joins(sync: bool, size: nat, maxSize: nat, w: Waiting) {
    && !(w.sync && !sync)
    && (w.ops.Some? ==> size + OwnSize(w) <= maxSize)
  }

  /** `n` is the length of the group at the head of the queue. */
  ghost predicate IsGroup(queue: seq<Waiting>, n: nat) {
    && 0 < n <= |queue|
    && queue[0].ops.Some?
    && var maxSize := MaxSize(Size(queue[0].ops.value));
       && (forall i :: 0 < i < n ==> Joins(queue[0].sync, Sizes(queue[..i]), maxSize, queue[i]))
       && (n < |queue| ==> !Joins(queue[0].sync, Sizes(queue[..n]), maxSize, queue[n]))
  }

  /** No group takes a sync writer behind a leader that will not sync. */
  lemma GroupSync(queue: seq<Waiting>, n: nat)
    requires IsGroup(queue, n)
    ensures forall i :: 0 <= i < n && queue[i].sync ==> queue[0].sync
  {
    hide Batches.Body;
    forall i | 0 <= i < n && queue[i].sync ensures queue[0].sync {
      if i > 0 {
        assert Joins(queue[0].sync, Sizes(queue[..i]), MaxSize(Size(queue[0].ops.value)), queue[i]);
      }
    }
  }

  lemma GroupUnique(queue: seq<Waiting>, n: nat, m: nat)
    requires IsGroup(queue, n) && IsGroup(queue, m)
    ensures n == m
  {
    hide Batches.Body, Sizes, Joins;
  }

  lemma {:induction false} BodyLonger(ops: seq<Op>)
    ensures |ops| <= |Batches.Body(ops)|
  {
    if ops != [] {
      BodyLonger(ops[..|ops| - 1]);
    }
  }

  lemma {:induction false} OpsShorter(ws: seq<Waiting>)
    ensures |OpsOf(ws)| <= Sizes(ws)
  {
    if ws != [] {
      var m := |ws| - 1;
      OpsShorter(ws[..m]);
      if ws[m].ops.Some? {
        BodyLonger(ws[m].ops.value);
      }
    }
  }

  /** A group beyond its leader's own batch is small. */
  lemma {:induction false} GroupSize(queue: seq<Waiting>, n: nat, i: nat)
    requires IsGroup(queue, n) && 0 < i <= n
    ensures Sizes(queue[..i]) == Size(queue[0].ops.value) || Sizes(queue[..i]) <= 0x10_0000
    ensures OpsOf(queue[..i]) == queue[0].ops.value || |OpsOf(queue[..i])| <= 0x10_0000
  {
    hide Batches.Body;
    assert queue[..1][..0] == [];
    if i > 1 {
      GroupSize(queue, n, i - 1);
      OpsShorter(queue[..i]);
      assert queue[..i][..i - 1] == queue[..i - 1];
      assert Joins(queue[0].sync, Sizes(queue[..i - 1]), MaxSize(Size(queue[0].ops.value)), queue[i - 1]);
    }
  }

  // ---------- building it ----------

  class PendingWriter {
    const batch: Batches.WriteBatch?
    const sync: bool

    constructor (batch: Batches.WriteBatch?, sync: bool)
      ensures this.batch == batch && this.sync == sync
    {
      this.batch, this.sync := batch, sync;
    }

    ghost predicate Valid()
      reads this, batch
    {
      batch != null ==> batch.Valid() && |batch.ops| < 0x8000_0000
    }

    ghost function Value(): Waiting
      reads this, batch
    {
      Waiting(if batch == null then None else Some(batch.ops), sync)
    }
  }

  /** The writers wait in this order, with their batches; `tmp` is none of these. */
  ghost predicate Pending(writers: seq<PendingWriter>, ws: seq<Waiting>, tmp: Batches.WriteBatch)
    reads set w | w in writers :: w, set w | w in writers :: w.batch
  {
    && |writers| == |ws|
    && forall i :: 0 <= i < |writers| ==> writers[i].Valid() && writers[i].batch != tmp && writers[i].Value() == ws[i]
  }

  lemma RepSize(batch: Batches.WriteBatch)
    requires batch.Valid()
    ensures |batch.rep| == Size(batch.ops)
  {
    hide Fixed, Batches.Body;
  }

  // One writer more.
  lemma Grow(ws: seq<Waiting>, n: nat)
    requires n < |ws|
    ensures OpsOf(ws[..n + 1]) == OpsOf(ws[..n]) + OwnOps(ws[n])
    ensures Sizes(ws[..n + 1]) == Sizes(ws[..n]) + OwnSize(ws[n])
    ensures ws[n].ops.None? ==> OpsOf(ws[..n + 1]) == OpsOf(ws[..n])
    ensures |OpsOf(ws[..n + 1])| <= Sizes(ws[..n + 1])
  {
    hide Batches.Body;
    OpsShorter(ws[..n + 1]);
    assert ws[..n + 1][..n] == ws[..n];
  }

  lemma GrowFirst(ws: seq<Waiting>)
    requires ws != [] && ws[0].ops.Some?
    ensures OpsOf(ws[..1]) == ws[0].ops.value && Sizes(ws[..1]) == Size(ws[0].ops.value)
  {
    hide Batches.Body;
    Grow(ws, 0);
    assert ws[..0] == [];
  }

  // The first `n` writers are in the group, and `size` is theirs.
  ghost predicate Building(ws: seq<Waiting>, n: nat, size: nat, ops: seq<Op>) {
    && 0 < n <= |ws| && ws[0].ops.Some?
    && size == Sizes(ws[..n]) && ops == OpsOf(ws[..n])
    && forall i :: 0 < i < n ==> Joins(ws[0].sync, Sizes(ws[..i]), MaxSize(Size(ws[0].ops.value)), ws[i])
  }

  lemma BuildingStart(ws: seq<Waiting>)
    requires ws != [] && ws[0].ops.Some?
    ensures Building(ws, 1, Size(ws[0].ops.value), ws[0].ops.value)
  {
    hide Batches.Body;
    GrowFirst(ws);
  }

  lemma BuildingStep(ws: seq<Waiting>, n: nat, size: nat, ops: seq<Op>)
    requires Building(ws, n, size, ops)
    ensures n == |ws| ==> IsGroup(ws, n) && ops == OpsOf(ws[..n])
    ensures n < |ws| && Joins(ws[0].sync, size, MaxSize(Size(ws[0].ops.value)), ws[n]) ==>
      Building(ws, n + 1, size + OwnSize(ws[n]), if ws[n].ops.None? then ops else ops + ws[n].ops.value)
      && (ws[n].ops.Some? ==> |ops| + |ws[n].ops.value| <= 0x10_0000)
    ensures n < |ws| && !Joins(ws[0].sync, size, MaxSize(Size(ws[0].ops.value)), ws[n]) ==>
      IsGroup(ws, n) && ops == OpsOf(ws[..n])
  {
    hide Batches.Body, Sizes, OpsOf;
    if n < |ws| {
      Grow(ws, n);
    }
  }

  /** The batch to log for the writer at the head of the queue: its own, or a temporary one for it and those that
      join. */
  method BuildBatchGroup(writers: seq<PendingWriter>, tmp: Batches.WriteBatch, ghost ws: seq<Waiting>)
    returns (result: Batches.WriteBatch, n: nat)
    requires Pending(writers, ws, tmp) && tmp.Valid() && tmp.ops == []
    requires writers != [] && writers[0].batch != null
    modifies tmp
    ensures IsGroup(ws, n) && result.Valid() && result.ops == OpsOf(ws[..n])
    ensures result != tmp ==> tmp.Valid() && tmp.ops == []
    ensures Pending(writers, ws, tmp) && (result == tmp || result == writers[0].batch) && 0 < n <= |ws|
  {
    hide Batches.Holds, Building, IsGroup, Size, OpsOf, MaxSize;
    var first := writers[0];
    result := first.batch;
    RepSize(result);
    BuildingStart(ws);
    var size: nat := |result.rep|;
    var maxSize := MaxSize(size);
    n := 1;
    while true
      invariant 1 <= n <= |writers| && maxSize == MaxSize(Size(ws[0].ops.value))
      invariant Pending(writers, ws, tmp)
      invariant result.Valid() && Building(ws, n, size, result.ops)
      invariant if result == first.batch then tmp.Valid() && tmp.ops == [] else result == tmp
      decreases |writers| - n
    {
      BuildingStep(ws, n, size, result.ops);
      if n == |writers| {
        break;
      }
      var w := writers[n];
      if w.sync && !first.sync {
        break;
      }
      if w.batch != null {
        RepSize(w.batch);
        size := size + |w.batch.rep|;
        if size > maxSize {
          break;
        }
        if result == first.batch {
          result := tmp;
          result.Append(first.batch);
          assert result.ops == [] + first.batch.ops == first.batch.ops;
        }
        result.Append(w.batch);
      }
      n := n + 1;
    }
  }
}
