/** The leader's part of Write: log its group and insert it, as the steps of group commit have it. */
module WritePath {
  import opened Keys
  import opened LogFormat
  import opened Recovery
  import opened GroupCommit
  import opened Commit

  lemma OneRecordMore(crc: Crc, groups: seq<Group>, g: Group)
    ensures var file := LogFile(crc, 0, Records(groups));
      LogFile(crc, 0, Records(groups + [g])) == file + Fragments(crc, |file|, Batches.Rep(g.num, g.ops), true)
  {
    hide LogFile, Fragments, Batches.Rep;
    LogFileSnoc(crc, Records(groups), Batches.Rep(g.num, g.ops));
    assert Records(groups + [g]) == Records(groups) + [Batches.Rep(g.num, g.ops)];
  }

  lemma {:induction false} OpsOfPrefix(ws: seq<Waiting>, n: nat)
    requires n <= |ws|
    ensures |OpsOf(ws[..n])| <= |OpsOf(ws)|
  {
    if n < |ws| {
      var m := |ws| - 1;
      OpsOfPrefix(ws[..m], n);
      assert ws[..m][..n] == ws[..n];
    } else {
      assert ws[..n] == ws;
    }
  }

  /** The bytes logged and the entries inserted are those of the group, numbered from the last sequence number on. */
  method CommitGroup(writers: seq<PendingWriter>, tmp: Batches.WriteBatch, ghost ws: seq<Waiting>,
    log: LogFormat.Writer, mem: Batches.MemTable, lastSequence: nat, ghost groups: seq<Group>)
    returns (ok: bool, n: nat, newLast: nat)
    requires Pending(writers, ws, tmp) && tmp.Valid() && tmp.ops == []
    requires writers != [] && writers[0].batch != null
    requires QueueFits(ws)
    requires lastSequence + |OpsOf(ws)| < MAX_SEQUENCE
    requires log.Ok() && log.dest == LogFile(log.crc, 0, Records(groups))
    modifies tmp, writers[0].batch, log, mem
    ensures ok && IsGroup(ws, n) && newLast == lastSequence + |OpsOf(ws[..n])|
    ensures tmp.Valid() && tmp.ops == []
    ensures log.Ok()
      && log.dest == LogFile(log.crc, 0, Records(groups + [Group(lastSequence + 1, OpsOf(ws[..n]))]))
    ensures mem.entries == old(mem.entries) + Batches.Numbered(lastSequence + 1, OpsOf(ws[..n]))
  {
    hide LogFile, Fragments, Batches.Rep, Batches.Numbered, OpsOf, IsGroup, Batches.SequenceOf, Batches.ParseBody;
    hide Records, QueueFits;
    var updates;
    updates, n := BuildBatchGroup(writers, tmp, ws);
    ghost var ops := OpsOf(ws[..n]);
    OpsOfPrefix(ws, n);
    updates.SetSequence(lastSequence + 1);
    GroupRep(ws, n, lastSequence + 1);
    newLast := lastSequence + Batches.CountOf(updates.rep);
    OneRecordMore(log.crc, groups, Group(lastSequence + 1, ops));
    log.AddRecord(updates.rep);
    ok := Batches.InsertInto(updates.rep, mem);
    if updates == tmp {
      tmp.Clear();
    }
  }

  lemma GroupRep(ws: seq<Waiting>, n: nat, num: nat)
    requires IsGroup(ws, n) && QueueFits(ws) && num < 0x1_0000_0000_0000_0000
    ensures n <= |ws|
    ensures var ops := OpsOf(ws[..n]);
      var rep := Batches.Rep(num, ops);
      |rep| >= Batches.HEADER && Batches.CountOf(rep) == Batches.SignedCount(rep) == |ops|
      && Batches.SequenceOf(rep) == num
      && Batches.ParseBody(rep[Batches.HEADER..]) == Batches.Parse(ops, true)
  {
    hide Batches.Rep, OpsOf, Batches.SequenceOf, Batches.ParseBody, Batches.Body, Batches.CountOf, Batches.SignedCount;
    GroupFitsIn(ws, n);
    Batches.RepRoundTrip(num, OpsOf(ws[..n]));
    Batches.CountIs(num, OpsOf(ws[..n]));
  }
}
