/** Replaying the log: which entries a reopened database holds after a crash at any byte. */
module Recovery {
  import opened Coding
  import opened LogFormat
  import opened LogReader
  import Batches
  type Op = Batches.Op
  type Added = Batches.Added

  // ---------- files of records ----------

  /** How many records are whole in the first `k` bytes. */
  ghost function Complete(crc: Crc, p: nat, records: seq<Bytes>, k: nat): (n: nat)
    ensures n <= |records|
    decreases |records|
  {
    if FirstComplete(crc, p, records, k) then
      var first := |Fragments(crc, p, records[0], true)|;
      1 + Complete(crc, p + first, records[1..], k - first)
    else 0
  }

  lemma {:induction false} LogFileAppend(crc: Crc, p: nat, a: seq<Bytes>, b: seq<Bytes>)
    ensures LogFile(crc, p, a + b) == LogFile(crc, p, a) + LogFile(crc, p + |LogFile(crc, p, a)|, b)
    decreases |a|
  {
    hide Fragments;
    if a == [] {
      assert a + b == b;
      assert [] + LogFile(crc, p, b) == LogFile(crc, p, b);
    } else {
      var first := Fragments(crc, p, a[0], true);
      assert (a + b)[1..] == a[1..] + b;
      LogFileAppend(crc, p + |first|, a[1..], b);
      Assoc(first, LogFile(crc, p + |first|, a[1..]),
        LogFile(crc, p + |first| + |LogFile(crc, p + |first|, a[1..])|, b));
    }
  }

  /** What AddRecord appends is the file of one record more. */
  lemma LogFileSnoc(crc: Crc, records: seq<Bytes>, record: Bytes)
    ensures var file := LogFile(crc, 0, records);
      LogFile(crc, 0, records + [record]) == file + Fragments(crc, |file|, record, true)
  {
    hide Fragments;
    LogFileAppend(crc, 0, records, [record]);
    var q := |LogFile(crc, 0, records)|;
    var last := Fragments(crc, q, record, true);
    assert [record][1..] == [] && LogFile(crc, q + |last|, []) == [];
    assert LogFile(crc, q, [record]) == last + [];
  }

  /** The whole records are those that end within the first `k` bytes. */
  lemma {:induction false} CompleteIs(crc: Crc, p: nat, records: seq<Bytes>, k: nat)
    ensures var n := Complete(crc, p, records, k);
      |LogFile(crc, p, records[..n])| <= k && (n < |records| ==> k < |LogFile(crc, p, records[..n + 1])|)
    decreases |records|
  {
    hide Fragments;
    var n := Complete(crc, p, records, k);
    if FirstComplete(crc, p, records, k) {
      var first := |Fragments(crc, p, records[0], true)|;
      CompleteIs(crc, p + first, records[1..], k - first);
      assert records[..n][1..] == records[1..][..n - 1];
      if n < |records| {
        assert records[..n + 1][1..] == records[1..][..n];
      }
    } else if records != [] {
      assert records[..1][1..] == [];
    }
  }

  /** A longer cut keeps more records. */
  lemma CompleteAtLeast(crc: Crc, records: seq<Bytes>, m: nat, k: nat)
    requires m <= |records| && |LogFile(crc, 0, records[..m])| <= k
    ensures m <= Complete(crc, 0, records, k)
  {
    hide LogFile;
    var n := Complete(crc, 0, records, k);
    CompleteIs(crc, 0, records, k);
    if n < m {
      assert records[..m][..n + 1] == records[..n + 1] && records[..m] == records[..n + 1] + records[n + 1..m];
      LogFileAppend(crc, 0, records[..n + 1], records[n + 1..m]);
    }
  }

  // ---------- groups of updates ----------

  /** The updates of one record of the log, numbered from `num`. */
  datatype Group = Group(num: nat, ops: seq<Op>)

  ghost predicate GroupFits(g: Group) {
    Batches.Fits(g.ops) && 0 < g.num && g.num + |g.ops| < 0x1_0000_0000_0000_0000
  }

  ghost predicate AllFit(gs: seq<Group>) {
    forall g :: g in gs ==> GroupFits(g)
  }

  ghost function Records(gs: seq<Group>): (r: seq<Bytes>)
    ensures |r| == |gs|
  {
    seq(|gs|, i requires 0 <= i < |gs| => Batches.Rep(gs[i].num, gs[i].ops))
  }

  ghost function Entries(gs: seq<Group>): seq<Added> {
    if gs == [] then [] else var m := |gs| - 1; Entries(gs[..m]) + Batches.Numbered(gs[m].num, gs[m].ops)
  }

  ghost function LastNumber(gs: seq<Group>, atLeast: nat): nat {
    if gs == [] then atLeast
    else
      var m := |gs| - 1;
      Max(LastNumber(gs[..m], atLeast), gs[m].num + |gs[m].ops| - 1)
  }

  function Max(a: int, b: int): int {
    if a < b then b else a
  }

  /** The number of the last update of a batch, as a 64-bit integer. */
  function LastOf(rep: Bytes): nat
    requires |rep| >= Batches.HEADER
  {
    (Batches.SequenceOf(rep) + Batches.SignedCount(rep) - 1) % 0x1_0000_0000_0000_0000
  }

  lemma SmallMod(x: nat)
    requires x < 0x1_0000_0000_0000_0000
    ensures x % 0x1_0000_0000_0000_0000 == x
  {
  }

  lemma ReplayOne(g: Group)
    requires GroupFits(g)
    ensures var rep := Batches.Rep(g.num, g.ops);
      |rep| >= Batches.HEADER && Batches.SequenceOf(rep) == g.num && Batches.SignedCount(rep) == |g.ops|
      && LastOf(rep) == g.num + |g.ops| - 1
      && Batches.ParseBody(rep[Batches.HEADER..]) == Batches.Parse(g.ops, true)
  {
    hide Batches.Rep, Batches.SequenceOf, Batches.SignedCount, Batches.ParseBody, Batches.Fits;
    Batches.RepRoundTrip(g.num, g.ops);
    SmallMod(g.num + |g.ops| - 1);
  }

  // ---------- the replay ----------

  /** The state of the replay: `n` records read from a file of the writer's, the whole ones among the rest still to
      come. */
  ghost predicate Replaying(crc: Crc, file: Bytes, groups: seq<Group>, atLeast: nat, n: nat, rest: Bytes, at: nat,
    entries: seq<Added>, newMax: int)
  {
    && n <= |groups|
    && rest <= LogFile(crc, at, Records(groups)[n..])
    && n + Complete(crc, at, Records(groups)[n..], |rest|) == Complete(crc, 0, Records(groups), |file|)
    && entries == Entries(groups[..n])
    && newMax == LastNumber(groups[..n], atLeast)
  }

  // One more record.
  lemma ReplayStep(crc: Crc, file: Bytes, groups: seq<Group>, atLeast: nat, n: nat, rest: Bytes, at: nat,
    entries: seq<Added>, newMax: int, record: Bytes, offset: nat, now: Bytes, end: nat)
    requires Replaying(crc, file, groups, atLeast, n, rest, at, entries, newMax) && AllFit(groups)
    requires Finished(crc, rest, at, Records(groups)[n..], record, offset, now, end)
    ensures n < |groups| && GroupFits(groups[n]) && record == Batches.Rep(groups[n].num, groups[n].ops)
    ensures Replaying(crc, file, groups, atLeast, n + 1, now, end,
      entries + Batches.Numbered(groups[n].num, groups[n].ops), Max(newMax, groups[n].num + |groups[n].ops| - 1))
  {
    hide Fragments, Batches.Rep, Batches.Numbered, LogFile, GroupFits;
    var records := Records(groups);
    assert records[n..][1..] == records[n + 1..];
    assert groups[..n + 1][..n] == groups[..n];
    assert groups[n] in groups;
  }

  // What the reader meets, and where it ends.
  lemma ReplayEnd(crc: Crc, file: Bytes, groups: seq<Group>, atLeast: nat, n: nat, rest: Bytes, at: nat,
    entries: seq<Added>, newMax: int)
    requires Replaying(crc, file, groups, atLeast, n, rest, at, entries, newMax)
    ensures n <= |groups| && rest <= LogFile(crc, at, Records(groups)[n..])
    ensures !FirstComplete(crc, at, Records(groups)[n..], |rest|) ==>
      Replayed(crc, file, groups, atLeast, entries, newMax)
  {
    hide Fragments, LogFile, Entries, Records;
  }

  /** All whole records have been replayed. */
  ghost predicate Replayed(crc: Crc, file: Bytes, groups: seq<Group>, atLeast: nat, entries: seq<Added>, newMax: int) {
    var n := Complete(crc, 0, Records(groups), |file|);
    entries == Entries(groups[..n]) && newMax == LastNumber(groups[..n], atLeast)
  }

  lemma ReplayStart(crc: Crc, file: Bytes, groups: seq<Group>, atLeast: nat)
    requires file <= LogFile(crc, 0, Records(groups))
    ensures Replaying(crc, file, groups, atLeast, 0, file, 0, [], atLeast)
  {
    hide LogFile;
    assert Records(groups)[0..] == Records(groups);
  }

  /** One record replayed; with `paranoid` checks a malformed one is an error. */
  method ReplayRecord(record: Bytes, mem: Batches.MemTable, paranoid: bool, max: nat, ghost g: Group)
    returns (ok: bool, newMax: nat, report: bool)
    modifies mem
    ensures GroupFits(g) && record == Batches.Rep(g.num, g.ops) ==>
      ok && !report && mem.entries == old(mem.entries) + Batches.Numbered(g.num, g.ops)
    ensures GroupFits(g) && record == Batches.Rep(g.num, g.ops) ==> newMax == Max(max, g.num + |g.ops| - 1)
    ensures paranoid && ok ==> !report
  {
    if GroupFits(g) && record == Batches.Rep(g.num, g.ops) {
      ReplayOne(g);
    }
    hide LastOf, Batches.Rep, Batches.SequenceOf, Batches.SignedCount, Batches.ParseBody, GroupFits, Batches.Numbered;
    if |record| < Batches.HEADER {
      return !paranoid, max, true;
    }
    var inserted := Batches.InsertInto(record, mem);
    if !inserted && paranoid {
      return false, max, false;
    }
    var last := LastOf(record);
    return true, if last > max then last else max, false;
  }

  // One turn of the loop below.
  method ReplayNext(reader: Reader, mem: Batches.MemTable, paranoid: bool, max: nat,
    ghost file: Bytes, ghost groups: seq<Group>, ghost atLeast: nat, ghost n: nat)
    returns (done: bool, ok: bool, newMax: nat, report: bool)
    requires reader.Ok()
    modifies reader, mem
    ensures reader.Ok() && (!done ==> |reader.Stream()| < |old(reader.Stream())|)
    ensures old(AllFit(groups) && reader.reports == [] &&
        Replaying(reader.crc, file, groups, atLeast, n, reader.Stream(), reader.At(), mem.entries, max)) ==>
      ok && !report && reader.reports == []
    ensures old(AllFit(groups) && reader.reports == [] &&
        Replaying(reader.crc, file, groups, atLeast, n, reader.Stream(), reader.At(), mem.entries, max)) ==>
      (if done then Replayed(reader.crc, file, groups, atLeast, mem.entries, newMax)
       else Replaying(reader.crc, file, groups, atLeast, n + 1, reader.Stream(), reader.At(), mem.entries, newMax))
  {
    hide LogFile, Replaying, Records, AllFit, Finished, FirstComplete, GroupFits, Batches.Rep, Batches.Numbered;
    hide Replayed, Max;
    ghost var before, at, crc := reader.Stream(), reader.At(), reader.crc;
    ghost var clean := AllFit(groups) && reader.reports == []
      && Replaying(crc, file, groups, atLeast, n, before, at, mem.entries, max);
    if clean {
      ReplayEnd(crc, file, groups, atLeast, n, before, at, mem.entries, max);
    }
    done, ok, newMax, report := true, true, max, false;
    var more, record := reader.ReadRecord(if n <= |groups| then Records(groups)[n..] else []);
    if paranoid && reader.reports != [] {
      ok := false;
    }
    if more && ok {
      if clean {
        ReplayStep(crc, file, groups, atLeast, n, before, at, mem.entries, max, record, reader.lastRecordOffset,
          reader.Stream(), reader.At());
      }
      ok, newMax, report := ReplayRecord(record, mem, paranoid, max, if n < |groups| then groups[n] else Group(0, []));
      done := !ok;
    }
  }

  /** One log replayed into a memtable: after a crash, the records that were whole. */
  method RecoverLogFile(crc: Crc, file: Bytes, paranoid: bool, maxSequence: nat, ghost groups: seq<Group>)
    returns (ok: bool, mem: Batches.MemTable, newMax: nat, dropped: bool)
    ensures fresh(mem)
    ensures file <= LogFile(crc, 0, Records(groups)) && AllFit(groups) ==>
      ok && !dropped && Replayed(crc, file, groups, maxSequence, mem.entries, newMax)
  {
    var reader := new Reader(crc, true, file);
    mem := new Batches.MemTable();
    ok, newMax, dropped := true, maxSequence, false;
    ghost var clean := file <= LogFile(crc, 0, Records(groups)) && AllFit(groups);
    if clean {
      ReplayStart(crc, file, groups, maxSequence);
    }
    hide LogFile, Replaying, Records, AllFit, Replayed;
    var done := false;
    ghost var n := 0;
    while !done
      invariant reader.Ok() && fresh(reader) && fresh(mem) && reader.crc == crc
      invariant clean ==> ok && !dropped && reader.reports == []
      invariant clean ==> if done then Replayed(crc, file, groups, maxSequence, mem.entries, newMax)
        else Replaying(crc, file, groups, maxSequence, n, reader.Stream(), reader.At(), mem.entries, newMax)
      decreases !done, |reader.Stream()|
    {
      var report;
      done, ok, newMax, report := ReplayNext(reader, mem, paranoid, newMax, file, groups, maxSequence, n);
      dropped := dropped || report;
      n := n + 1;
    }
    dropped := dropped || reader.reports != [];
  }
}
