/** What group commit guarantees in every run: what readers see, and what a crash leaves. */
module CrashSafety {
  import opened LogFormat
  import opened Recovery
  import opened GroupCommit
  import opened Commit

  /** A run of the writers from an empty log. */
  datatype Run = Run(states: seq<State>, steps: seq<Step>)

  ghost predicate ValidRun(r: Run, base: nat) {
    && |r.states| == |r.steps| + 1
    && Start(r.states[0], base)
    && forall i :: 0 <= i < |r.steps| ==> Next(r.states[i], r.states[i + 1], r.steps[i])
  }

  lemma {:induction false} RunInv(r: Run, base: nat, i: nat)
    requires ValidRun(r, base) && i < |r.states|
    ensures Inv(r.states[i], base)
  {
    hide Next, Inv, Start;
    if i == 0 {
      StartInv(r.states[0], base);
    } else {
      RunInv(r, base, i - 1);
      assert Next(r.states[i - 1], r.states[i - 1 + 1], r.steps[i - 1]);
      StepInv(r.states[i - 1], r.states[i], base, r.steps[i - 1]);
    }
  }

  // ---------- readers ----------

  /** A reader at the last published number sees the updates of the finished writers, in the order they arrived,
      and nothing of a group in progress. */
  lemma ReadsSeeFinished(s: State, base: nat)
    requires Inv(s, base)
    ensures base <= s.lastSequence <= base + |s.mem|
    ensures s.mem[..s.lastSequence - base] == Batches.Numbered(base + 1, OpsOf(s.finished))
    ensures forall i :: 0 <= i < |s.mem| ==> (s.mem[i].num <= s.lastSequence <==> i < s.lastSequence - base)
  {
    hide AllOps, OpsOf, AllFit, Contiguous, Cover, QueueFits, SyncKept, LeaderInv;
    var done := AllOps(Done(s));
    assert Inserted(s)[..|done|] == done;
    assert s.mem[..|done|] == Batches.Numbered(base + 1, done);
  }

  /** The updates of the writer that came in as the `i`-th have the numbers right behind those before it. */
  lemma WriterNumbers(s: State, base: nat, i: nat, k: nat)
    requires Inv(s, base) && i < |s.finished| && k < |OwnOps(s.finished[i])|
    ensures var p := |OpsOf(s.finished[..i])| + k;
      p < |s.mem| && s.mem[p] == Batches.Added(base + 1 + p, OwnOps(s.finished[i])[k])
  {
    hide Inv, OpsOf, OwnOps, Batches.Numbered;
    ReadsSeeFinished(s, base);
    OpsOfAt(s.finished, i, k);
    var p, seen := |OpsOf(s.finished[..i])| + k, s.mem[..s.lastSequence - base];
    assert |seen| == |OpsOf(s.finished)|;
    assert s.mem[p] == seen[p] == Batches.Added(base + 1 + p, OpsOf(s.finished)[p]);
  }

  lemma OpsOfAt(ws: seq<Waiting>, i: nat, k: nat)
    requires i < |ws| && k < |OwnOps(ws[i])|
    ensures |OpsOf(ws[..i])| + k < |OpsOf(ws)|
    ensures OpsOf(ws)[|OpsOf(ws[..i])| + k] == OwnOps(ws[i])[k]
  {
    hide OpsOf, OwnOps;
    OpsOfAppend(ws[..i], ws[i..]);
    assert ws == ws[..i] + ws[i..];
    OpsOfAppend([ws[i]], ws[i + 1..]);
    assert ws[i..] == [ws[i]] + ws[i + 1..];
    OpsOfOne(ws[i]);
  }

  lemma OpsOfOne(w: Waiting)
    ensures OpsOf([w]) == OwnOps(w)
  {
    hide OwnOps;
    assert [w][..0] == [] && OpsOf([w]) == [] + OwnOps(w);
  }

  // ---------- crashes ----------

  /** The records the file may hold, the last one perhaps in part. */
  ghost function InFile(s: State): seq<Group> {
    if s.phase.Logging? then s.groups + [Group(s.phase.num, s.phase.ops)] else s.groups
  }

  ghost function FileCovers(s: State): seq<nat> {
    if s.phase.Logging? then s.covers + [|s.finished| + s.phase.n] else s.covers
  }

  lemma FileInv(s: State, base: nat)
    requires Inv(s, base)
    ensures AllFit(InFile(s)) && Contiguous(base, InFile(s)) && Cover(InFile(s), FileCovers(s), Arrived(s))
    ensures SyncKept(s.finished, s.covers, s.synced)
    ensures s.synced <= |s.covers| <= |FileCovers(s)| && FileCovers(s)[..|s.covers|] == s.covers
  {
    hide AllFit, Contiguous, Cover, Batches.Numbered, OpsOf, AllOps, QueueFits, Batches.Fits;
    if s.phase.Logging? {
      var s2 := s.(phase := Logged(s.phase.n, s.phase.num, s.phase.ops), groups := InFile(s), covers := FileCovers(s));
      assert Next(s, s2, Append);
      AppendLog(s, s2, base);
      assert Arrived(s2) == Arrived(s);
    }
  }

  lemma ContiguousPrefix(base: nat, gs: seq<Group>, n: nat)
    requires Contiguous(base, gs) && n <= |gs|
    ensures Contiguous(base, gs[..n])
  {
    forall j | 0 <= j < n ensures gs[..n][j].num == base + 1 + |AllOps(gs[..n][..j])| {
      assert gs[..n][..j] == gs[..j];
    }
  }

  /** Contiguous groups hold one numbered list of updates. */
  lemma {:induction false} EntriesAre(gs: seq<Group>, base: nat)
    requires Contiguous(base, gs)
    ensures Entries(gs) == Batches.Numbered(base + 1, AllOps(gs))
  {
    if gs == [] {
      assert AllOps(gs) == [];
    } else {
      var m := |gs| - 1;
      assert gs[m].num == base + 1 + |AllOps(gs[..m])|;
      ContiguousPrefix(base, gs, m);
      OneGroup(gs, base);
      hide *;
      EntriesAre(gs[..m], base);
    }
  }

  lemma OneGroup(gs: seq<Group>, base: nat)
    requires gs != [] && gs[|gs| - 1].num == base + 1 + |AllOps(gs[..|gs| - 1])|
    ensures var m := |gs| - 1;
      Entries(gs[..m]) == Batches.Numbered(base + 1, AllOps(gs[..m])) ==>
        Entries(gs) == Batches.Numbered(base + 1, AllOps(gs))
  {
    hide Batches.Numbered;
    var m := |gs| - 1;
    NumberedAppend(base + 1, AllOps(gs[..m]), gs[m].ops);
  }

  lemma {:induction false} LastNumberIs(gs: seq<Group>, base: nat)
    requires Contiguous(base, gs)
    ensures LastNumber(gs, base) == base + |AllOps(gs)|
  {
    if gs != [] {
      var m := |gs| - 1;
      ContiguousPrefix(base, gs, m);
      LastNumberIs(gs[..m], base);
    }
  }

  lemma NumberedAppend(b: nat, x: seq<Op>, y: seq<Op>)
    ensures Batches.Numbered(b, x + y) == Batches.Numbered(b, x) + Batches.Numbered(b + |x|, y)
  {
  }

  /** Bytes of the file that a sync has made safe. */
  ghost function SyncedBytes(crc: Crc, s: State): nat
    requires s.synced <= |s.groups|
  {
    |LogFile(crc, 0, Records(s.groups[..s.synced]))|
  }

  lemma RecordsPrefix(gs: seq<Group>, n: nat)
    requires n <= |gs|
    ensures Records(gs[..n]) == Records(gs)[..n]
  {
  }

  /** A state recovered after a crash: the updates of the first `c` writers to arrive, all of them or none of each. */
  ghost predicate RecoveredFirst(s: State, base: nat, entries: seq<Added>, newMax: int, c: nat) {
    && c <= |Arrived(s)|
    && entries == Batches.Numbered(base + 1, OpsOf(Arrived(s)[..c]))
    && newMax == base + |OpsOf(Arrived(s)[..c])|
  }

  /** Cut the file anywhere behind what is synced: the replay finds the updates of the first writers to arrive, whole
      groups only, and among them every writer that asked for a sync and has returned. */
  lemma CrashKeepsPrefix(crc: Crc, s: State, base: nat, k: nat, entries: seq<Added>, newMax: int) returns (c: nat)
    requires Inv(s, base)
    requires s.synced <= |s.groups| && SyncedBytes(crc, s) <= k <= |LogFile(crc, 0, Records(InFile(s)))|
    requires Replayed(crc, LogFile(crc, 0, Records(InFile(s)))[..k], InFile(s), base, entries, newMax)
    ensures RecoveredFirst(s, base, entries, newMax, c)
    ensures c == 0 || c in FileCovers(s)
    ensures forall i :: 0 <= i < |s.finished| && s.finished[i].sync && s.finished[i].ops.Some? ==> i < c
  {
    hide Inv, LogFile, Records, SyncKept, Cover, Contiguous, InFile, FileCovers, Entries, LastNumber, Complete;
    FileInv(s, base);
    var gs, covers := InFile(s), FileCovers(s);
    var n := Complete(crc, 0, Records(gs), k);
    SyncedAreComplete(crc, s, k);
    FirstGroups(s, base, gs, covers, n, entries, newMax);
    c := if n == 0 then 0 else covers[n - 1];
    SyncedFirst(s.finished, s.covers, s.synced, gs, covers, Arrived(s), n);
  }

  // The first `n` groups.
  lemma FirstGroups(s: State, base: nat, gs: seq<Group>, covers: seq<nat>, n: nat, entries: seq<Added>, newMax: int)
    requires Contiguous(base, gs) && Cover(gs, covers, Arrived(s)) && n <= |gs|
    requires entries == Entries(gs[..n]) && newMax == LastNumber(gs[..n], base)
    ensures |covers| == |gs| && RecoveredFirst(s, base, entries, newMax, if n == 0 then 0 else covers[n - 1])
  {
    hide Contiguous, Entries, LastNumber, Batches.Numbered, OpsOf;
    ContiguousPrefix(base, gs, n);
    EntriesAre(gs[..n], base);
    LastNumberIs(gs[..n], base);
    if n == 0 {
      assert Arrived(s)[..0] == [];
      NothingFirst(gs);
    } else {
      assert CoverAt(gs[..n - 1 + 1], covers[n - 1], Arrived(s));
    }
  }

  lemma NothingFirst(gs: seq<Group>)
    ensures AllOps(gs[..0]) == OpsOf([])
  {
  }

  lemma SyncedFirst(finished: seq<Waiting>, covers: seq<nat>, synced: nat, gs: seq<Group>, more: seq<nat>,
    arrived: seq<Waiting>, n: nat)
    requires SyncKept(finished, covers, synced) && Cover(gs, more, arrived)
    requires |covers| <= |more| && more[..|covers|] == covers && synced <= n <= |gs|
    ensures forall i :: 0 <= i < |finished| && finished[i].sync && finished[i].ops.Some? ==>
      i < if n == 0 then 0 else more[n - 1]
  {
    if synced > 0 {
      assert more[synced - 1] == covers[synced - 1] <= more[n - 1];
    }
  }

  lemma SyncedAreComplete(crc: Crc, s: State, k: nat)
    requires s.synced <= |s.groups| && SyncedBytes(crc, s) <= k
    ensures s.synced <= Complete(crc, 0, Records(InFile(s)), k)
  {
    hide LogFile, Records, Complete;
    var gs := InFile(s);
    assert gs[..s.synced] == s.groups[..s.synced];
    RecordsPrefix(gs, s.synced);
    CompleteAtLeast(crc, Records(gs), s.synced, k);
  }
}
