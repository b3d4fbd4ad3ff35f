/** Group commit as a state machine: writers queue up, the one at the head logs, inserts and publishes for its group. */
module Commit {
  import opened Keys
  import opened Recovery
  import opened GroupCommit

  /** What the leader of the queue is doing, for the first `n` writers and their updates. */
  datatype Phase =
    | Idle
    | Logging(n: nat, num: nat, ops: seq<Op>)                // the record may be in the file in part
    | Logged(n: nat, num: nat, ops: seq<Op>)
    | Inserting(n: nat, num: nat, ops: seq<Op>, done: nat)

  /** `finished` are the writers that have returned, in order; `groups` are the records in the log, of which the first
      `synced` are safe; `covers` tells how many writers the records up to each one account for. */
  datatype State = State(
    finished: seq<Waiting>,
    queue: seq<Waiting>,
    phase: Phase,
    groups: seq<Group>,
    covers: seq<nat>,
    synced: nat,
    mem: seq<Added>,
    lastSequence: nat)

  /** All writers that ever called Write, in order of arrival. */
  ghost function Arrived(s: State): seq<Waiting> {
    s.finished + s.queue
  }

  datatype Step = Enqueue(w: Waiting) | SkipEmpty | Lead(n: nat) | Append | Sync | Insert | Publish

  ghost predicate Next(s: State, s2: State, step: Step) {
    match step
    case Enqueue(w) =>
      && (w.ops.Some? ==> Batches.Fits(w.ops.value))
      && s2 == s.(queue := s.queue + [w])
    case SkipEmpty =>
      && s.phase.Idle? && s.queue != [] && s.queue[0].ops.None?
      && s2 == s.(finished := s.finished + s.queue[..1], queue := s.queue[1..])
    case Lead(n) =>
      && s.phase.Idle? && IsGroup(s.queue, n)
      && var ops := OpsOf(s.queue[..n]);
         && s.lastSequence + |ops| < MAX_SEQUENCE
         && s2 == s.(phase := Logging(n, s.lastSequence + 1, ops))
    case Append =>
      && s.phase.Logging?
      && s2 == s.(phase := Logged(s.phase.n, s.phase.num, s.phase.ops),
                  groups := s.groups + [Group(s.phase.num, s.phase.ops)],
                  covers := s.covers + [|s.finished| + s.phase.n])
    case Sync =>
      && s.phase.Logged? && s.queue != []
      && s2 == s.(phase := Inserting(s.phase.n, s.phase.num, s.phase.ops, 0),
                  synced := if s.queue[0].sync then |s.groups| else s.synced)
    case Insert =>
      && s.phase.Inserting? && s.phase.done < |s.phase.ops|
      && var i := s.phase.done;
         s2 == s.(phase := s.phase.(done := i + 1), mem := s.mem + [Batches.Added(s.phase.num + i, s.phase.ops[i])])
    case Publish =>
      && s.phase.Inserting? && s.phase.done == |s.phase.ops| && s.phase.n <= |s.queue|
      && s2 == s.(phase := Idle, lastSequence := s.lastSequence + |s.phase.ops|,
                  finished := s.finished + s.queue[..s.phase.n], queue := s.queue[s.phase.n..])
  }

  ghost predicate Start(s: State, base: nat) {
    base < MAX_SEQUENCE && s == State([], [], Idle, [], [], 0, [], base)
  }

  // ---------- the invariant ----------

  ghost function AllOps(gs: seq<Group>): seq<Op> {
    if gs == [] then [] else AllOps(gs[..|gs| - 1]) + gs[|gs| - 1].ops
  }

  /** Each record takes up the numbers where the one before left off. */
  ghost predicate Contiguous(base: nat, gs: seq<Group>) {
    forall j :: 0 <= j < |gs| ==> gs[j].num == base + 1 + |AllOps(gs[..j])|
  }

  ghost predicate Ascending(covers: seq<nat>) {
    forall i, j :: 0 <= i < j < |covers| ==> covers[i] <= covers[j]
  }

  ghost predicate CoverAt(gs: seq<Group>, n: nat, arrived: seq<Waiting>) {
    n <= |arrived| && AllOps(gs) == OpsOf(arrived[..n])
  }

  /** The records up to each one hold the updates of the writers that arrived first. */
  ghost predicate Cover(gs: seq<Group>, covers: seq<nat>, arrived: seq<Waiting>) {
    && |covers| == |gs|
    && (forall j :: 0 <= j < |gs| ==> CoverAt(gs[..j + 1], covers[j], arrived))
    && Ascending(covers)
  }

  /** How many writers the synced records account for. */
  ghost function Durable(covers: seq<nat>, synced: nat): nat
    requires synced <= |covers|
  {
    if synced == 0 then 0 else covers[synced - 1]
  }

  ghost predicate QueueFits(queue: seq<Waiting>) {
    forall w :: w in queue && w.ops.Some? ==> Batches.Fits(w.ops.value)
  }

  /** A writer that asked for it has its updates safe when it returns. */
  ghost predicate SyncKept(finished: seq<Waiting>, covers: seq<nat>, synced: nat) {
    && synced <= |covers|
    && forall i :: 0 <= i < |finished| && finished[i].sync && finished[i].ops.Some? ==> i < Durable(covers, synced)
  }

  // The records of the finished writers.
  ghost function Done(s: State): seq<Group> {
    if (s.phase.Logged? || s.phase.Inserting?) && s.groups != [] then s.groups[..|s.groups| - 1] else s.groups
  }

  ghost predicate LeaderInv(s: State) {
    match s.phase
    case Idle => true
    case Logging(n, num, ops) => Leads(s, n, num, ops)
    case Logged(n, num, ops) => Leads(s, n, num, ops) && HasLogged(s, n, num, ops)
    case Inserting(n, num, ops, done) =>
      && Leads(s, n, num, ops) && HasLogged(s, n, num, ops) && done <= |ops|
      && (s.queue[0].sync ==> s.synced == |s.groups|)
  }

  ghost predicate Leads(s: State, n: nat, num: nat, ops: seq<Op>) {
    && 0 < n <= |s.queue| && ops == OpsOf(s.queue[..n])
    && num == s.lastSequence + 1 && s.lastSequence + |ops| < MAX_SEQUENCE && Batches.Fits(ops)
    && forall i :: 0 <= i < n && s.queue[i].sync ==> s.queue[0].sync
  }

  ghost predicate HasLogged(s: State, n: nat, num: nat, ops: seq<Op>) {
    && s.groups != [] && |s.covers| == |s.groups|
    && s.groups[|s.groups| - 1] == Group(num, ops) && s.covers[|s.covers| - 1] == |s.finished| + n
  }

  // The updates in the memtable: those of the finished writers, and part of the leader's.
  ghost function Inserted(s: State): seq<Op> {
    AllOps(Done(s)) + if s.phase.Inserting? && s.phase.done <= |s.phase.ops| then s.phase.ops[..s.phase.done] else []
  }

  /** Numbers and updates add up: the log, the memtable and the last number published. */
  ghost predicate Tally(s: State, base: nat) {
    && OpsOf(s.finished) == AllOps(Done(s))
    && s.lastSequence == base + |AllOps(Done(s))| < MAX_SEQUENCE
    && s.mem == Batches.Numbered(base + 1, Inserted(s))
    && |s.covers| == |s.groups|
    && forall j :: 0 <= j < |Done(s)| ==> s.covers[j] <= |s.finished|
  }

  ghost predicate Inv(s: State, base: nat) {
    && AllFit(s.groups) && Contiguous(base, s.groups) && Cover(s.groups, s.covers, Arrived(s))
    && QueueFits(s.queue) && SyncKept(s.finished, s.covers, s.synced) && LeaderInv(s) && Tally(s, base)
  }

  lemma StartInv(s: State, base: nat)
    requires Start(s, base)
    ensures Inv(s, base)
  {
    assert Arrived(s) == [] && Inserted(s) == [];
  }

  // A queue that grows keeps the order of arrival.
  lemma CoverGrows(gs: seq<Group>, covers: seq<nat>, arrived: seq<Waiting>, more: seq<Waiting>)
    requires Cover(gs, covers, arrived)
    ensures Cover(gs, covers, arrived + more)
  {
    forall j | 0 <= j < |gs| ensures CoverAt(gs[..j + 1], covers[j], arrived + more) {
      assert CoverAt(gs[..j + 1], covers[j], arrived);
      assert (arrived + more)[..covers[j]] == arrived[..covers[j]];
    }
  }

  lemma EnqueueInv(s: State, s2: State, base: nat, w: Waiting)
    requires Inv(s, base) && Next(s, s2, Enqueue(w))
    ensures Inv(s2, base)
  {
    hide AllFit, Contiguous, Cover, AllOps, OpsOf, Batches.Numbered, Batches.Fits, IsGroup, SyncKept;
    assert Arrived(s2) == Arrived(s) + [w];
    CoverGrows(s.groups, s.covers, Arrived(s), [w]);
    if !s.phase.Idle? {
      var n := s.phase.n;
      assert s2.queue[..n] == s.queue[..n];
      assert Leads(s2, n, s.phase.num, s.phase.ops);
    }
    assert Inserted(s2) == Inserted(s);
  }

  lemma SkipEmptyInv(s: State, s2: State, base: nat)
    requires Inv(s, base) && Next(s, s2, SkipEmpty)
    ensures Inv(s2, base)
  {
    hide AllFit, Contiguous, Cover, AllOps, Batches.Numbered, Batches.Fits, IsGroup;
    assert Arrived(s2) == Arrived(s);
    var w := s.queue[0];
    assert s2.finished == s.finished + [w] && s2.finished[..|s.finished|] == s.finished;
    assert OpsOf(s2.finished) == OpsOf(s.finished) + [];
    assert Inserted(s2) == Inserted(s);
  }

  lemma {:induction false} OpsOfFit(ws: seq<Waiting>)
    requires QueueFits(ws)
    ensures forall op :: op in OpsOf(ws) ==> Batches.OpFits(op)
  {
    if ws != [] {
      var m := |ws| - 1;
      OpsOfFit(ws[..m]);
      assert ws[m] in ws;
    }
  }

  lemma GroupFitsIn(queue: seq<Waiting>, n: nat)
    requires IsGroup(queue, n) && QueueFits(queue)
    ensures 0 < n <= |queue| && Batches.Fits(OpsOf(queue[..n]))
  {
    GroupSize(queue, n, n);
    assert queue[0] in queue;
    OpsOfFit(queue[..n]);
  }

  lemma LeadInv(s: State, s2: State, base: nat, n: nat)
    requires Inv(s, base) && Next(s, s2, Lead(n))
    ensures Inv(s2, base)
  {
    hide AllFit, Contiguous, Cover, AllOps, Batches.Numbered, IsGroup, QueueFits, SyncKept, Batches.Fits, OpsOf;
    GroupSync(s.queue, n);
    GroupFitsIn(s.queue, n);
    assert Leads(s2, n, s2.phase.num, OpsOf(s.queue[..n]));
    assert Inserted(s2) == Inserted(s);
  }

  lemma {:induction false} OpsOfAppend(a: seq<Waiting>, b: seq<Waiting>)
    ensures OpsOf(a + b) == OpsOf(a) + OpsOf(b)
  {
    hide OwnOps;
    if b == [] {
      assert a + b == a && OpsOf(a) + [] == OpsOf(a);
    } else {
      var m := |b| - 1;
      OpsOfAppend(a, b[..m]);
      assert (a + b)[..|a| + m] == a + b[..m] && (a + b)[|a| + m] == b[m];
      assert OpsOf(a) + OpsOf(b[..m]) + OwnOps(b[m]) == OpsOf(a) + (OpsOf(b[..m]) + OwnOps(b[m]));
    }
  }

  lemma AppendInv(s: State, s2: State, base: nat)
    requires Inv(s, base) && Next(s, s2, Append)
    ensures Inv(s2, base)
  {
    hide Cover, Contiguous, AllOps, AllFit, Batches.Fits, Batches.Numbered, OpsOf, SyncKept, QueueFits;
    AppendLog(s, s2, base);
    AppendSync(s.finished, s.covers, s.synced, |s.finished| + s.phase.n);
    assert Inserted(s2) == Inserted(s);
    assert Leads(s2, s.phase.n, s.phase.num, s.phase.ops);
  }

  lemma AppendLog(s: State, s2: State, base: nat)
    requires Inv(s, base) && Next(s, s2, Append)
    ensures AllFit(s2.groups) && Contiguous(base, s2.groups) && Cover(s2.groups, s2.covers, Arrived(s2))
    ensures Done(s2) == s.groups == Done(s)
  {
    hide Cover, Contiguous, AllOps, AllFit, Batches.Fits, Batches.Numbered, OpsOf, SyncKept, QueueFits;
    var n, g := s.phase.n, Group(s.phase.num, s.phase.ops);
    OneGroupMore(s.groups, base, g);
    CoverOneMore(s.groups, s.covers, s.finished, s.queue, n, g);
    assert s2.groups[..|s.groups|] == s.groups;
    assert GroupFits(g);
  }

  lemma AppendSync(finished: seq<Waiting>, covers: seq<nat>, synced: nat, cover: nat)
    requires SyncKept(finished, covers, synced)
    ensures SyncKept(finished, covers + [cover], synced)
  {
    assert synced > 0 ==> (covers + [cover])[synced - 1] == covers[synced - 1];
  }

  lemma AllOpsSnoc(gs: seq<Group>, g: Group)
    ensures AllOps(gs + [g]) == AllOps(gs) + g.ops
  {
    assert (gs + [g])[..|gs|] == gs;
  }

  lemma OneGroupMore(gs: seq<Group>, base: nat, g: Group)
    requires Contiguous(base, gs) && g.num == base + 1 + |AllOps(gs)|
    ensures Contiguous(base, gs + [g]) && AllOps(gs + [g]) == AllOps(gs) + g.ops
    ensures AllFit(gs) && GroupFits(g) ==> AllFit(gs + [g])
  {
    hide AllOps, GroupFits;
    AllOpsSnoc(gs, g);
    var all := gs + [g];
    forall j | 0 <= j < |all| ensures all[j].num == base + 1 + |AllOps(all[..j])| {
      PrefixOneMore(gs, g, j);
    }
  }

  lemma CoverOneMore(gs: seq<Group>, covers: seq<nat>, finished: seq<Waiting>, queue: seq<Waiting>, n: nat, g: Group)
    requires Cover(gs, covers, finished + queue) && n <= |queue|
    requires OpsOf(finished) == AllOps(gs) && g.ops == OpsOf(queue[..n])
    requires forall j :: 0 <= j < |covers| ==> covers[j] <= |finished|
    ensures Cover(gs + [g], covers + [|finished| + n], finished + queue)
  {
    hide CoverAt, Ascending, AllOps, OpsOf;
    AscendingOneMore(covers, |finished| + n);
    CoverLast(gs, finished, queue, n, g);
    var all, more := gs + [g], covers + [|finished| + n];
    forall j | 0 <= j < |all| ensures CoverAt(all[..j + 1], more[j], finished + queue) {
      CoverPoint(gs, covers, finished + queue, g, |finished| + n, j);
    }
  }

  lemma CoverPoint(gs: seq<Group>, covers: seq<nat>, arrived: seq<Waiting>, g: Group, cover: nat, j: nat)
    requires Cover(gs, covers, arrived) && CoverAt(gs + [g], cover, arrived) && j <= |gs|
    ensures CoverAt((gs + [g])[..j + 1], (covers + [cover])[j], arrived)
  {
    hide CoverAt;
    PrefixOneMore(gs, g, j + 1);
    if j < |gs| {
      assert CoverAt(gs[..j + 1], covers[j], arrived);
    }
  }

  lemma PrefixOneMore(gs: seq<Group>, g: Group, n: nat)
    requires n <= |gs| + 1
    ensures (gs + [g])[..n] == if n <= |gs| then gs[..n] else gs + [g]
  {
  }

  lemma AscendingOneMore(covers: seq<nat>, cover: nat)
    requires Ascending(covers) && forall j :: 0 <= j < |covers| ==> covers[j] <= cover
    ensures Ascending(covers + [cover])
  {
  }

  lemma CoverLast(gs: seq<Group>, finished: seq<Waiting>, queue: seq<Waiting>, n: nat, g: Group)
    requires n <= |queue| && OpsOf(finished) == AllOps(gs) && g.ops == OpsOf(queue[..n])
    ensures CoverAt(gs + [g], |finished| + n, finished + queue)
  {
    hide AllOps, OpsOf;
    OpsOfAppend(finished, queue[..n]);
    AllOpsSnoc(gs, g);
    assert (finished + queue)[..|finished| + n] == finished + queue[..n];
  }

  lemma SyncInv(s: State, s2: State, base: nat)
    requires Inv(s, base) && Next(s, s2, Sync)
    ensures Inv(s2, base)
  {
    hide AllFit, Contiguous, Cover, AllOps, OpsOf, Batches.Numbered, Batches.Fits, QueueFits, IsGroup;
    assert Inserted(s2) == Inserted(s);
    assert Leads(s2, s.phase.n, s.phase.num, s.phase.ops);
    assert SyncKept(s2.finished, s2.covers, s2.synced);
  }

  lemma NumberedOneMore(b: nat, ops: seq<Op>, op: Op)
    ensures Batches.Numbered(b, ops + [op]) == Batches.Numbered(b, ops) + [Batches.Added(b + |ops|, op)]
  {
  }

  lemma InsertInv(s: State, s2: State, base: nat)
    requires Inv(s, base) && Next(s, s2, Insert)
    ensures Inv(s2, base)
  {
    hide AllFit, Contiguous, Cover, AllOps, OpsOf, Batches.Fits, QueueFits, IsGroup, SyncKept, Batches.Numbered;
    var i, ops := s.phase.done, s.phase.ops;
    assert ops[..i + 1] == ops[..i] + [ops[i]];
    assert Inserted(s2) == Inserted(s) + [ops[i]];
    assert Leads(s2, s.phase.n, s.phase.num, ops);
    NumberedOneMore(base + 1, Inserted(s), ops[i]);
  }

  lemma PublishInv(s: State, s2: State, base: nat)
    requires Inv(s, base) && Next(s, s2, Publish)
    ensures Inv(s2, base)
  {
    hide Inv, Next, Tally, SyncKept;
    PublishOps(s, s2, base);
    PublishTally(s, s2, base);
    PublishSync(s, s2, base);
    PublishRest(s, s2, base);
  }

  lemma PublishRest(s: State, s2: State, base: nat)
    requires Inv(s, base) && Next(s, s2, Publish)
    requires Tally(s2, base) && SyncKept(s2.finished, s2.covers, s2.synced)
    ensures Inv(s2, base)
  {
    hide AllFit, Contiguous, Cover, Batches.Numbered, Batches.Fits, IsGroup, SyncKept, AllOps, OpsOf, Tally;
    assert Arrived(s2) == Arrived(s);
  }

  lemma PublishTally(s: State, s2: State, base: nat)
    requires Inv(s, base) && Next(s, s2, Publish)
    requires OpsOf(s2.finished) == AllOps(s.groups) == Inserted(s) == Inserted(s2)
    requires |AllOps(s.groups)| == |AllOps(Done(s))| + |s.phase.ops|
    ensures Tally(s2, base)
  {
    hide AllFit, Contiguous, Cover, Batches.Numbered, Batches.Fits, IsGroup, SyncKept, AllOps, OpsOf, QueueFits;
    hide Inserted;
  }

  lemma PublishOps(s: State, s2: State, base: nat)
    requires Inv(s, base) && Next(s, s2, Publish)
    ensures OpsOf(s2.finished) == AllOps(s.groups) == Inserted(s) == Inserted(s2)
    ensures |AllOps(s.groups)| == |AllOps(Done(s))| + |s.phase.ops|
  {
    hide AllFit, Contiguous, Cover, Batches.Numbered, Batches.Fits, IsGroup, SyncKept, OpsOf, QueueFits;
    var n, m, ops := s.phase.n, |s.groups| - 1, s.phase.ops;
    OpsOfAppend(s.finished, s.queue[..n]);
    assert Done(s) == s.groups[..m] && Done(s2) == s.groups;
    assert AllOps(s.groups) == AllOps(Done(s)) + ops;
    assert ops[..|ops|] == ops;
  }

  lemma PublishSync(s: State, s2: State, base: nat)
    requires Inv(s, base) && Next(s, s2, Publish)
    ensures SyncKept(s2.finished, s2.covers, s2.synced)
  {
    hide AllFit, Contiguous, Cover, Batches.Numbered, Batches.Fits, IsGroup, AllOps, OpsOf, QueueFits;
    forall i | 0 <= i < |s2.finished| && s2.finished[i].sync && s2.finished[i].ops.Some?
      ensures i < Durable(s2.covers, s2.synced)
    {
      if i < |s.finished| {
        assert s2.finished[i] == s.finished[i];
      } else {
        assert s2.finished[i] == s.queue[i - |s.finished|];
      }
    }
  }

  lemma StepInv(s: State, s2: State, base: nat, step: Step)
    requires Inv(s, base) && Next(s, s2, step)
    ensures Inv(s2, base)
  {
    hide Inv;
    match step
    case Enqueue(w) => EnqueueInv(s, s2, base, w);
    case SkipEmpty => SkipEmptyInv(s, s2, base);
    case Lead(n) => LeadInv(s, s2, base, n);
    case Append => AppendInv(s, s2, base);
    case Sync => SyncInv(s, s2, base);
    case Insert => InsertInv(s, s2, base);
    case Publish => PublishInv(s, s2, base);
  }
}
