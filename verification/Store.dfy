/** The store as a state machine: writes, memtable switches, flushes, trivial moves, compactions in the background,
    and snapshots. One step is one change made under the mutex. */
module Store {
  import opened Options
  import opened Keys
  import opened Tables
  import opened Overlap
  import opened Inputs
  import opened Compaction
  import opened Builder

  datatype Update = Put(user: UserKey, value: string) | Delete(user: UserKey)

  /** A compaction under way: its inputs, the version it was picked from and the oldest snapshot it must serve. */
  datatype Job = Job(level: nat, in0: seq<File>, in1: seq<File>, base: Levels, snap: nat)

  datatype DB = DB(
    mem: seq<Entry>,
    imm: Option<seq<Entry>>,
    levels: Levels,
    lastSequence: nat,
    nextFile: nat,
    snapshots: seq<nat>,
    job: Option<Job>)

  // ---------- what a state holds ----------

  ghost function LevelEntries(levels: Levels): set<Entry> {
    set l, f, e | 0 <= l < |levels| && f in levels[l] && e in f.entries :: e
  }

  ghost function ImmEntries(imm: Option<seq<Entry>>): set<Entry> {
    if imm.Some? then ToSet(imm.value) else {}
  }

  ghost function Content(db: DB): set<Entry> {
    ToSet(db.mem) + ImmEntries(db.imm) + LevelEntries(db.levels)
  }

  /** Every live reader reads at this sequence number or above. */
  function Horizon(db: DB): nat {
    if db.snapshots == [] then db.lastSequence else db.snapshots[0]
  }

  // ---------- steps ----------

  function EntryFor(op: Update, num: nat): Entry {
    match op
    case Put(u, v) => Entry(InternalKey(u, num, TypeValue), v)
    case Delete(u) => Entry(InternalKey(u, num, TypeDeletion), "")
  }

  /** A batch takes consecutive sequence numbers. */
  ghost function BatchEntries(ops: seq<Update>, last: nat): set<Entry> {
    set i | 0 <= i < |ops| :: EntryFor(ops[i], last + 1 + i)
  }

  function TableOf(number: nat, size: nat, entries: seq<Entry>): FileMeta
    requires entries != []
  {
    FileMeta(number, size, entries[0].key, entries[|entries| - 1].key, entries)
  }

  datatype Step =
    | Write(ops: seq<Update>)
    | SwitchMemtable
    | Flush(size: nat, maxOverlap: nat)
    | AllocateFile
    | TrivialMove(level: nat, file: File)
    | StartCompaction(level: nat, in0: seq<File>, in1: seq<File>)
    | FinishCompaction(input: seq<Entry>, outputs: seq<File>)
    | AbandonCompaction
    | ManualCompaction(level: nat, in0: seq<File>, in1: seq<File>, input: seq<Entry>, outputs: seq<File>)
    | GetSnapshot
    | ReleaseSnapshot(i: nat)

  ghost predicate DoWrite(db: DB, db2: DB, ops: seq<Update>) {
    && db.lastSequence + |ops| < MAX_SEQUENCE
    && Sorted(db2.mem) && ToSet(db2.mem) == ToSet(db.mem) + BatchEntries(ops, db.lastSequence)
    && db2 == db.(mem := db2.mem, lastSequence := db.lastSequence + |ops|)
  }

  ghost predicate DoSwitch(db: DB, db2: DB) {
    db.imm.None? && db2 == db.(imm := Some(db.mem), mem := [])
  }

  ghost predicate DoFlush(db: DB, db2: DB, size: nat, maxOverlap: nat) {
    && db.imm.Some? && |db.levels| == |db2.levels| == NUM_LEVELS
    && if db.imm.value == [] then db2 == db.(imm := None)
       else
         var f := TableOf(db.nextFile, size, db.imm.value);
         && f.Valid() && !Less(f.largest, f.smallest)
         && var l := PickLevel(db.levels, f.Lo(), f.Hi(), maxOverlap);
            && l < NUM_LEVELS
            && Saved(db.levels[l], {}, [f], db2.levels[l])
            && db2 == db.(imm := None, nextFile := db.nextFile + 1, levels := db.levels[l := db2.levels[l]])
  }

  /** Replaces files of a level and the next one. */
  ghost predicate Replaced(levels: Levels, levels2: Levels, level: nat, in0: seq<File>, in1: seq<File>,
                           added: seq<File>) {
    && |levels| == |levels2| == NUM_LEVELS && level + 1 < NUM_LEVELS
    && Saved(levels[level], Numbers(in0), [], levels2[level])
    && Saved(levels[level + 1], Numbers(in1), added, levels2[level + 1])
    && levels2 == levels[level := levels2[level]][level + 1 := levels2[level + 1]]
  }

  ghost function Numbers(fs: seq<File>): set<nat> {
    set f | f in fs :: f.number
  }

  ghost predicate DoTrivialMove(db: DB, db2: DB, level: nat, f: File) {
    && db.job.None? && |db.levels| == NUM_LEVELS && level + 1 < NUM_LEVELS
    && Plan(level, db.levels[level], db.levels[level + 1], [f], [])
    && Replaced(db.levels, db2.levels, level, [f], [], [f])
    && db2 == db.(levels := db2.levels)
  }

  ghost predicate Planned(db: DB, level: nat, in0: seq<File>, in1: seq<File>) {
    && db.job.None? && |db.levels| == NUM_LEVELS && level + 1 < NUM_LEVELS
    && Plan(level, db.levels[level], db.levels[level + 1], in0, in1)
  }

  ghost predicate DoStart(db: DB, db2: DB, level: nat, in0: seq<File>, in1: seq<File>) {
    && Planned(db, level, in0, in1) && Connected(in0 + in1)
    && db2 == db.(job := Some(Job(level, in0, in1, db.levels, Horizon(db))))
  }

  function Contents(fs: seq<File>): seq<seq<Entry>> {
    seq(|fs|, i requires 0 <= i < |fs| => fs[i].entries)
  }

  /** The outputs are the tables the merge loop writes from the inputs, under file numbers not in use. */
  ghost predicate CompactionOutputs(levels: Levels, nextFile: nat, job: Job, input: seq<Entry>, outputs: seq<File>) {
    && Sorted(input) && ToSet(input) == EntriesIn(job.in0 + job.in1)
    && Flatten(Contents(outputs)) == Kept(input, |input|, job.snap, job.base, job.level)
    && (forall f :: f in outputs ==> f.Valid() && f.number < nextFile)
    && (forall i, j :: 0 <= i < j < |outputs| ==> outputs[i].number != outputs[j].number)
    && (forall f, l, g :: f in outputs && 0 <= l < |levels| && g in levels[l] ==> f.number != g.number)
  }

  ghost predicate DoFinish(db: DB, db2: DB, input: seq<Entry>, outputs: seq<File>) {
    && db.job.Some?
    && var job := db.job.value;
       && CompactionOutputs(db.levels, db.nextFile, job, input, outputs)
       && Replaced(db.levels, db2.levels, job.level, job.in0, job.in1, outputs)
       && db2 == db.(job := None, levels := db2.levels)
  }

  /** The state between picking and installing, when nothing else may happen between the two. */
  ghost function WithJob(db: DB, level: nat, in0: seq<File>, in1: seq<File>): DB {
    db.(job := Some(Job(level, in0, in1, db.levels, Horizon(db))))
  }

  ghost predicate Next(db: DB, db2: DB, step: Step) {
    match step
    case Write(ops) => DoWrite(db, db2, ops)
    case SwitchMemtable => DoSwitch(db, db2)
    case Flush(size, maxOverlap) => DoFlush(db, db2, size, maxOverlap)
    case AllocateFile => db2 == db.(nextFile := db.nextFile + 1)
    case TrivialMove(level, f) => DoTrivialMove(db, db2, level, f)
    case StartCompaction(level, in0, in1) => DoStart(db, db2, level, in0, in1)
    case FinishCompaction(input, outputs) => DoFinish(db, db2, input, outputs)
    case AbandonCompaction => db2 == db.(job := None)
    case ManualCompaction(level, in0, in1, input, outputs) =>
      Planned(db, level, in0, in1) && DoFinish(WithJob(db, level, in0, in1), db2, input, outputs)
    case GetSnapshot => db2 == db.(snapshots := db.snapshots + [db.lastSequence])
    case ReleaseSnapshot(i) =>
      i < |db.snapshots| && db2 == db.(snapshots := db.snapshots[..i] + db.snapshots[i + 1..])
  }

  const EMPTY: DB := DB([], None, [[], [], [], [], [], [], []], 0, 2, [], None)

  /** Everything ever written, in terms of the steps taken. */
  ghost function WrittenBy(db: DB, step: Step): set<Entry> {
    if step.Write? then BatchEntries(step.ops, db.lastSequence) else {}
  }
}
