/** The invariant of the whole store, and that every step of every run keeps it. */
module StoreInvariant {
  import opened Options
  import opened Keys
  import opened Tables
  import opened Overlap
  import opened Inputs
  import opened Compaction
  import opened Builder
  import opened Reads
  import opened Store
  import opened LevelInvariant

  // ---------- the inputs of a compaction under way ----------

  /** Deeper levels: what is there now was there when the compaction was picked, or lies apart from its inputs. */
  ghost predicate DeepKnown(levels: Levels, job: Job) {
    && |levels| == |job.base| == NUM_LEVELS
    && forall l, g :: job.level + 2 <= l < NUM_LEVELS && g in levels[l] ==>
         g in job.base[l] || UserApart(g, job.in0 + job.in1)
  }

  ghost predicate JobReady(levels: Levels, job: Job) {
    && Separated(levels, job.level, job.in0, job.in1)
    && DeepKnown(levels, job)
    && job.snap < MAX_SEQUENCE
  }

  ghost predicate JobInv(db: DB) {
    db.job.Some? ==>
      var job := db.job.value;
      JobReady(db.levels, job) && Connected(job.in0 + job.in1) && job.snap <= Horizon(db)
  }

  // ---------- entries ----------

  ghost predicate OlderThan(a: set<Entry>, b: set<Entry>) {
    forall e, x :: e in a && x in b ==> e.key.num < x.key.num
  }

  /** Tables hold older entries than the immutable memtable, and that older ones than the memtable. */
  ghost predicate MemInv(db: DB) {
    && Sorted(db.mem) && (db.imm.Some? ==> Sorted(db.imm.value))
    && OlderThan(LevelEntries(db.levels), ImmEntries(db.imm) + ToSet(db.mem))
    && OlderThan(ImmEntries(db.imm), ToSet(db.mem))
  }

  ghost predicate SnapshotsInv(db: DB) {
    && (forall i :: 0 <= i < |db.snapshots| ==> db.snapshots[i] <= db.lastSequence)
    && (forall i, j :: 0 <= i < j < |db.snapshots| ==> db.snapshots[i] <= db.snapshots[j])
  }

  /** `written` is everything ever written; the store holds part of it. */
  ghost predicate WrittenInv(db: DB, written: set<Entry>) {
    && Content(db) <= written && Distinct(written)
    && db.lastSequence < MAX_SEQUENCE
    && forall e :: e in written ==> e.key.num <= db.lastSequence
  }

  ghost predicate Inv(db: DB, written: set<Entry>) {
    && LevelsInv(db.levels, db.nextFile)
    && MemInv(db)
    && SnapshotsInv(db)
    && WrittenInv(db, written)
    && JobInv(db)
  }

  // ---------- outputs of a compaction ----------

  lemma ContentsAt(fs: seq<File>, i: nat)
    requires i < |fs|
    ensures |Contents(fs)| == |fs| && Contents(fs)[i] == fs[i].entries
  {
  }

  ghost predicate EntriesBefore(a: seq<Entry>, b: seq<Entry>) {
    forall e, x :: e in a && x in b ==> Less(e.key, x.key)
  }

  ghost predicate Ascending(outputs: seq<File>) {
    forall i, j :: 0 <= i < j < |outputs| ==> EntriesBefore(outputs[i].entries, outputs[j].entries)
  }

  // Everything the outputs hold was kept from the input.
  lemma OutputEntries(job: Job, input: seq<Entry>, outputs: seq<File>)
    requires Sorted(input) && ToSet(input) == EntriesIn(job.in0 + job.in1)
    requires Flatten(Contents(outputs)) == Kept(input, |input|, job.snap, job.base, job.level)
    ensures forall o :: o in outputs ==> FromInputs(o, job.in0 + job.in1)
    ensures Ascending(outputs)
  {
    var cs := Contents(outputs);
    KeptSorted(input, |input|, job.snap, job.base, job.level);
    FlattenPieces(cs);
    forall o | o in outputs ensures FromInputs(o, job.in0 + job.in1) {
      var i :| 0 <= i < |outputs| && outputs[i] == o;
      PieceFromInput(job, input, outputs, i);
    }
    forall i, j | 0 <= i < j < |outputs| ensures EntriesBefore(outputs[i].entries, outputs[j].entries) {
      ContentsAt(outputs, i);
      ContentsAt(outputs, j);
    }
  }

  lemma PieceFromInput(job: Job, input: seq<Entry>, outputs: seq<File>, i: nat)
    requires ToSet(input) == EntriesIn(job.in0 + job.in1) && i < |outputs|
    requires forall e :: e in Contents(outputs)[i] ==> e in Flatten(Contents(outputs))
    requires forall e :: e in Flatten(Contents(outputs)) ==> exists k :: 0 <= k < |input| && input[k] == e
    ensures FromInputs(outputs[i], job.in0 + job.in1)
  {
    ContentsAt(outputs, i);
    forall e | e in outputs[i].entries ensures exists f :: f in job.in0 + job.in1 && e in f.entries {
      assert e in ToSet(input);
    }
  }

  lemma AscendingPair(f: File, g: File)
    requires f.Valid() && g.Valid() && EntriesBefore(f.entries, g.entries)
    ensures Before(f, g)
  {
    assert f.entries[|f.entries| - 1] in f.entries && g.entries[0] in g.entries;
  }

  lemma OutputsDisjoint(outputs: seq<File>)
    requires forall o :: o in outputs ==> o.Valid()
    requires Ascending(outputs)
    ensures PairwiseDisjoint(outputs)
  {
    forall f, g | f in outputs && g in outputs && f != g ensures Before(f, g) || Before(g, f) {
      var i :| 0 <= i < |outputs| && outputs[i] == f;
      var j :| 0 <= j < |outputs| && outputs[j] == g;
      if i < j { AscendingPair(f, g); } else { AscendingPair(g, f); }
    }
  }

  lemma CompactionFits(levels: Levels, nextFile: nat, job: Job, input: seq<Entry>, outputs: seq<File>)
    requires |levels| == NUM_LEVELS && CompactionOutputs(levels, nextFile, job, input, outputs)
    ensures OutputsFit(levels, nextFile, job.level, job.in0, job.in1, outputs)
  {
    OutputEntries(job, input, outputs);
    OutputsDisjoint(outputs);
  }

  lemma MoveFits(levels: Levels, nextFile: nat, level: nat, f: File)
    requires LevelsInv(levels, nextFile) && level + 1 < NUM_LEVELS && f in levels[level]
    ensures OutputsFit(levels, nextFile, level, [f], [], [f])
  {
    hide LevelsSorted, Layered, NewestByNumber, File.Valid;
    assert [f] + [] == [f];
    forall e | e in f.entries ensures exists g :: g in [f] + [] && e in g.entries {
      assert f in [f] + [];
    }
  }

  // ---------- flush ----------

  ghost predicate OnlyAdded(levels: Levels, levels2: Levels, l: nat, f: File) {
    && |levels| == |levels2| == NUM_LEVELS && l < NUM_LEVELS
    && levels2 == levels[l := levels2[l]]
    && SortedBySmallest(levels2[l])
    && forall g :: g in levels2[l] <==> g in levels[l] || g == f
  }

  /** Adding a table of newer entries at a level where nothing at or above it overlaps keeps the level invariant. */
  lemma FlushLevels(levels: Levels, levels2: Levels, nextFile: nat, l: nat, f: File)
    requires LevelsInv(levels, nextFile) && OnlyAdded(levels, levels2, l, f)
    requires f.Valid() && f.number == nextFile
    requires OlderThan(LevelEntries(levels), ToSet(f.entries))
    requires l > 0 ==> forall k :: 0 <= k <= l ==> !SomeOverlap(levels[k], Some(f.Lo()), Some(f.Hi()))
    ensures LevelsInv(levels2, nextFile + 1)
  {
    hide LevelsSorted, Layered, FilesValid, NewestByNumber, OlderThan, SomeOverlap;
    FlushLayered(levels, levels2, nextFile, l, f);
    FlushSorted(levels, levels2, nextFile, l, f);
    FlushValid(levels, levels2, nextFile, l, f);
    FlushNewest(levels, levels2, nextFile, l, f);
  }

  lemma FlushValid(levels: Levels, levels2: Levels, nextFile: nat, l: nat, f: File)
    requires FilesValid(levels, nextFile) && OnlyAdded(levels, levels2, l, f)
    requires f.Valid() && f.number == nextFile
    ensures FilesValid(levels2, nextFile + 1)
  {
    hide File.Valid, SortedBySmallest;
    assert forall m, g :: 0 <= m < NUM_LEVELS && g in levels2[m] ==> g in levels[m] || (m == l && g == f);
  }

  // In level 0 the flushed table has the highest number and the newest entries.
  lemma FlushNewest(levels: Levels, levels2: Levels, nextFile: nat, l: nat, f: File)
    requires FilesValid(levels, nextFile) && OnlyAdded(levels, levels2, l, f) && NewestByNumber(levels[0])
    requires f.number == nextFile && OlderThan(LevelEntries(levels), ToSet(f.entries))
    ensures NewestByNumber(levels2[0])
  {
    hide File.Valid, SortedBySmallest;
    forall g, h | g in levels2[0] && h in levels2[0] && g.number < h.number ensures AllOlder(g, h) {
      if h == f && g in levels[0] {
        forall e, x | e in g.entries && x in h.entries ensures e.key.num < x.key.num {
          InLevels(levels, 0, g, e);
        }
      }
    }
  }

  lemma FlushSorted(levels: Levels, levels2: Levels, nextFile: nat, l: nat, f: File)
    requires LevelsSorted(levels) && OnlyAdded(levels, levels2, l, f)
    requires l > 0 ==> !SomeOverlap(levels[l], Some(f.Lo()), Some(f.Hi()))
    ensures LevelsSorted(levels2)
  {
    if l > 0 {
      LevelPairwise(levels[l]);
      forall g, h | g in levels2[l] && h in levels2[l] && g != h ensures Before(g, h) || Before(h, g) {
        assert g in levels[l] ==> !Overlaps(g, Some(f.Lo()), Some(f.Hi()));
        assert h in levels[l] ==> !Overlaps(h, Some(f.Lo()), Some(f.Hi()));
      }
      DisjointSorted(levels2[l]);
    }
  }

  lemma FlushLayered(levels: Levels, levels2: Levels, nextFile: nat, l: nat, f: File)
    requires Layered(levels) && FilesValid(levels, nextFile) && OnlyAdded(levels, levels2, l, f) && f.Valid()
    requires OlderThan(LevelEntries(levels), ToSet(f.entries))
    requires l > 0 ==> forall k :: 0 <= k <= l ==> !SomeOverlap(levels[k], Some(f.Lo()), Some(f.Hi()))
    ensures Layered(levels2)
  {
    forall i, j, g, h | 0 <= i < j < NUM_LEVELS && g in levels2[i] && h in levels2[j] ensures NewerFile(g, h) {
      if i == l && g == f {
        assert h in levels[j];
        forall e, x | e in g.entries && x in h.entries ensures e.key.num > x.key.num {
          InLevels(levels, j, h, x);
          assert e in ToSet(f.entries);
        }
      } else if j == l && h == f {
        assert g in levels[i] && !Overlaps(g, Some(f.Lo()), Some(f.Hi()));
        NoSharedUser(g, f);
      } else {
        assert g in levels[i] && h in levels[j];
      }
    }
  }

  /** A file that overlaps none of a gapless set of files lies wholly on one side of them. */
  lemma ConnectedApart(g: File, fs: seq<File>)
    requires Connected(fs) && UserApart(g, fs)
    ensures Apart(g, fs)
  {
    assert !CoveredBy(fs, g.Lo());
  }

  lemma NewerFlushed(levels: Levels, f: File, l: nat, h: File)
    requires OlderThan(LevelEntries(levels), ToSet(f.entries)) && l < |levels| && h in levels[l]
    ensures NewerFile(f, h)
  {
    forall e, x | e in f.entries && x in h.entries ensures e.key.num > x.key.num {
      InLevels(levels, l, h, x);
      assert e in ToSet(f.entries);
    }
  }

  // Where the flushed table lands below the compacted level, it lies apart from all inputs.
  lemma FlushedApart(levels: Levels, job: Job, l: nat, f: File)
    requires Separated(levels, job.level, job.in0, job.in1) && job.level < l < NUM_LEVELS
    requires forall k :: 0 <= k <= l ==> !SomeOverlap(levels[k], Some(f.Lo()), Some(f.Hi()))
    ensures UserApart(f, job.in0 + job.in1)
  {
    forall h | h in job.in0 + job.in1 ensures f.Hi() < h.Lo() || h.Hi() < f.Lo() {
      assert h in levels[job.level] || h in levels[job.level + 1];
      assert !Overlaps(h, Some(f.Lo()), Some(f.Hi()));
    }
  }

  /** A flush in the middle of a compaction does not disturb it. */
  lemma FlushJob(levels: Levels, levels2: Levels, job: Job, l: nat, f: File)
    requires JobReady(levels, job) && Connected(job.in0 + job.in1)
    requires OnlyAdded(levels, levels2, l, f)
    requires OlderThan(LevelEntries(levels), ToSet(f.entries))
    requires l > 0 ==> forall k :: 0 <= k <= l ==> !SomeOverlap(levels[k], Some(f.Lo()), Some(f.Hi()))
    ensures JobReady(levels2, job)
  {
    assert forall m, g :: 0 <= m < NUM_LEVELS && g in levels2[m] ==> g in levels[m] || (m == l && g == f);
    assert forall m, g :: 0 <= m < NUM_LEVELS && g in levels[m] ==> g in levels2[m];
    if l > job.level {
      FlushedApart(levels, job, l, f);
      ConnectedApart(f, job.in0 + job.in1);
      assert UserApart(f, job.in0) by {
        forall h | h in job.in0 ensures f.Hi() < h.Lo() || h.Hi() < f.Lo() {
          assert h in job.in0 + job.in1;
        }
      }
    }
    forall g, h | g in levels2[job.level] && g !in job.in0 && h in job.in0 ensures NewerFile(g, h) {
      if g !in levels[job.level] {
        NewerFlushed(levels, f, job.level, h);
      }
    }
  }

  // ---------- one lemma a step ----------

  lemma BatchNumbers(ops: seq<Update>, last: nat)
    ensures forall e :: e in BatchEntries(ops, last) ==> last < e.key.num <= last + |ops|
    ensures Distinct(BatchEntries(ops, last))
  {
  }

  lemma HorizonBounds(db: DB)
    requires SnapshotsInv(db)
    ensures Horizon(db) <= db.lastSequence
    ensures forall i :: 0 <= i < |db.snapshots| ==> Horizon(db) <= db.snapshots[i]
  {
  }

  lemma WriteInv(db: DB, written: set<Entry>, db2: DB, ops: seq<Update>)
    requires Inv(db, written) && DoWrite(db, db2, ops)
    ensures Inv(db2, written + BatchEntries(ops, db.lastSequence))
  {
    BatchNumbers(ops, db.lastSequence);
    var batch := BatchEntries(ops, db.lastSequence);
    assert forall e :: e in Content(db) ==> e.key.num <= db.lastSequence;
    assert Content(db2) == Content(db) + batch;
    HorizonBounds(db);
  }

  lemma SwitchInv(db: DB, written: set<Entry>, db2: DB)
    requires Inv(db, written) && DoSwitch(db, db2)
    ensures Inv(db2, written)
    ensures Content(db2) == Content(db)
  {
    assert ToSet([]) == {};
  }

  lemma AddedEntries(levels: Levels, levels2: Levels, l: nat, f: File)
    requires OnlyAdded(levels, levels2, l, f)
    ensures LevelEntries(levels2) == LevelEntries(levels) + ToSet(f.entries)
  {
    forall e | e in LevelEntries(levels2) ensures e in LevelEntries(levels) + ToSet(f.entries) {
      var m, g :| 0 <= m < |levels2| && g in levels2[m] && e in g.entries;
      assert g in levels[m] || g == f;
    }
    forall e | e in LevelEntries(levels) + ToSet(f.entries) ensures e in LevelEntries(levels2) {
      if e in LevelEntries(levels) {
        var m, g :| 0 <= m < |levels| && g in levels[m] && e in g.entries;
        assert g in levels2[m];
      } else {
        assert f in levels2[l];
      }
    }
  }

  ghost predicate Flushed(db: DB, db2: DB, l: nat, f: File) {
    && db.imm == Some(f.entries) && f.Valid() && f.number == db.nextFile
    && OnlyAdded(db.levels, db2.levels, l, f)
    && (l > 0 ==> forall k :: 0 <= k <= l ==> !SomeOverlap(db.levels[k], Some(f.Lo()), Some(f.Hi())))
    && db2 == db.(imm := None, nextFile := db.nextFile + 1, levels := db2.levels)
  }

  lemma FlushIsAddition(db: DB, db2: DB, size: nat, maxOverlap: nat) returns (l: nat, f: File)
    requires DoFlush(db, db2, size, maxOverlap) && db.imm.value != []
    ensures Flushed(db, db2, l, f)
  {
    f := TableOf(db.nextFile, size, db.imm.value);
    l := PickLevel(db.levels, f.Lo(), f.Hi(), maxOverlap);
    PickLevelClear(db.levels, f.Lo(), f.Hi(), maxOverlap);
  }

  lemma FlushedMem(db: DB, db2: DB, l: nat, f: File)
    requires MemInv(db) && Flushed(db, db2, l, f)
    ensures MemInv(db2) && Content(db2) == Content(db)
    ensures OlderThan(LevelEntries(db.levels), ToSet(f.entries))
  {
    AddedEntries(db.levels, db2.levels, l, f);
    assert ImmEntries(db.imm) == ToSet(f.entries);
  }

  lemma FlushedLevels(db: DB, db2: DB, l: nat, f: File)
    requires LevelsInv(db.levels, db.nextFile) && JobInv(db) && Flushed(db, db2, l, f)
    requires OlderThan(LevelEntries(db.levels), ToSet(f.entries))
    ensures LevelsInv(db2.levels, db2.nextFile) && JobInv(db2)
  {
    FlushLevels(db.levels, db2.levels, db.nextFile, l, f);
    if db.job.Some? {
      FlushJob(db.levels, db2.levels, db.job.value, l, f);
    }
  }

  lemma FlushInv(db: DB, written: set<Entry>, db2: DB, size: nat, maxOverlap: nat)
    requires Inv(db, written) && DoFlush(db, db2, size, maxOverlap)
    ensures Inv(db2, written)
    ensures Content(db2) == Content(db)
  {
    if db.imm.value == [] {
      assert ToSet([]) == {};
    } else {
      var l, f := FlushIsAddition(db, db2, size, maxOverlap);
      FlushedMem(db, db2, l, f);
      FlushedLevels(db, db2, l, f);
    }
  }

  // The entries of rewritten levels were there before.
  lemma RewrittenEntries(levels: Levels, levels2: Levels, level: nat, in0: seq<File>, in1: seq<File>, outs: seq<File>)
    requires Separated(levels, level, in0, in1) && Rewritten(levels, levels2, level, in0, in1, outs)
    requires forall o :: o in outs ==> FromInputs(o, in0 + in1)
    ensures LevelEntries(levels2) <= LevelEntries(levels)
  {
    forall e | e in LevelEntries(levels2) ensures e in LevelEntries(levels) {
      var l, f :| 0 <= l < |levels2| && f in levels2[l] && e in f.entries;
      assert Kin(levels, level, in0, in1, outs, l, f);
      if !(f in levels[l]) {
        var h :| h in in0 + in1 && e in h.entries;
        assert h in levels[level] || h in levels[level + 1];
      }
    }
  }

  /** Rewriting files one level down keeps the invariant, whatever entries of the inputs the new files drop. */
  lemma RewriteInv(db: DB, written: set<Entry>, levels2: Levels, level: nat, in0: seq<File>, in1: seq<File>,
                   outs: seq<File>)
    requires Inv(db, written) && Separated(db.levels, level, in0, in1)
    requires OutputsFit(db.levels, db.nextFile, level, in0, in1, outs)
    requires Replaced(db.levels, levels2, level, in0, in1, outs)
    ensures Inv(db.(levels := levels2, job := None), written)
  {
    ReplacedInv(db.levels, levels2, db.nextFile, level, in0, in1, outs);
    ReplacedFiles(db.levels, levels2, level, in0, in1, outs);
    RewrittenEntries(db.levels, levels2, level, in0, in1, outs);
  }

  lemma ContentDistinct(db: DB, written: set<Entry>)
    requires WrittenInv(db, written)
    ensures Distinct(LevelEntries(db.levels))
  {
  }

  lemma MoveInv(db: DB, written: set<Entry>, db2: DB, level: nat, f: File)
    requires Inv(db, written) && DoTrivialMove(db, db2, level, f)
    ensures Inv(db2, written)
  {
    ContentDistinct(db, written);
    PlanSeparated(db.levels, db.nextFile, level, [f], []);
    assert f in [f];
    MoveFits(db.levels, db.nextFile, level, f);
    RewriteInv(db, written, db2.levels, level, [f], [], [f]);
  }

  /** A compaction that has been picked is ready to be installed. */
  lemma PlanReady(db: DB, written: set<Entry>, level: nat, in0: seq<File>, in1: seq<File>)
    requires Inv(db, written) && Planned(db, level, in0, in1)
    ensures JobReady(db.levels, Job(level, in0, in1, db.levels, Horizon(db)))
  {
    ContentDistinct(db, written);
    PlanSeparated(db.levels, db.nextFile, level, in0, in1);
    HorizonBounds(db);
  }

  lemma InstallInv(db: DB, written: set<Entry>, db2: DB, job: Job, input: seq<Entry>, outputs: seq<File>)
    requires Inv(db, written) && JobReady(db.levels, job)
    requires DoFinish(db.(job := Some(job)), db2, input, outputs)
    ensures Inv(db2, written)
  {
    CompactionFits(db.levels, db.nextFile, job, input, outputs);
    RewriteInv(db, written, db2.levels, job.level, job.in0, job.in1, outputs);
  }

  lemma ReleaseInv(db: DB, written: set<Entry>, db2: DB, i: nat)
    requires Inv(db, written) && Next(db, db2, ReleaseSnapshot(i))
    ensures Inv(db2, written)
  {
    HorizonBounds(db);
    assert Horizon(db) <= Horizon(db2);
  }

  lemma NoFilesInv(levels: Levels)
    requires |levels| == NUM_LEVELS && forall l :: 0 <= l < NUM_LEVELS ==> levels[l] == []
    ensures LevelsInv(levels, 2) && LevelEntries(levels) == {}
  {
    hide File.Valid, NewerFile, AllOlder, Before, BySmallest;
  }

  lemma InitialInv()
    ensures Inv(EMPTY, {})
  {
    assert forall l :: 0 <= l < NUM_LEVELS ==> EMPTY.levels[l] == [];
    NoFilesInv(EMPTY.levels);
    assert ToSet([]) == {};
  }

  lemma AllocateInv(db: DB, written: set<Entry>)
    requires Inv(db, written)
    ensures Inv(db.(nextFile := db.nextFile + 1), written)
  {
    hide NewestByNumber, Layered, LevelsSorted, File.Valid, JobReady, Connected, OlderThan, Distinct;
  }

  lemma SnapshotInv(db: DB, written: set<Entry>)
    requires Inv(db, written)
    ensures Inv(db.(snapshots := db.snapshots + [db.lastSequence]), written)
  {
    hide LevelsInv, JobReady, Connected, OlderThan, Distinct;
    HorizonBounds(db);
  }

  lemma AbandonInv(db: DB, written: set<Entry>)
    requires Inv(db, written)
    ensures Inv(db.(job := None), written)
  {
    hide LevelsInv, OlderThan, JobReady, Distinct;
  }

  lemma StartInv(db: DB, written: set<Entry>, db2: DB, level: nat, in0: seq<File>, in1: seq<File>)
    requires Inv(db, written) && DoStart(db, db2, level, in0, in1)
    ensures Inv(db2, written)
  {
    hide LevelsInv, OlderThan, JobReady, Connected, Plan, Distinct;
    PlanReady(db, written, level, in0, in1);
  }

  /** Every step keeps the invariant. */
  lemma StepInv(db: DB, written: set<Entry>, db2: DB, step: Step)
    requires Inv(db, written) && Next(db, db2, step)
    ensures Inv(db2, written + WrittenBy(db, step))
  {
    hide LevelsInv, MemInv, SnapshotsInv, WrittenInv, LevelEntries, JobReady, Connected, OlderThan, Distinct;
    hide Plan, Saved, Replaced, CompactionOutputs, ToSet, Sorted, BatchEntries;
    assert !step.Write? ==> written + WrittenBy(db, step) == written;
    match step
    case Write(ops) => WriteInv(db, written, db2, ops);
    case SwitchMemtable => SwitchInv(db, written, db2);
    case Flush(size, maxOverlap) => FlushInv(db, written, db2, size, maxOverlap);
    case AllocateFile => AllocateInv(db, written);
    case TrivialMove(level, f) => MoveInv(db, written, db2, level, f);
    case StartCompaction(level, in0, in1) => StartInv(db, written, db2, level, in0, in1);
    case FinishCompaction(input, outputs) => InstallInv(db, written, db2, db.job.value, input, outputs);
    case AbandonCompaction => AbandonInv(db, written);
    case ManualCompaction(level, in0, in1, input, outputs) =>
      PlanReady(db, written, level, in0, in1);
      InstallInv(db, written, db2, Job(level, in0, in1, db.levels, Horizon(db)), input, outputs);
    case GetSnapshot => SnapshotInv(db, written);
    case ReleaseSnapshot(i) => ReleaseInv(db, written, db2, i);
  }
}
