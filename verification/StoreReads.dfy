/** No reader notices a flush, a move or a compaction, with one exact exception; and snapshot reads over whole runs. */
module StoreReads {
  import opened Options
  import opened Keys
  import opened Tables
  import opened Overlap
  import opened Inputs
  import opened Compaction
  import opened Builder
  import opened Reads
  import opened Store
  import opened LevelInvariant
  import opened StoreInvariant

  /** The one way a compaction changes what readers see. Boundary files are added at the compacted level only, so a
      file of the next level may be left behind that starts with the user key on which the inputs there end. If the
      newest entry of that key is an obsolete deletion among the inputs, dropping it uncovers that file's first
      entry. */
  ghost predicate Resurrects(db: DB, job: Job) {
    job.level + 1 < |db.levels|
    && exists key, g, t ::
         && IsLargest(job.in1, key) && IsLeastBoundary(db.levels[job.level + 1], key, g)
         && g.entries != [] && g.entries[0].key.kind.TypeValue?
         && Uncovers(db, job, key.user, t)
  }

  ghost predicate Uncovers(db: DB, job: Job, u: UserKey, t: Entry) {
    && IsNewest(Content(db), u, job.snap, t) && t in EntriesIn(job.in1)
    && Obsolete(t, job.snap, job.base, job.level)
  }

  /** The setting of all that follows: a compaction about to be installed, and its outcome. */
  ghost predicate Installs(db: DB, db2: DB, job: Job, input: seq<Entry>, outputs: seq<File>) {
    && LevelsInv(db.levels, db.nextFile) && MemInv(db) && Distinct(Content(db))
    && JobReady(db.levels, job)
    && DoFinish(db.(job := Some(job)), db2, input, outputs)
  }

  // ---------- where entries are after a compaction ----------

  /** The entry is in a file that the compaction does not touch. */
  ghost predicate Untouched(levels: Levels, job: Job, l: nat, g: File) {
    l < |levels| && g in levels[l] && Stays(job.level, job.in0, job.in1, l, g)
  }

  lemma AfterLevels(db: DB, db2: DB, job: Job, input: seq<Entry>, outputs: seq<File>, e: Entry)
    requires |db.levels| == NUM_LEVELS && DoFinish(db.(job := Some(job)), db2, input, outputs)
    requires e in LevelEntries(db2.levels)
    ensures (exists l, g :: Untouched(db.levels, job, l, g) && e in g.entries)
            || e in Kept(input, |input|, job.snap, job.base, job.level)
  {
    ReplacedFiles(db.levels, db2.levels, job.level, job.in0, job.in1, outputs);
    var l, f :| 0 <= l < |db2.levels| && f in db2.levels[l] && e in f.entries;
    assert Kin(db.levels, job.level, job.in0, job.in1, outputs, l, f);
    if f in db.levels[l] && Stays(job.level, job.in0, job.in1, l, f) {
      assert Untouched(db.levels, job, l, f);
    } else {
      var i :| 0 <= i < |outputs| && outputs[i] == f;
      ContentsAt(outputs, i);
      KeptSorted(input, |input|, job.snap, job.base, job.level);
      FlattenPieces(Contents(outputs));
      assert e in Contents(outputs)[i];
    }
  }

  lemma StaysBehind(db: DB, db2: DB, job: Job, input: seq<Entry>, outputs: seq<File>, l: nat, g: File, e: Entry)
    requires LevelsInv(db.levels, db.nextFile) && Separated(db.levels, job.level, job.in0, job.in1)
    requires DoFinish(db.(job := Some(job)), db2, input, outputs)
    requires Untouched(db.levels, job, l, g) && e in g.entries
    ensures e in LevelEntries(db2.levels)
  {
    assert g in db2.levels[l];
  }

  lemma KeptStays(db: DB, db2: DB, job: Job, input: seq<Entry>, outputs: seq<File>, e: Entry)
    requires LevelsInv(db.levels, db.nextFile) && Separated(db.levels, job.level, job.in0, job.in1)
    requires DoFinish(db.(job := Some(job)), db2, input, outputs)
    requires e in Kept(input, |input|, job.snap, job.base, job.level)
    ensures e in LevelEntries(db2.levels)
  {
    hide FilesValid, LevelsSorted, Layered, NewestByNumber, Apart, UserApart, NewerFile, Kept, Flatten, Contents;
    hide SortedBySmallest;
    var o := OutputWith(outputs, e);
    assert forall h :: h in job.in1 ==> h in db.levels[job.level + 1];
    assert o in db2.levels[job.level + 1];
  }

  lemma OutputWith(outputs: seq<File>, e: Entry) returns (o: File)
    requires e in Flatten(Contents(outputs))
    ensures o in outputs && e in o.entries
  {
    FlattenMember(Contents(outputs), e);
    var t :| t in Contents(outputs) && e in t;
    var i :| 0 <= i < |outputs| && Contents(outputs)[i] == t;
    ContentsAt(outputs, i);
    o := outputs[i];
  }

  // An input entry that is gone was dropped by one of the two rules.
  lemma GoneWhy(job: Job, input: seq<Entry>, e: Entry) returns (i: nat)
    requires ToSet(input) == EntriesIn(job.in0 + job.in1) && e in EntriesIn(job.in0 + job.in1)
    requires e !in Kept(input, |input|, job.snap, job.base, job.level)
    ensures i < |input| && input[i] == e && Dropped(input, i, job.snap, job.base, job.level)
  {
    assert e in ToSet(input);
    i :| 0 <= i < |input| && input[i] == e;
    KeptMember(input, |input|, job.snap, job.base, job.level, e);
  }

  /** What a compaction removes was in its inputs and was not kept. */
  lemma GoneFromInputs(db: DB, db2: DB, job: Job, input: seq<Entry>, outputs: seq<File>, n: Entry)
    requires LevelsInv(db.levels, db.nextFile) && Separated(db.levels, job.level, job.in0, job.in1)
    requires DoFinish(db.(job := Some(job)), db2, input, outputs)
    requires n in Content(db) && n !in Content(db2)
    ensures n in EntriesIn(job.in0 + job.in1)
    ensures n !in Kept(input, |input|, job.snap, job.base, job.level)
  {
    var l, f :| 0 <= l < |db.levels| && f in db.levels[l] && n in f.entries;
    if Untouched(db.levels, job, l, f) {
      StaysBehind(db, db2, job, input, outputs, l, f, n);
    }
    assert f in job.in0 + job.in1;
    if n in Kept(input, |input|, job.snap, job.base, job.level) {
      KeptStays(db, db2, job, input, outputs, n);
    }
  }

  lemma InputEntry(levels: Levels, job: Job, e: Entry)
    requires Separated(levels, job.level, job.in0, job.in1) && e in EntriesIn(job.in0 + job.in1)
    ensures e in LevelEntries(levels)
  {
    var f :| f in job.in0 + job.in1 && e in f.entries;
    assert f in levels[job.level] || f in levels[job.level + 1];
  }

  lemma HiddenNotNewest(db: DB, job: Job, input: seq<Entry>, i: nat, u: UserKey, s: nat)
    requires Separated(db.levels, job.level, job.in0, job.in1) && Distinct(Content(db))
    requires Sorted(input) && ToSet(input) == EntriesIn(job.in0 + job.in1) && i < |input| && job.snap <= s
    requires Hidden(input, i, job.snap)
    ensures !IsNewest(Content(db), u, s, input[i])
  {
    var j :| 0 <= j < i && input[j].key.user == input[i].key.user && input[j].key.num <= job.snap;
    assert input[j] in ToSet(input);
    InputEntry(db.levels, job, input[j]);
    assert Less(input[j].key, input[i].key);
  }

  /** A newest visible entry can only be dropped as an obsolete deletion. */
  lemma NewestDropped(db: DB, db2: DB, job: Job, input: seq<Entry>, outputs: seq<File>, u: UserKey, s: nat, n: Entry)
    requires Installs(db, db2, job, input, outputs)
    requires job.snap <= s && IsNewest(Content(db), u, s, n) && n !in Content(db2)
    ensures n in EntriesIn(job.in0 + job.in1) && Obsolete(n, job.snap, job.base, job.level)
    ensures n !in Kept(input, |input|, job.snap, job.base, job.level)
    ensures IsNewest(Content(db), u, job.snap, n)
  {
    hide Content, EntriesIn, Kept, Hidden, Obsolete, Replaced, LevelsInv, MemInv, DeepKnown, Distinct;
    hide Separated, Sorted, ToSet;
    GoneFromInputs(db, db2, job, input, outputs, n);
    var i := GoneWhy(job, input, n);
    if Hidden(input, i, job.snap) {
      HiddenNotNewest(db, job, input, i, u, s);
    }
    ObsoleteNewest(Content(db), job, u, s, n);
  }

  lemma ObsoleteNewest(all: set<Entry>, job: Job, u: UserKey, s: nat, n: Entry)
    requires IsNewest(all, u, s, n) && job.snap <= s && Obsolete(n, job.snap, job.base, job.level)
    ensures IsNewest(all, u, job.snap, n)
  {
  }

  // ---------- what can lie below a dropped deletion ----------

  /** `g` was left behind at the next level, after every input, and holds `m`. */
  ghost predicate LeftBelow(levels: Levels, job: Job, g: File, m: Entry) {
    && job.level + 1 < |levels|
    && g in levels[job.level + 1] && g !in job.in1 && m in g.entries
    && forall h :: h in job.in1 ==> Before(h, g)
  }

  lemma ShallowerNewer(levels: Levels, job: Job, f: File, l: nat, g: File)
    requires Layered(levels) && Separated(levels, job.level, job.in0, job.in1)
    requires f in job.in0 + job.in1 && Untouched(levels, job, l, g) && l <= job.level
    ensures NewerFile(g, f)
  {
  }

  lemma DeeperKnown(levels: Levels, job: Job, l: nat, g: File)
    requires DeepKnown(levels, job) && l < NUM_LEVELS && g in levels[l] && l >= job.level + 2
    ensures g in job.base[l] || UserApart(g, job.in0 + job.in1)
  {
  }

  lemma OlderFileBelow(levels: Levels, nextFile: nat, job: Job, f: File, n: Entry, l: nat, g: File, m: Entry)
    requires LevelsInv(levels, nextFile) && JobReady(levels, job)
    requires f in job.in0 + job.in1 && n in f.entries
    requires Untouched(levels, job, l, g) && m in g.entries
    requires m.key.user == n.key.user && m.key.num < n.key.num
    requires IsBase(job.base, job.level, n.key.user)
    ensures f in job.in1 && LeftBelow(levels, job, g, m)
  {
    assert f.Valid() && g.Valid();
    InFile(g, m);
    InFile(f, n);
    if l <= job.level {
      ShallowerNewer(levels, job, f, l, g);
    } else if l > job.level + 1 {
      DeeperKnown(levels, job, l, g);
    } else {
      assert Apart(g, job.in0 + job.in1) && UserApart(g, job.in0);
      if Before(g, f) {
        BeforeEntries(g, f, m, n);
      }
    }
  }

  lemma NotKeptIfNewer(job: Job, input: seq<Entry>, n: Entry, m: Entry)
    requires Sorted(input) && n in input
    requires m.key.user == n.key.user && m.key.num < n.key.num <= job.snap
    ensures m !in Kept(input, |input|, job.snap, job.base, job.level)
  {
    KeptMember(input, |input|, job.snap, job.base, job.level, m);
    var i :| 0 <= i < |input| && input[i] == n;
    forall k | 0 <= k < |input| && input[k] == m ensures Hidden(input, k, job.snap) {
      SortedIndex(input, i, k);
    }
  }

  lemma SortedIndex(input: seq<Entry>, i: nat, k: nat)
    requires Sorted(input) && i < |input| && k < |input| && Less(input[i].key, input[k].key)
    ensures i < k
  {
    LessTotal(input[i].key, input[k].key);
  }

  lemma OlderInLevels(db: DB, db2: DB, job: Job, input: seq<Entry>, outputs: seq<File>, n: Entry, m: Entry)
    requires Installs(db, db2, job, input, outputs)
    requires n in EntriesIn(job.in0 + job.in1) && n.key.num <= job.snap
    requires m in Content(db2) && m.key.user == n.key.user && m.key.num < n.key.num
    ensures m in LevelEntries(db2.levels) && m !in Kept(input, |input|, job.snap, job.base, job.level)
  {
    InputEntry(db.levels, job, n);
    assert n in ToSet(input);
    NotKeptIfNewer(job, input, n, m);
  }

  lemma OlderUntouched(db: DB, db2: DB, job: Job, input: seq<Entry>, outputs: seq<File>, n: Entry, m: Entry)
    returns (l: nat, g: File)
    requires Installs(db, db2, job, input, outputs)
    requires n in EntriesIn(job.in0 + job.in1) && n.key.num <= job.snap
    requires m in Content(db2) && m.key.user == n.key.user && m.key.num < n.key.num
    ensures Untouched(db.levels, job, l, g) && m in g.entries
  {
    OlderInLevels(db, db2, job, input, outputs, n, m);
    AfterLevels(db, db2, job, input, outputs, m);
    l, g :| Untouched(db.levels, job, l, g) && m in g.entries;
  }

  /** After a deletion has been dropped, anything older of the same user key lies in a file left behind just below. */
  lemma RemainsBelow(db: DB, db2: DB, job: Job, input: seq<Entry>, outputs: seq<File>, n: Entry, m: Entry)
    returns (g: File)
    requires Installs(db, db2, job, input, outputs)
    requires n in EntriesIn(job.in0 + job.in1) && Obsolete(n, job.snap, job.base, job.level)
    requires m in Content(db2) && m.key.user == n.key.user && m.key.num < n.key.num
    ensures n in EntriesIn(job.in1) && LeftBelow(db.levels, job, g, m)
  {
    var l;
    l, g := OlderUntouched(db, db2, job, input, outputs, n, m);
    var f: File :| f in job.in0 + job.in1 && n in f.entries;
    OlderFileBelow(db.levels, db.nextFile, job, f, n, l, g, m);
  }

  lemma {:induction false} LeastBoundaryExists(fs: seq<File>, key: InternalKey, g: File)
    requires g in fs && IsBoundary(g, key)
    ensures exists h :: IsLeastBoundary(fs, key, h)
  {
    var front, last := fs[..|fs| - 1], fs[|fs| - 1];
    assert fs == front + [last];
    if h :| h in front && IsBoundary(h, key) {
      LeastBoundaryExists(front, key, h);
      var k :| IsLeastBoundary(front, key, k);
      if IsBoundary(last, key) && Less(last.smallest, k.smallest) {
        assert IsLeastBoundary(fs, key, last);
      } else {
        assert IsLeastBoundary(fs, key, k);
      }
    } else {
      assert IsLeastBoundary(fs, key, last);
    }
  }

  lemma {:induction false} LargestExists(fs: seq<File>)
    requires fs != []
    ensures exists key :: IsLargest(fs, key)
  {
    var front, last := fs[..|fs| - 1], fs[|fs| - 1];
    assert fs == front + [last];
    if front == [] {
      assert IsLargest(fs, last.largest);
    } else {
      LargestExists(front);
      var key :| IsLargest(front, key);
      var k := if Less(key, last.largest) then last.largest else key;
      assert IsLargest(fs, k);
    }
  }

  /** A file left behind below a dropped deletion is a boundary file of the inputs at its level, and the least
      boundary file starts with the next newest entry. */
  lemma BelowIsBoundary(levels: Levels, nextFile: nat, job: Job, n: Entry, g: File, m: Entry, key: InternalKey)
    requires LevelsInv(levels, nextFile) && JobReady(levels, job) && IsLargest(job.in1, key)
    requires n in EntriesIn(job.in1) && LeftBelow(levels, job, g, m) && m.key.user == n.key.user
    ensures key.user == n.key.user && IsBoundary(g, key) && key.num <= n.key.num
  {
    hide LevelsSorted, Layered, NewestByNumber, DeepKnown;
    var f :| f in job.in1 && n in f.entries;
    var h :| h in job.in1 && h.largest == key;
    InFile(f, n);
    InFile(g, m);
  }

  lemma LeastHoldsNewest(levels: Levels, nextFile: nat, key: InternalKey, level: nat, g0: File, g: File, m: Entry)
    requires LevelsInv(levels, nextFile) && level < NUM_LEVELS
    requires IsLeastBoundary(levels[level], key, g0) && IsBoundary(g, key) && g in levels[level]
    requires m in g.entries && m.key.user == key.user
    ensures g0.entries != [] && g0.entries[0] in g0.entries && g0.entries[0].key.user == key.user
    ensures m.key.num <= g0.entries[0].key.num <= key.num
  {
    assert g0.Valid() && g.Valid();
    InFile(g, m);
  }

  // ---------- the exact condition ----------

  lemma ContentShrinks(db: DB, db2: DB, job: Job, input: seq<Entry>, outputs: seq<File>)
    requires Installs(db, db2, job, input, outputs)
    ensures Content(db2) <= Content(db) && Distinct(Content(db)) && Distinct(Content(db2))
    ensures job.level + 1 < |db.levels|
  {
    CompactionFits(db.levels, db.nextFile, job, input, outputs);
    ReplacedFiles(db.levels, db2.levels, job.level, job.in0, job.in1, outputs);
    RewrittenEntries(db.levels, db2.levels, job.level, job.in0, job.in1, outputs);
  }

  /** The first entry of the least boundary file is the newest one left below a dropped deletion. */
  lemma NextBelow(db: DB, db2: DB, job: Job, input: seq<Entry>, outputs: seq<File>, n: Entry, m: Entry)
    returns (key: InternalKey, g0: File)
    requires Installs(db, db2, job, input, outputs)
    requires n in EntriesIn(job.in0 + job.in1) && Obsolete(n, job.snap, job.base, job.level)
    requires m in Content(db2) && m.key.user == n.key.user && m.key.num < n.key.num
    ensures n in EntriesIn(job.in1) && IsLargest(job.in1, key) && key.user == n.key.user
    ensures IsLeastBoundary(db.levels[job.level + 1], key, g0)
    ensures g0.entries != [] && g0.entries[0].key.user == n.key.user
    ensures g0.entries[0] in Content(db2) && m.key.num <= g0.entries[0].key.num <= n.key.num
  {
    hide Obsolete, LevelEntries, LeftBelow, IsLargest, IsBoundary, IsLeastBoundary, Untouched, Separated, DeepKnown;
    hide FilesValid, LevelsSorted, Layered, NewestByNumber, MemInv, Distinct, CompactionOutputs, Replaced;
    var g := RemainsBelow(db, db2, job, input, outputs, n, m);
    LargestExists(job.in1);
    key :| IsLargest(job.in1, key);
    BelowIsBoundary(db.levels, db.nextFile, job, n, g, m, key);
    LeastBoundaryExists(db.levels[job.level + 1], key, g);
    g0 :| IsLeastBoundary(db.levels[job.level + 1], key, g0);
    LeastHoldsNewest(db.levels, db.nextFile, key, job.level + 1, g0, g, m);
    BoundaryUntouched(db.levels, job, key, g0);
    StaysBehind(db, db2, job, input, outputs, job.level + 1, g0, g0.entries[0]);
  }

  lemma BoundaryUntouched(levels: Levels, job: Job, key: InternalKey, g0: File)
    requires |levels| == NUM_LEVELS && job.level + 1 < NUM_LEVELS
    requires IsLargest(job.in1, key) && IsLeastBoundary(levels[job.level + 1], key, g0)
    ensures Untouched(levels, job, job.level + 1, g0)
  {
    if g0 in job.in1 {
      LessTotal(key, g0.smallest);
    }
  }

  // The newest entry that is left, once a newest visible deletion has been dropped.
  lemma NewestBelow(db: DB, db2: DB, job: Job, input: seq<Entry>, outputs: seq<File>, u: UserKey, s: nat, n: Entry)
    returns (key: InternalKey, g0: File)
    requires Installs(db, db2, job, input, outputs) && job.snap <= s
    requires IsNewest(Content(db), u, s, n) && n !in Content(db2) && HasVisible(Content(db2), u, s)
    requires n in EntriesIn(job.in0 + job.in1) && Obsolete(n, job.snap, job.base, job.level)
    ensures n in EntriesIn(job.in1) && IsLargest(job.in1, key) && key.user == u
    ensures IsLeastBoundary(db.levels[job.level + 1], key, g0)
    ensures g0.entries != [] && Read(Content(db2), u, s) == ResultOf(g0.entries[0])
  {
    hide Installs, Content, Obsolete, Kept, IsLargest, IsLeastBoundary;
    ContentShrinks(db, db2, job, input, outputs);
    var m := Newest(Content(db2), u, s);
    assert m != n && m in Content(db) && m.key.num != n.key.num;
    key, g0 := NextBelow(db, db2, job, input, outputs, n, m);
    assert Visible(g0.entries[0], u, s);
    assert g0.entries[0].key.num == m.key.num && g0.entries[0] in Content(db);
    assert g0.entries[0] == m;
  }

  /** Without the exception, no reader at or above the compaction's snapshot notices. */
  lemma ReadsPreserved(db: DB, db2: DB, job: Job, input: seq<Entry>, outputs: seq<File>, u: UserKey, s: nat)
    requires Installs(db, db2, job, input, outputs) && job.snap <= s
    requires !Resurrects(db, job)
    ensures Read(Content(db2), u, s) == Read(Content(db), u, s)
  {
    hide Installs, Content, IsNewest, HasVisible;
    ContentShrinks(db, db2, job, input, outputs);
    if HasVisible(Content(db), u, s) {
      var n := Newest(Content(db), u, s);
      if n in Content(db2) {
        StillNewest(Content(db), Content(db2), u, s, n);
      } else {
        DroppedUnseen(db, db2, job, input, outputs, u, s, n);
      }
    } else {
      NoneVisible(Content(db), Content(db2), u, s);
    }
  }

  lemma StillNewest(all: set<Entry>, rest: set<Entry>, u: UserKey, s: nat, n: Entry)
    requires rest <= all && Distinct(rest) && n in rest && IsNewest(all, u, s, n)
    ensures Read(rest, u, s) == ResultOf(n)
  {
    ReadIs(rest, u, s, n);
  }

  lemma NoneVisible(all: set<Entry>, rest: set<Entry>, u: UserKey, s: nat)
    requires rest <= all && !HasVisible(all, u, s)
    ensures Read(rest, u, s) == NotFound
  {
  }

  // Without the exception, nothing is visible where a newest visible entry has been dropped.
  lemma DroppedUnseen(db: DB, db2: DB, job: Job, input: seq<Entry>, outputs: seq<File>, u: UserKey, s: nat, n: Entry)
    requires Installs(db, db2, job, input, outputs) && job.snap <= s && !Resurrects(db, job)
    requires IsNewest(Content(db), u, s, n) && n !in Content(db2)
    ensures Read(Content(db2), u, s) == ResultOf(n)
  {
    hide Installs, Content, IsNewest, HasVisible, Kept, IsLargest, IsLeastBoundary;
    ContentShrinks(db, db2, job, input, outputs);
    NewestDropped(db, db2, job, input, outputs, u, s, n);
    if HasVisible(Content(db2), u, s) {
      var key, g0 := NewestBelow(db, db2, job, input, outputs, u, s, n);
      assert Uncovers(db, job, key.user, n);
    }
  }

  lemma DisjointFiles(f: File, g: File, t: Entry)
    requires f.Valid() && g.Valid() && (Before(f, g) || Before(g, f))
    requires t in f.entries
    ensures t !in g.entries
  {
    InFile(f, t);
    if t in g.entries {
      InFile(g, t);
    }
  }

  // A dropped deletion is really gone: no file left in place holds it too.
  lemma OneHome(levels: Levels, nextFile: nat, job: Job, t: Entry, l: nat, g: File)
    requires LevelsInv(levels, nextFile) && Separated(levels, job.level, job.in0, job.in1)
    requires t in EntriesIn(job.in1) && Untouched(levels, job, l, g)
    ensures t !in g.entries
  {
    hide LevelsSorted, NewestByNumber, UserApart;
    var f: File :| f in job.in1 && t in f.entries;
    if l == job.level + 1 {
      assert f in job.in0 + job.in1;
      DisjointFiles(f, g, t);
    } else {
      assert NewerFile(g, f) || NewerFile(f, g);
    }
  }

  lemma ObsoleteGone(db: DB, db2: DB, job: Job, input: seq<Entry>, outputs: seq<File>, t: Entry)
    requires Installs(db, db2, job, input, outputs)
    requires t in EntriesIn(job.in1) && Obsolete(t, job.snap, job.base, job.level)
    ensures t !in Content(db2) && t in EntriesIn(job.in0 + job.in1)
  {
    var f: File :| f in job.in1 && t in f.entries;
    assert f in job.in0 + job.in1;
    InputEntry(db.levels, job, t);
    KeptMember(input, |input|, job.snap, job.base, job.level, t);
    if t in LevelEntries(db2.levels) {
      AfterLevels(db, db2, job, input, outputs, t);
      var l, g :| Untouched(db.levels, job, l, g) && t in g.entries;
      OneHome(db.levels, db.nextFile, job, t, l, g);
    }
  }

  lemma BoundaryStays(db: DB, db2: DB, job: Job, input: seq<Entry>, outputs: seq<File>, key: InternalKey, g: File)
    requires Installs(db, db2, job, input, outputs)
    requires IsLargest(job.in1, key) && IsLeastBoundary(db.levels[job.level + 1], key, g)
    ensures g.entries != [] && g.entries[0] in Content(db2)
    ensures g.entries[0].key.user == key.user && g.entries[0].key.num <= key.num
  {
    BoundaryUntouched(db.levels, job, key, g);
    assert g.Valid() && g.entries[0] in g.entries;
    StaysBehind(db, db2, job, input, outputs, job.level + 1, g, g.entries[0]);
  }

  lemma InputsValid(db: DB, db2: DB, job: Job, input: seq<Entry>, outputs: seq<File>)
    requires Installs(db, db2, job, input, outputs)
    ensures forall f :: f in job.in1 ==> f.Valid()
  {
  }

  lemma TopKey(fs: seq<File>, key: InternalKey, t: Entry)
    requires forall f :: f in fs ==> f.Valid()
    requires IsLargest(fs, key) && t in EntriesIn(fs) && t.key.user == key.user
    ensures key.num <= t.key.num
  {
    var f: File :| f in fs && t in f.entries;
    InFile(f, t);
  }

  lemma SameBoundary(db: DB, db2: DB, job: Job, input: seq<Entry>, outputs: seq<File>,
                     key: InternalKey, g: File, key2: InternalKey, g2: File)
    requires Installs(db, db2, job, input, outputs)
    requires IsLargest(job.in1, key) && IsLargest(job.in1, key2)
    requires IsLeastBoundary(db.levels[job.level + 1], key, g) && IsLeastBoundary(db.levels[job.level + 1], key2, g2)
    ensures g == g2
  {
    LessTotal(key, key2);
    LessTotal(g.smallest, g2.smallest);
    SameSmallest(db.levels[job.level + 1], g, g2);
  }

  lemma SameSmallest(fs: seq<File>, g: File, g2: File)
    requires LevelSorted(fs) && g in fs && g2 in fs && g.smallest == g2.smallest
    ensures g == g2
  {
    var i :| 0 <= i < |fs| && fs[i] == g;
    var j :| 0 <= j < |fs| && fs[j] == g2;
    if i < j { LargestOrdered(fs, i, j); } else if j < i { LargestOrdered(fs, j, i); }
  }

  /** With it, a reader at the compaction's snapshot sees a deleted value again. */
  lemma ResurrectionSeen(db: DB, db2: DB, job: Job, input: seq<Entry>, outputs: seq<File>)
    requires Installs(db, db2, job, input, outputs) && Resurrects(db, job)
    ensures exists u, v :: Read(Content(db), u, job.snap) == NotFound && Read(Content(db2), u, job.snap) == Found(v)
  {
    hide Installs;
    hide Content;
    ContentShrinks(db, db2, job, input, outputs);
    var key, g: File, t :| IsLargest(job.in1, key) && IsLeastBoundary(db.levels[job.level + 1], key, g)
      && g.entries != [] && g.entries[0].key.kind.TypeValue? && Uncovers(db, job, key.user, t);
    ReadIs(Content(db), key.user, job.snap, t);
    ObsoleteGone(db, db2, job, input, outputs, t);
    BoundaryStays(db, db2, job, input, outputs, key, g);
    InputsValid(db, db2, job, input, outputs);
    TopKey(job.in1, key, t);
    assert Visible(g.entries[0], key.user, job.snap);
    var key2, g2 := NewestBelow(db, db2, job, input, outputs, key.user, job.snap, t);
    SameBoundary(db, db2, job, input, outputs, key, g, key2, g2);
    assert Read(Content(db2), key.user, job.snap) == Found(g.entries[0].value);
  }

  /** A compaction is invisible to every reader exactly when it uncovers no deleted value. */
  lemma CompactionInvisible(db: DB, db2: DB, job: Job, input: seq<Entry>, outputs: seq<File>)
    requires Installs(db, db2, job, input, outputs)
    ensures (forall u, s :: job.snap <= s ==> Read(Content(db2), u, s) == Read(Content(db), u, s))
            <==> !Resurrects(db, job)
  {
    if Resurrects(db, job) {
      ResurrectionSeen(db, db2, job, input, outputs);
      var u, v :| Read(Content(db), u, job.snap) == NotFound && Read(Content(db2), u, job.snap) == Found(v);
      assert Read(Content(db2), u, job.snap) != Read(Content(db), u, job.snap);
    } else {
      forall u, s | job.snap <= s ensures Read(Content(db2), u, s) == Read(Content(db), u, s) {
        ReadsPreserved(db, db2, job, input, outputs, u, s);
      }
    }
  }

  // ---------- the other steps ----------

  /** Moving a file changes where its entries are, not which there are. */
  lemma MoveContent(db: DB, written: set<Entry>, db2: DB, level: nat, f: File)
    requires Inv(db, written) && DoTrivialMove(db, db2, level, f)
    ensures Content(db2) == Content(db)
  {
    hide LevelEntries;
    hide Inv;
    NothingNew(db, written, db2, level, f);
    NothingLost(db, written, db2, level, f);
  }

  lemma NothingNew(db: DB, written: set<Entry>, db2: DB, level: nat, f: File)
    requires Inv(db, written) && DoTrivialMove(db, db2, level, f)
    ensures LevelEntries(db2.levels) <= LevelEntries(db.levels)
  {
    hide Separated, Rewritten, Replaced, Plan, FilesValid, LevelsSorted, Layered, NewestByNumber;
    ContentDistinct(db, written);
    PlanSeparated(db.levels, db.nextFile, level, [f], []);
    ReplacedFiles(db.levels, db2.levels, level, [f], [], [f]);
    assert f in [f] + [];
    RewrittenEntries(db.levels, db2.levels, level, [f], [], [f]);
  }

  lemma NothingLost(db: DB, written: set<Entry>, db2: DB, level: nat, f: File)
    requires Inv(db, written) && DoTrivialMove(db, db2, level, f)
    ensures LevelEntries(db.levels) <= LevelEntries(db2.levels)
  {
    hide Replaced, Plan, FilesValid, LevelsSorted, Layered, NewestByNumber;
    MovedIsThere(db, written, level, f);
    assert |db2.levels| == NUM_LEVELS by {
      ReplacedFiles(db.levels, db2.levels, level, [f], [], [f]);
    }
    forall e | e in LevelEntries(db.levels) ensures e in LevelEntries(db2.levels) {
      var l, g: File :| 0 <= l < |db.levels| && g in db.levels[l] && e in g.entries;
      MovedFile(db.levels, db2.levels, db.nextFile, level, f, l, g);
    }
  }

  lemma MovedIsThere(db: DB, written: set<Entry>, level: nat, f: File)
    requires Inv(db, written) && level + 1 < NUM_LEVELS
    requires Plan(level, db.levels[level], db.levels[level + 1], [f], [])
    ensures f in db.levels[level]
  {
    hide Plan, FilesValid, LevelsSorted, Layered, NewestByNumber;
    ContentDistinct(db, written);
    PlanSeparated(db.levels, db.nextFile, level, [f], []);
    assert f in [f];
  }

  lemma MovedFile(levels: Levels, levels2: Levels, nextFile: nat, level: nat, f: File, l: nat, g: File)
    requires FilesValid(levels, nextFile) && Replaced(levels, levels2, level, [f], [], [f]) && f in levels[level]
    requires l < NUM_LEVELS && g in levels[l]
    ensures g in levels2[if l == level && g == f then level + 1 else l]
  {
    hide File.Valid, SortedBySmallest;
    assert Numbers([]) == {};
    assert Numbers([f]) == {f.number};
    assert f in [f];
    assert l == level && g != f ==> g.number != f.number;
  }

  // Adding the same newer entries on both sides keeps reads equal.
  lemma ReadsExtended(a: set<Entry>, b: set<Entry>, batch: set<Entry>, last: nat, u: UserKey, s: nat)
    requires a <= b && Distinct(b + batch)
    requires forall e :: e in b ==> e.key.num <= last
    requires forall e :: e in batch ==> last < e.key.num
    requires Read(a, u, s) == Read(b, u, s)
    ensures Read(a + batch, u, s) == Read(b + batch, u, s)
  {
    if HasVisible(batch, u, s) {
      var n := Newest(batch, u, s);
      assert IsNewest(a + batch, u, s, n) && IsNewest(b + batch, u, s, n);
      ReadIs(a + batch, u, s, n);
      ReadIs(b + batch, u, s, n);
    } else {
      ReadIgnores(a, batch, u, s);
      ReadIgnores(b, batch, u, s);
    }
  }

  lemma ReadIgnores(a: set<Entry>, batch: set<Entry>, u: UserKey, s: nat)
    requires Distinct(a + batch) && !HasVisible(batch, u, s)
    ensures Read(a + batch, u, s) == Read(a, u, s)
  {
    if HasVisible(a + batch, u, s) {
      var n := Newest(a + batch, u, s);
      assert n in a;
      assert IsNewest(a, u, s, n);
      ReadIs(a, u, s, n);
    } else {
      assert forall e :: e in a ==> e in a + batch;
    }
  }

  // ---------- whole runs ----------

  /** What every live reader sees is the latest write at or below its sequence number, out of all ever made. */
  ghost predicate ReadsWritten(db: DB, written: set<Entry>) {
    forall u, s :: s >= Horizon(db) ==> Read(Content(db), u, s) == Read(written, u, s)
  }

  /** The step does not install a compaction that uncovers a deleted value. */
  ghost predicate Faithful(db: DB, step: Step) {
    match step
    case FinishCompaction(_, _) => db.job.Some? ==> !Resurrects(db, db.job.value)
    case ManualCompaction(level, in0, in1, _, _) => !Resurrects(db, Job(level, in0, in1, db.levels, Horizon(db)))
    case _ => true
  }

  lemma InstallReads(db: DB, written: set<Entry>, db2: DB, job: Job, input: seq<Entry>, outputs: seq<File>)
    requires Inv(db, written) && JobReady(db.levels, job) && job.snap <= Horizon(db)
    requires DoFinish(db.(job := Some(job)), db2, input, outputs)
    requires ReadsWritten(db, written) && !Resurrects(db, job)
    ensures ReadsWritten(db2, written)
  {
    assert Installs(db, db2, job, input, outputs);
    forall u, s | s >= Horizon(db2) ensures Read(Content(db2), u, s) == Read(written, u, s) {
      ReadsPreserved(db, db2, job, input, outputs, u, s);
    }
  }

  lemma WriteReads(db: DB, written: set<Entry>, db2: DB, ops: seq<Update>)
    requires Inv(db, written) && DoWrite(db, db2, ops) && ReadsWritten(db, written)
    ensures ReadsWritten(db2, written + BatchEntries(ops, db.lastSequence))
  {
    var batch := BatchEntries(ops, db.lastSequence);
    BatchNumbers(ops, db.lastSequence);
    HorizonBounds(db);
    WriteInv(db, written, db2, ops);
    assert Content(db2) == Content(db) + batch;
    forall u, s | s >= Horizon(db2) ensures Read(Content(db2), u, s) == Read(written + batch, u, s) {
      ReadsExtended(Content(db), written, batch, db.lastSequence, u, s);
    }
  }

  lemma SameReads(db: DB, written: set<Entry>, db2: DB)
    requires ReadsWritten(db, written) && Content(db2) == Content(db) && Horizon(db) <= Horizon(db2)
    ensures ReadsWritten(db2, written)
  {
  }

  lemma SnapshotReads(db: DB, written: set<Entry>, db2: DB, step: Step)
    requires Inv(db, written) && ReadsWritten(db, written) && Next(db, db2, step)
    requires step.GetSnapshot? || step.ReleaseSnapshot?
    ensures ReadsWritten(db2, written)
  {
    hide LevelsInv, MemInv, WrittenInv, JobInv, ReadsWritten;
    HorizonBounds(db);
    if step.ReleaseSnapshot? {
      ReleaseInv(db, written, db2, step.i);
      assert Horizon(db) <= Horizon(db2);
    }
    SameReads(db, written, db2);
  }

  /** Every step keeps what live readers see. */
  lemma StepReads(db: DB, written: set<Entry>, db2: DB, step: Step)
    requires Inv(db, written) && ReadsWritten(db, written) && Next(db, db2, step) && Faithful(db, step)
    ensures ReadsWritten(db2, written + WrittenBy(db, step))
  {
    hide LevelsInv, MemInv, SnapshotsInv, WrittenInv, ReadsWritten, JobReady, Resurrects, LevelEntries, Connected;
    hide Plan, Saved, Replaced, CompactionOutputs, ToSet, Sorted, BatchEntries;
    assert !step.Write? ==> written + WrittenBy(db, step) == written;
    match step
    case Write(ops) => WriteReads(db, written, db2, ops);
    case SwitchMemtable =>
      SwitchInv(db, written, db2);
      SameReads(db, written, db2);
    case Flush(size, maxOverlap) =>
      FlushInv(db, written, db2, size, maxOverlap);
      SameReads(db, written, db2);
    case AllocateFile => SameReads(db, written, db2);
    case TrivialMove(level, f) =>
      MoveContent(db, written, db2, level, f);
      SameReads(db, written, db2);
    case StartCompaction(level, in0, in1) => SameReads(db, written, db2);
    case FinishCompaction(input, outputs) => InstallReads(db, written, db2, db.job.value, input, outputs);
    case AbandonCompaction => SameReads(db, written, db2);
    case ManualCompaction(level, in0, in1, input, outputs) =>
      PlanReady(db, written, level, in0, in1);
      InstallReads(db, written, db2, Job(level, in0, in1, db.levels, Horizon(db)), input, outputs);
    case GetSnapshot => SnapshotReads(db, written, db2, step);
    case ReleaseSnapshot(i) => SnapshotReads(db, written, db2, step);
  }

  datatype Run = Run(dbs: seq<DB>, steps: seq<Step>) {
    /** A run from the empty store. */
    ghost predicate Valid() {
      && |dbs| == |steps| + 1 && dbs[0] == EMPTY
      && forall i :: 0 <= i < |steps| ==> Next(dbs[i], dbs[i + 1], steps[i])
    }

    /** None of the first `n` steps uncovers a deleted value. */
    ghost predicate FaithfulUpTo(n: nat) {
      n <= |steps| <= |dbs| && forall i :: 0 <= i < n ==> Faithful(dbs[i], steps[i])
    }

    /** Everything written in the first `n` steps. */
    ghost function Written(n: nat): set<Entry>
      requires n <= |steps| <= |dbs|
    {
      if n == 0 then {} else Written(n - 1) + WrittenBy(dbs[n - 1], steps[n - 1])
    }
  }

  /** The invariant holds throughout every run. */
  lemma {:induction false} RunInv(run: Run, n: nat)
    requires run.Valid() && n <= |run.steps|
    ensures Inv(run.dbs[n], run.Written(n))
  {
    hide Inv;
    hide Next;
    if n == 0 {
      InitialInv();
    } else {
      RunInv(run, n - 1);
      StepInv(run.dbs[n - 1], run.Written(n - 1), run.dbs[n], run.steps[n - 1]);
    }
  }

  lemma {:induction false} RunReads(run: Run, n: nat)
    requires run.Valid() && n <= |run.steps| && run.FaithfulUpTo(n)
    ensures ReadsWritten(run.dbs[n], run.Written(n))
  {
    if n == 0 {
      InitialInv();
    } else {
      RunInv(run, n - 1);
      RunReads(run, n - 1);
      StepReads(run.dbs[n - 1], run.Written(n - 1), run.dbs[n], run.steps[n - 1]);
    }
  }

  /** Later writes carry later sequence numbers. */
  lemma {:induction false} LaterWrites(run: Run, i: nat, j: nat)
    requires run.Valid() && i <= j <= |run.steps|
    ensures run.Written(i) <= run.Written(j) && run.dbs[i].lastSequence <= run.dbs[j].lastSequence
    ensures forall e :: e in run.Written(j) && e !in run.Written(i) ==> e.key.num > run.dbs[i].lastSequence
  {
    hide Next, WrittenBy;
    if i < j {
      LaterWrites(run, i, j - 1);
      StepWrites(run.dbs[j - 1], run.dbs[j], run.steps[j - 1]);
    }
  }

  lemma StepWrites(db: DB, db2: DB, step: Step)
    requires Next(db, db2, step)
    ensures db.lastSequence <= db2.lastSequence
    ensures forall e :: e in WrittenBy(db, step) ==> e.key.num > db.lastSequence
  {
    hide Saved, Replaced, Plan, CompactionOutputs, BatchEntries, Sorted, ToSet;
    if step.Write? {
      BatchNumbers(step.ops, db.lastSequence);
    }
  }

  lemma ReadsBelow(a: set<Entry>, b: set<Entry>, last: nat, u: UserKey, s: nat)
    requires a <= b && Distinct(b) && s <= last
    requires forall e :: e in b && e !in a ==> e.key.num > last
    ensures Read(b, u, s) == Read(a, u, s)
  {
    if HasVisible(b, u, s) {
      var n := Newest(b, u, s);
      assert IsNewest(a, u, s, n);
      ReadIs(a, u, s, n);
    }
  }

  /** Snapshot isolation: whatever has happened since, a live snapshot taken in state `i` still reads, in state `j`,
      exactly what had been written by then. */
  lemma SnapshotIsolation(run: Run, i: nat, j: nat, k: nat, u: UserKey)
    requires run.Valid() && i <= j <= |run.steps| && run.FaithfulUpTo(j)
    requires k < |run.dbs[j].snapshots| && run.dbs[j].snapshots[k] == run.dbs[i].lastSequence
    ensures Read(Content(run.dbs[j]), u, run.dbs[i].lastSequence)
         == Read(run.Written(i), u, run.dbs[i].lastSequence)
  {
    RunInv(run, j);
    RunReads(run, j);
    LaterWrites(run, i, j);
    HorizonBounds(run.dbs[j]);
    ReadsBelow(run.Written(i), run.Written(j), run.dbs[i].lastSequence, u, run.dbs[i].lastSequence);
  }
}
