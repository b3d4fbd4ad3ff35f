/** Point lookups: memtable, immutable memtable, then the levels from the top, against the naive search. */
module Get {
  import opened Options
  import opened Keys
  import opened Tables
  import opened Overlap
  import opened Builder
  import opened Reads
  import opened Store
  import opened LevelInvariant
  import opened StoreInvariant
  import opened StoreReads

  /** The index of the first entry at or after `key`, in a memtable or a table. */
  method SeekEntry(es: seq<Entry>, key: InternalKey) returns (i: nat)
    requires Sorted(es)
    ensures i <= |es|
    ensures forall j :: 0 <= j < i ==> Less(es[j].key, key)
    ensures forall j :: i <= j < |es| ==> !Less(es[j].key, key)
  {
    i := 0;
    while i < |es| && Less(es[i].key, key)
      invariant i <= |es| && forall j :: 0 <= j < i ==> Less(es[j].key, key)
    {
      i := i + 1;
    }
  }

  /** One seek finds the newest visible entry of the user key, if there is one. */
  method Lookup(es: seq<Entry>, u: UserKey, s: nat) returns (r: Option<Entry>)
    requires Sorted(es)
    ensures r.Some? ==> IsNewest(ToSet(es), u, s, r.value)
    ensures r.None? ==> !HasVisible(ToSet(es), u, s)
  {
    var i := SeekEntry(es, LookupKey(u, s));
    if i < |es| && es[i].key.user == u {
      r := Some(es[i]);
      forall x | x in ToSet(es) && Visible(x, u, s) ensures x.key.num <= es[i].key.num {
        var j :| 0 <= j < |es| && es[j] == x;
        assert j > i ==> Less(es[i].key, es[j].key);
      }
    } else {
      r := None;
      forall x | x in ToSet(es) ensures !Visible(x, u, s) {
        var j :| 0 <= j < |es| && es[j] == x;
        assert j > i ==> Less(es[i].key, es[j].key);
      }
    }
  }

  // ---------- one level ----------

  ghost predicate NewestFirst(fs: seq<File>) {
    forall i, j :: 0 <= i < j < |fs| ==> fs[i].number > fs[j].number
  }

  method InsertByNumber(fs: seq<File>, f: File) returns (r: seq<File>)
    requires NewestFirst(fs) && forall g :: g in fs ==> g.number != f.number
    ensures NewestFirst(r) && forall g :: g in r <==> g in fs || g == f
  {
    var i := 0;
    while i < |fs| && fs[i].number > f.number
      invariant i <= |fs| && forall j :: 0 <= j < i ==> fs[j].number > f.number
    {
      i := i + 1;
    }
    assert i < |fs| ==> fs[i] in fs;
    r := fs[..i] + [f] + fs[i..];
    assert fs == fs[..i] + fs[i..];
  }

  /** Level 0: every file that spans the user key, the newest file first. */
  method SearchLevelZero(fs: seq<File>, u: UserKey, s: nat) returns (r: Option<Entry>)
    requires forall f :: f in fs ==> f.Valid()
    requires forall i, j :: 0 <= i < j < |fs| ==> fs[i].number != fs[j].number
    requires NewestByNumber(fs)
    ensures r.Some? ==> IsNewest(EntriesIn(fs), u, s, r.value)
    ensures r.None? ==> !HasVisible(EntriesIn(fs), u, s)
  {
    var tmp := [];
    for i := 0 to |fs|
      invariant NewestFirst(tmp)
      invariant forall g :: g in tmp <==> g in fs[..i] && g.Lo() <= u <= g.Hi()
    {
      assert fs[..i + 1] == fs[..i] + [fs[i]];
      if u >= fs[i].Lo() && u <= fs[i].Hi() {
        tmp := InsertByNumber(tmp, fs[i]);
      }
    }
    assert fs[..|fs|] == fs;
    for i := 0 to |tmp|
      invariant forall k :: 0 <= k < i ==> !HasVisible(ToSet(tmp[k].entries), u, s)
    {
      assert tmp[i] in tmp && tmp[i] in fs;
      r := Lookup(tmp[i].entries, u, s);
      if r.Some? {
        LevelZeroNewest(fs, tmp, i, u, s, r.value);
        return;
      }
    }
    forall x | x in EntriesIn(fs) ensures !Visible(x, u, s) {
      var g: File :| g in fs && x in g.entries;
      InFile(g, x);
      assert g in tmp ==> exists k :: 0 <= k < |tmp| && tmp[k] == g && x in ToSet(tmp[k].entries);
    }
    r := None;
  }

  lemma LevelZeroNewest(fs: seq<File>, tmp: seq<File>, i: nat, u: UserKey, s: nat, e: Entry)
    requires forall f :: f in fs ==> f.Valid()
    requires NewestByNumber(fs) && NewestFirst(tmp) && i < |tmp|
    requires forall g :: g in tmp <==> g in fs && g.Lo() <= u <= g.Hi()
    requires forall k :: 0 <= k < i ==> !HasVisible(ToSet(tmp[k].entries), u, s)
    requires IsNewest(ToSet(tmp[i].entries), u, s, e)
    ensures IsNewest(EntriesIn(fs), u, s, e)
  {
    assert tmp[i] in fs;
    forall x | x in EntriesIn(fs) && Visible(x, u, s) ensures x.key.num <= e.key.num {
      var g: File :| g in fs && x in g.entries;
      InFile(g, x);
      assert g in tmp;
      var k :| 0 <= k < |tmp| && tmp[k] == g;
      assert x in ToSet(g.entries);
      assert k >= i;
      if k > i {
        assert AllOlder(g, tmp[i]);
      }
    }
  }

  /** Above level 0: the one file that can hold the newest visible entry, found by binary search. */
  method SearchSortedLevel(fs: seq<File>, u: UserKey, s: nat) returns (r: Option<Entry>)
    requires LevelSorted(fs) && forall f :: f in fs ==> f.Valid()
    ensures r.Some? ==> IsNewest(EntriesIn(fs), u, s, r.value)
    ensures r.None? ==> !HasVisible(EntriesIn(fs), u, s)
  {
    var index := FindFile(fs, LookupKey(u, s));
    EarlierFilesUnseen(fs, index, u, s);
    if index >= |fs| {
      r := None;
    } else if u < fs[index].Lo() {
      LaterFilesUnseen(fs, index, u, s);
      r := None;
    } else {
      assert fs[index] in fs;
      r := Lookup(fs[index].entries, u, s);
      OneFileDecides(fs, index, u, s);
    }
  }

  // Files that end before the lookup key hold nothing visible.
  lemma EarlierFilesUnseen(fs: seq<File>, index: nat, u: UserKey, s: nat)
    requires forall f :: f in fs ==> f.Valid()
    requires index <= |fs| && forall i :: 0 <= i < index ==> Less(fs[i].largest, LookupKey(u, s))
    ensures forall i, x :: 0 <= i < index && x in fs[i].entries ==> !Visible(x, u, s)
  {
    forall i, x | 0 <= i < index && x in fs[i].entries ensures !Visible(x, u, s) {
      assert fs[i] in fs;
      InFile(fs[i], x);
    }
  }

  lemma LaterFilesUnseen(fs: seq<File>, index: nat, u: UserKey, s: nat)
    requires LevelSorted(fs) && forall f :: f in fs ==> f.Valid()
    requires index < |fs| && u < fs[index].Lo()
    ensures forall i, x :: index <= i < |fs| && x in fs[i].entries ==> !Visible(x, u, s)
  {
    forall i, x | index <= i < |fs| && x in fs[i].entries ensures !Visible(x, u, s) {
      assert fs[i] in fs;
      InFile(fs[i], x);
      if index < i { LargestOrdered(fs, index, i); }
    }
  }

  // The file at `index` ends at or after the lookup key: later files hold only older entries of the user key.
  lemma OneFileDecides(fs: seq<File>, index: nat, u: UserKey, s: nat)
    requires LevelSorted(fs) && forall f :: f in fs ==> f.Valid()
    requires index < |fs| && !Less(fs[index].largest, LookupKey(u, s)) && fs[index].Lo() <= u
    requires forall i, x :: 0 <= i < index && x in fs[i].entries ==> !Visible(x, u, s)
    ensures forall e :: IsNewest(ToSet(fs[index].entries), u, s, e) ==> IsNewest(EntriesIn(fs), u, s, e)
    ensures !HasVisible(ToSet(fs[index].entries), u, s) ==> !HasVisible(EntriesIn(fs), u, s)
  {
    var f := fs[index];
    assert f in fs;
    var last := f.entries[|f.entries| - 1];
    assert last in ToSet(f.entries);
    forall x | x in EntriesIn(fs) && Visible(x, u, s)
      ensures x in ToSet(f.entries) || (Visible(last, u, s) && x.key.num <= last.key.num)
    {
      var g: File :| g in fs && x in g.entries;
      var i :| 0 <= i < |fs| && fs[i] == g;
      if i > index {
        LargestOrdered(fs, index, i);
        BeforeEntries(f, g, last, x);
      }
    }
    assert forall x :: x in f.entries ==> x in EntriesIn(fs);
  }

  // ---------- all levels ----------

  lemma TopLevelDecides(levels: Levels, nextFile: nat, l: nat, u: UserKey, s: nat, e: Entry)
    requires LevelsInv(levels, nextFile) && l < NUM_LEVELS
    requires forall k :: 0 <= k < l ==> !HasVisible(EntriesIn(levels[k]), u, s)
    requires IsNewest(EntriesIn(levels[l]), u, s, e)
    ensures IsNewest(LevelEntries(levels), u, s, e)
  {
    hide FilesValid, LevelsSorted, Layered, NewestByNumber;
    var f: File :| f in levels[l] && e in f.entries;
    InLevels(levels, l, f, e);
    forall x | x in LevelEntries(levels) && Visible(x, u, s) ensures x.key.num <= e.key.num {
      var m, g: File :| 0 <= m < |levels| && g in levels[m] && x in g.entries;
      assert x in EntriesIn(levels[m]);
      if m > l {
        DeeperIsOlder(levels, l, m, f, g, e, x);
      }
    }
  }

  lemma DeeperIsOlder(levels: Levels, l: nat, m: nat, f: File, g: File, e: Entry, x: Entry)
    requires Layered(levels) && l < m < |levels| && f in levels[l] && g in levels[m]
    requires e in f.entries && x in g.entries && e.key.user == x.key.user
    ensures x.key.num < e.key.num
  {
    assert NewerFile(f, g);
  }

  method VersionGet(levels: Levels, ghost nextFile: nat, u: UserKey, s: nat) returns (r: Option<Entry>)
    requires LevelsInv(levels, nextFile)
    ensures r.Some? ==> IsNewest(LevelEntries(levels), u, s, r.value)
    ensures r.None? ==> !HasVisible(LevelEntries(levels), u, s)
  {
    for level := 0 to NUM_LEVELS
      invariant forall k :: 0 <= k < level ==> !HasVisible(EntriesIn(levels[k]), u, s)
    {
      if levels[level] != [] {
        if level == 0 {
          NumbersDistinct(levels, nextFile);
          r := SearchLevelZero(levels[0], u, s);
        } else {
          r := SearchSortedLevel(levels[level], u, s);
        }
        if r.Some? {
          TopLevelDecides(levels, nextFile, level, u, s, r.value);
          return;
        }
      }
    }
    forall x | x in LevelEntries(levels) ensures !Visible(x, u, s) {
      var m, g: File :| 0 <= m < |levels| && g in levels[m] && x in g.entries;
      assert x in EntriesIn(levels[m]);
    }
    r := None;
  }

  lemma NumbersDistinct(levels: Levels, nextFile: nat)
    requires LevelsInv(levels, nextFile)
    ensures forall i, j :: 0 <= i < j < |levels[0]| ==> levels[0][i].number != levels[0][j].number
  {
    var fs := levels[0];
    forall i, j | 0 <= i < j < |fs| ensures fs[i].number != fs[j].number {
      assert fs[i] in fs && fs[j] in fs && BySmallest(fs[i], fs[j]);
      LessTotal(fs[i].smallest, fs[j].smallest);
    }
  }

  /** A lookup at any snapshot answers as the naive search over everything the store holds. */
  method GetValue(db: DB, ghost written: set<Entry>, u: UserKey, s: nat) returns (r: ReadResult)
    requires Inv(db, written)
    ensures r == Read(Content(db), u, s)
  {
    var e := Lookup(db.mem, u, s);
    if e.None? && db.imm.Some? {
      e := Lookup(db.imm.value, u, s);
    }
    if e.None? {
      e := VersionGet(db.levels, db.nextFile, u, s);
    }
    LayersDecide(db, written, u, s);
    if e.Some? {
      assert IsNewest(Content(db), u, s, e.value);
      ReadIs(Content(db), u, s, e.value);
      return ResultOf(e.value);
    }
    return NotFound;
  }

  lemma LayersDecide(db: DB, written: set<Entry>, u: UserKey, s: nat)
    requires Inv(db, written)
    ensures Distinct(Content(db))
    ensures forall e :: IsNewest(ToSet(db.mem), u, s, e) ==> IsNewest(Content(db), u, s, e)
    ensures !HasVisible(ToSet(db.mem), u, s) ==>
      forall e :: IsNewest(ImmEntries(db.imm), u, s, e) ==> IsNewest(Content(db), u, s, e)
    ensures !HasVisible(ToSet(db.mem), u, s) && !HasVisible(ImmEntries(db.imm), u, s) ==>
      (forall e :: IsNewest(LevelEntries(db.levels), u, s, e) ==> IsNewest(Content(db), u, s, e))
      && (!HasVisible(LevelEntries(db.levels), u, s) ==> !HasVisible(Content(db), u, s))
  {
  }

  /** In every run without the exception, a lookup at a live sequence number returns the latest write up to it. */
  method GetInRun(ghost run: Run, ghost n: nat, db: DB, u: UserKey, s: nat) returns (r: ReadResult)
    requires run.Valid() && n <= |run.steps| && run.FaithfulUpTo(n) && db == run.dbs[n]
    requires s >= Horizon(db)
    ensures r == Read(run.Written(n), u, s)
  {
    RunInv(run, n);
    RunReads(run, n);
    r := GetValue(db, run.Written(n), u, s);
  }
}
