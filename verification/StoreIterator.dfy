/** What an iterator over the whole store goes through: the merged lists of the memtables, the tables of level 0 and the
    levels below are exactly the content of the store. */
module StoreIterator {
  import opened Keys
  import opened Reads
  import opened Tables
  import opened Compaction
  import opened Store
  import opened LevelInvariant
  import opened StoreInvariant
  import opened Get
  import opened LiveEntries
  import opened Merger

  // ---------- the lists that are merged ----------

  function DeepLists(levels: Levels, l: nat): seq<seq<Entry>>
    requires l <= |levels|
    decreases |levels| - l
  {
    if l == |levels| then []
    else (if levels[l] == [] then [] else [Flatten(Contents(levels[l]))]) + DeepLists(levels, l + 1)
  }

  /** The memtables, each table of level 0, and each level below that has any. */
  function ChildLists(db: DB): seq<seq<Entry>>
    requires |db.levels| > 0
  {
    [db.mem] + (if db.imm.Some? then [db.imm.value] else []) + (Contents(db.levels[0]) + DeepLists(db.levels, 1))
  }

  ghost predicate NoSharedKey(a: seq<Entry>, b: seq<Entry>) {
    forall e, x :: e in a && x in b ==> e.key != x.key
  }

  /** Sorted lists, no key in two of them. */
  ghost predicate Separate(lists: seq<seq<Entry>>) {
    && (forall i :: 0 <= i < |lists| ==> Sorted(lists[i]))
    && forall i, j :: 0 <= i < j < |lists| ==> NoSharedKey(lists[i], lists[j])
  }

  ghost predicate Across(a: seq<seq<Entry>>, b: seq<seq<Entry>>) {
    forall x, y :: x in a && y in b ==> NoSharedKey(x, y)
  }

  ghost predicate Holds(lists: seq<seq<Entry>>, e: Entry) {
    exists x :: x in lists && e in x
  }

  lemma SeparateConcat(a: seq<seq<Entry>>, b: seq<seq<Entry>>)
    requires Separate(a) && Separate(b) && Across(a, b)
    ensures Separate(a + b)
  {
    hide NoSharedKey, Sorted;
    var c := a + b;
    forall i, j | 0 <= i < j < |c| ensures NoSharedKey(c[i], c[j]) {
      if i < |a| && j >= |a| {
        assert c[i] in a && c[j] in b;
      }
    }
  }

  lemma SeparateOne(a: seq<Entry>)
    requires Sorted(a)
    ensures Separate([a]) && Separate([])
  {
  }

  lemma HoldsConcat(a: seq<seq<Entry>>, b: seq<seq<Entry>>, e: Entry)
    ensures Holds(a + b, e) <==> Holds(a, e) || Holds(b, e)
  {
    if Holds(a, e) {
      var x :| x in a && e in x;
      assert x in a + b;
    }
    if Holds(b, e) {
      var x :| x in b && e in x;
      assert x in a + b;
    }
  }

  lemma HoldsOne(a: seq<Entry>, e: Entry)
    ensures Holds([a], e) <==> e in a
    ensures !Holds([], e)
  {
    if e in a {
      assert a in [a];
    }
  }

  // ---------- one level ----------

  lemma {:induction false} LevelList(fs: seq<File>)
    requires LevelSorted(fs) && forall f :: f in fs ==> f.Valid()
    ensures Sorted(Flatten(Contents(fs)))
    ensures forall e :: e in Flatten(Contents(fs)) <==> e in EntriesIn(fs)
  {
    hide Flatten, Sorted, EntriesIn, Contents;
    if fs == [] {
      NoFiles();
    } else {
      var m := |fs| - 1;
      var init, f := fs[..m], fs[m];
      LevelSplit(fs);
      LevelList(init);
      LastFile(init, f);
      SortedConcat(Flatten(Contents(init)), f.entries);
    }
  }

  lemma NoFiles()
    ensures Flatten(Contents([])) == [] && EntriesIn([]) == {} && Sorted([])
  {
  }

  lemma LevelSplit(fs: seq<File>)
    requires fs != [] && LevelSorted(fs) && forall f :: f in fs ==> f.Valid()
    ensures var init, f := fs[..|fs| - 1], fs[|fs| - 1];
      && fs == init + [f] && f in fs && Sorted(f.entries) && LevelSorted(init) && (forall g :: g in init ==> g.Valid())
      && forall e, x :: e in EntriesIn(init) && x in f.entries ==> Less(e.key, x.key)
  {
    hide Less, Sorted;
    var m := |fs| - 1;
    var init, f := fs[..m], fs[m];
    assert forall i, j :: 0 <= i < j < m ==> init[i] == fs[i] && init[j] == fs[j] && Before(fs[i], fs[j]);
    forall e, x | e in EntriesIn(init) && x in f.entries ensures Less(e.key, x.key) {
      var g: File :| g in init && e in g.entries;
      var k :| 0 <= k < m && fs[k] == g;
      assert Before(fs[k], fs[m]);
      BeforeEntries(g, f, e, x);
    }
  }

  lemma LastFile(init: seq<File>, f: File)
    ensures Flatten(Contents(init + [f])) == Flatten(Contents(init)) + f.entries
    ensures forall e :: e in EntriesIn(init + [f]) <==> e in EntriesIn(init) || e in f.entries
  {
    assert Contents(init + [f]) == Contents(init) + [f.entries];
    FlattenSnoc(Contents(init), f.entries);
    forall e | e in EntriesIn(init) || e in f.entries ensures e in EntriesIn(init + [f]) {
      if e in f.entries {
        assert f in init + [f];
      } else {
        var g: File :| g in init && e in g.entries;
        assert g in init + [f];
      }
    }
  }

  lemma SortedConcat(a: seq<Entry>, b: seq<Entry>)
    requires Sorted(a) && Sorted(b) && forall e, x :: e in a && x in b ==> Less(e.key, x.key)
    ensures Sorted(a + b)
  {
    var c := a + b;
    forall i, j | 0 <= i < j < |c| ensures Less(c[i].key, c[j].key) {
      if i < |a| && j >= |a| {
        assert c[i] in a && c[j] in b;
      }
    }
  }

  lemma ZeroLists(levels: Levels, nextFile: nat)
    requires LevelsInv(levels, nextFile)
    ensures Separate(Contents(levels[0]))
    ensures forall e :: Holds(Contents(levels[0]), e) <==> e in EntriesIn(levels[0])
  {
    var fs := levels[0];
    forall i | 0 <= i < |fs| ensures Sorted(Contents(fs)[i]) {
      assert fs[i] in fs;
    }
    forall i, j | 0 <= i < j < |fs| ensures NoSharedKey(Contents(fs)[i], Contents(fs)[j]) {
      DifferentFiles(levels, nextFile, i, j);
    }
    forall e ensures Holds(Contents(fs), e) <==> e in EntriesIn(fs) {
      if e in EntriesIn(fs) {
        var f: File :| f in fs && e in f.entries;
        var k :| 0 <= k < |fs| && fs[k] == f;
        assert Contents(fs)[k] in Contents(fs);
      }
    }
  }

  lemma DifferentFiles(levels: Levels, nextFile: nat, i: nat, j: nat)
    requires LevelsInv(levels, nextFile) && i < j < |levels[0]|
    ensures NoSharedKey(levels[0][i].entries, levels[0][j].entries)
  {
    NumbersDistinct(levels, nextFile);
    var f, g := levels[0][i], levels[0][j];
    assert f in levels[0] && g in levels[0];
    if f.number < g.number {
      assert AllOlder(f, g);
    } else {
      assert AllOlder(g, f);
    }
  }

  // ---------- all levels ----------

  ghost predicate InLevelsFrom(levels: Levels, l: nat, e: Entry) {
    exists m: nat, f: File :: l <= m < |levels| && f in levels[m] && e in f.entries
  }

  lemma {:induction false} DeepOnes(levels: Levels, nextFile: nat, l: nat)
    requires LevelsInv(levels, nextFile) && 1 <= l <= NUM_LEVELS
    ensures Separate(DeepLists(levels, l))
    ensures forall e :: Holds(DeepLists(levels, l), e) <==> InLevelsFrom(levels, l, e)
    decreases NUM_LEVELS - l
  {
    if l < NUM_LEVELS {
      DeepOnes(levels, nextFile, l + 1);
      var fs, rest := levels[l], DeepLists(levels, l + 1);
      LevelList(fs);
      var list := Flatten(Contents(fs));
      var here := if fs == [] then [] else [list];
      SeparateOne(list);
      forall x, y | x in here && y in rest ensures NoSharedKey(x, y) {
        DeepApart(levels, nextFile, l, x, y, rest);
      }
      SeparateConcat(here, rest);
      forall e ensures Holds(here + rest, e) <==> InLevelsFrom(levels, l, e) {
        HoldsConcat(here, rest, e);
        HoldsOne(list, e);
        LevelsFromHere(levels, l, e);
      }
    }
  }

  lemma LevelsFromHere(levels: Levels, l: nat, e: Entry)
    requires l < |levels|
    ensures InLevelsFrom(levels, l, e) <==> e in EntriesIn(levels[l]) || InLevelsFrom(levels, l + 1, e)
  {
    if InLevelsFrom(levels, l, e) {
      var m: nat, f: File :| l <= m < |levels| && f in levels[m] && e in f.entries;
      assert m == l ==> e in EntriesIn(levels[l]);
    }
    if e in EntriesIn(levels[l]) {
      var f: File :| f in levels[l] && e in f.entries;
    }
  }

  lemma DeepApart(levels: Levels, nextFile: nat, l: nat, x: seq<Entry>, y: seq<Entry>, rest: seq<seq<Entry>>)
    requires LevelsInv(levels, nextFile) && l < NUM_LEVELS && y in rest
    requires forall e :: e in x <==> e in EntriesIn(levels[l])
    requires forall e :: Holds(rest, e) ==> InLevelsFrom(levels, l + 1, e)
    ensures NoSharedKey(x, y)
  {
    forall e, z | e in x && z in y ensures e.key != z.key {
      assert Holds(rest, z);
      var f: File :| f in levels[l] && e in f.entries;
      var m: nat, g: File :| l + 1 <= m < |levels| && g in levels[m] && z in g.entries;
      assert NewerFile(f, g);
    }
  }

  lemma TableLists(levels: Levels, nextFile: nat)
    requires LevelsInv(levels, nextFile)
    ensures Separate(Contents(levels[0]) + DeepLists(levels, 1))
    ensures forall e :: Holds(Contents(levels[0]) + DeepLists(levels, 1), e) <==> e in LevelEntries(levels)
  {
    hide Separate, Holds, NoSharedKey, FilesValid, LevelsSorted, Layered, NewestByNumber, Contents, DeepLists;
    ZeroLists(levels, nextFile);
    DeepOnes(levels, nextFile, 1);
    var zero, deep := Contents(levels[0]), DeepLists(levels, 1);
    ZeroApart(levels, nextFile, zero, deep);
    SeparateConcat(zero, deep);
    forall e ensures Holds(zero + deep, e) <==> e in LevelEntries(levels) {
      HoldsConcat(zero, deep, e);
      LevelsFromHere(levels, 0, e);
    }
  }

  lemma ZeroApart(levels: Levels, nextFile: nat, zero: seq<seq<Entry>>, deep: seq<seq<Entry>>)
    requires LevelsInv(levels, nextFile)
    requires forall e :: Holds(zero, e) ==> e in EntriesIn(levels[0])
    requires forall e :: Holds(deep, e) ==> InLevelsFrom(levels, 1, e)
    ensures Across(zero, deep)
  {
    hide FilesValid, LevelsSorted, NewestByNumber, EntriesIn, InLevelsFrom;
    forall x, y | x in zero && y in deep ensures NoSharedKey(x, y) {
      forall e, z | e in x && z in y ensures e.key != z.key {
        assert Holds(deep, z) && Holds(zero, e);
        ZeroNewer(levels, e, z);
      }
    }
  }

  lemma ZeroNewer(levels: Levels, e: Entry, z: Entry)
    requires |levels| > 0 && Layered(levels) && e in EntriesIn(levels[0]) && InLevelsFrom(levels, 1, z)
    ensures e.key != z.key
  {
    var f: File :| f in levels[0] && e in f.entries;
    var m: nat, g: File :| 1 <= m < |levels| && g in levels[m] && z in g.entries;
    assert NewerFile(f, g);
  }

  // ---------- the store ----------

  lemma OlderApart(a: seq<Entry>, lists: seq<seq<Entry>>, older: set<Entry>)
    requires OlderThan(older, ToSet(a)) && forall e :: Holds(lists, e) ==> e in older
    ensures Across([a], lists)
  {
    forall x, y | x in [a] && y in lists ensures NoSharedKey(x, y) {
      forall e, z | e in x && z in y ensures e.key != z.key {
        assert Holds(lists, z) && e in ToSet(a);
      }
    }
  }

  ghost function TablesOf(db: DB): seq<seq<Entry>>
    requires |db.levels| > 0
  {
    Contents(db.levels[0]) + DeepLists(db.levels, 1)
  }

  ghost function ImmLists(db: DB): seq<seq<Entry>> {
    if db.imm.Some? then [db.imm.value] else []
  }

  lemma ImmAndTables(db: DB)
    requires LevelsInv(db.levels, db.nextFile) && MemInv(db)
    ensures Separate(ImmLists(db) + TablesOf(db))
    ensures forall e :: Holds(ImmLists(db) + TablesOf(db), e) <==> e in ImmEntries(db.imm) + LevelEntries(db.levels)
  {
    hide Separate, Holds, NoSharedKey, Sorted, DeepLists, FilesValid, LevelsSorted, Layered, NewestByNumber;
    TableLists(db.levels, db.nextFile);
    if db.imm.Some? {
      SeparateOne(db.imm.value);
      OlderApart(db.imm.value, TablesOf(db), LevelEntries(db.levels));
      SeparateConcat(ImmLists(db), TablesOf(db));
    } else {
      assert [] + TablesOf(db) == TablesOf(db);
    }
    forall e ensures Holds(ImmLists(db) + TablesOf(db), e) <==> e in ImmEntries(db.imm) + LevelEntries(db.levels) {
      HoldsConcat(ImmLists(db), TablesOf(db), e);
      HoldsOne(if db.imm.Some? then db.imm.value else [], e);
    }
  }

  lemma StoreLists(db: DB, written: set<Entry>)
    requires Inv(db, written)
    ensures Separate(ChildLists(db))
    ensures forall e :: Holds(ChildLists(db), e) <==> e in Content(db)
  {
    hide Separate, Holds, SnapshotsInv, JobInv, WrittenInv, NoSharedKey, Sorted, DeepLists, ImmLists, TablesOf;
    ImmAndTables(db);
    var older := ImmLists(db) + TablesOf(db);
    MemApart(db, older);
    SeparateConcat([db.mem], older);
    ChildrenAre(db);
    forall e ensures Holds(ChildLists(db), e) <==> e in Content(db) {
      HoldsConcat([db.mem], older, e);
      HoldsOne(db.mem, e);
    }
  }

  lemma MemApart(db: DB, older: seq<seq<Entry>>)
    requires MemInv(db) && forall e :: Holds(older, e) ==> e in ImmEntries(db.imm) + LevelEntries(db.levels)
    ensures Separate([db.mem]) && Across([db.mem], older)
  {
    hide Separate, Holds, NoSharedKey, LevelEntries, ImmEntries;
    SeparateOne(db.mem);
    OlderApart(db.mem, older, ImmEntries(db.imm) + LevelEntries(db.levels));
  }

  lemma ChildrenAre(db: DB)
    requires |db.levels| > 0
    ensures ChildLists(db) == [db.mem] + (ImmLists(db) + TablesOf(db))
  {
    hide DeepLists;
  }

  /** The merged list of the store's iterators exists, is sorted, and holds the content of the store. */
  lemma MergedStore(db: DB, written: set<Entry>) returns (merged: seq<Entry>)
    requires Inv(db, written)
    ensures IsUnion(ChildLists(db), merged) && ToSet(merged) == Content(db)
  {
    StoreLists(db, written);
    hide Inv, Separate, Content, ChildLists, Holds;
    assert Distinct(Content(db)) by { ContentIsDistinct(db, written); }
    merged := Ordered(Content(db));
    UnionOfLists(ChildLists(db), merged, Content(db));
  }

  lemma ContentIsDistinct(db: DB, written: set<Entry>)
    requires Inv(db, written)
    ensures Distinct(Content(db))
  {
  }

  lemma UnionOfLists(lists: seq<seq<Entry>>, merged: seq<Entry>, all: set<Entry>)
    requires Separate(lists) && Sorted(merged) && ToSet(merged) == all
    requires forall e :: Holds(lists, e) <==> e in all
    ensures IsUnion(lists, merged)
  {
    forall i, e | 0 <= i < |lists| && e in lists[i] ensures e in merged {
      assert lists[i] in lists && Holds(lists, e);
      assert e in ToSet(merged);
    }
    forall e | e in merged ensures exists i :: 0 <= i < |lists| && e in lists[i] {
      assert e in ToSet(merged) && Holds(lists, e);
      var x :| x in lists && e in x;
    }
    forall i, j, e, x | 0 <= i < j < |lists| && e in lists[i] && x in lists[j] ensures e.key != x.key {
      assert NoSharedKey(lists[i], lists[j]);
    }
  }

  /** Entries with different numbers can be put in order. */
  lemma {:induction false} Ordered(all: set<Entry>) returns (es: seq<Entry>)
    requires Distinct(all)
    ensures Sorted(es) && ToSet(es) == all
    decreases all
  {
    if all == {} {
      es := [];
    } else {
      var e :| e in all;
      var rest := Ordered(all - {e});
      es := InsertInOrder(rest, e);
      assert all == (all - {e}) + {e};
    }
  }

  lemma {:induction false} InsertInOrder(es: seq<Entry>, e: Entry) returns (r: seq<Entry>)
    requires Sorted(es) && e !in es && forall x :: x in es ==> x.key.num != e.key.num
    ensures Sorted(r) && ToSet(r) == ToSet(es) + {e}
  {
    if es == [] || Less(es[|es| - 1].key, e.key) {
      r := es + [e];
      InsertLast(es, e);
    } else {
      var m := |es| - 1;
      assert es == es[..m] + [es[m]];
      var front := InsertInOrder(es[..m], e);
      r := front + [es[m]];
      InsertEarlier(es, front, e);
    }
  }

  lemma InsertLast(es: seq<Entry>, e: Entry)
    requires Sorted(es) && (es != [] ==> Less(es[|es| - 1].key, e.key))
    ensures Sorted(es + [e]) && ToSet(es + [e]) == ToSet(es) + {e}
  {
    forall i | 0 <= i < |es| ensures Less(es[i].key, e.key) {
      assert i < |es| - 1 ==> Less(es[i].key, es[|es| - 1].key);
    }
  }

  lemma InsertEarlier(es: seq<Entry>, front: seq<Entry>, e: Entry)
    requires es != [] && Sorted(es) && Sorted(front) && ToSet(front) == ToSet(es[..|es| - 1]) + {e}
    requires !Less(es[|es| - 1].key, e.key) && es[|es| - 1].key.num != e.key.num
    ensures Sorted(front + [es[|es| - 1]]) && ToSet(front + [es[|es| - 1]]) == ToSet(es) + {e}
  {
    var m := |es| - 1;
    var last := es[m];
    LessTotal(last.key, e.key);
    forall x, y | x in front && y in [last] ensures Less(x.key, y.key) {
      assert x in ToSet(front);
      if x != e {
        var i :| 0 <= i < m && es[..m][i] == x;
        assert Less(es[i].key, es[m].key);
      }
    }
    hide Less;
    SortedConcat(front, [last]);
    assert es == es[..m] + [last];
    assert ToSet(front + [last]) == ToSet(front) + {last};
    assert ToSet(es) == ToSet(es[..m]) + {last};
  }

  /** The live entries of the merged list are the values that lookups in the store return, key by key. */
  lemma IterationReads(db: DB, written: set<Entry>, merged: seq<Entry>, s: nat)
    requires Inv(db, written) && IsUnion(ChildLists(db), merged) && ToSet(merged) == Content(db)
    ensures forall i :: 0 <= i < |merged| && Live(merged, s, i) ==>
      Read(Content(db), merged[i].key.user, s) == Found(merged[i].value)
    ensures forall u :: Read(Content(db), u, s).Found? ==>
      exists i :: 0 <= i < |merged| && Live(merged, s, i) && merged[i].key.user == u
  {
    ContentIsDistinct(db, written);
    hide Inv, ChildLists, Content;
    forall i | 0 <= i < |merged| && Live(merged, s, i)
      ensures Read(Content(db), merged[i].key.user, s) == Found(merged[i].value)
    {
      LiveIsRead(merged, s, i);
    }
    forall u | Read(Content(db), u, s).Found?
      ensures exists i :: 0 <= i < |merged| && Live(merged, s, i) && merged[i].key.user == u
    {
      var i := ReadIsLive(merged, s, u);
    }
  }
}
