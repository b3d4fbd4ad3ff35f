/** The invariant of the levels, and why flushes, moves and compactions keep it. */
module LevelInvariant {
  import opened Options
  import opened Keys
  import opened Tables
  import opened Overlap
  import opened Inputs
  import opened Builder
  import opened Reads
  import opened Store

  /** Wherever the two files share a user key, the first holds the newer entry. */
  ghost predicate NewerFile(f: File, g: File) {
    forall e, x :: e in f.entries && x in g.entries && e.key.user == x.key.user ==> e.key.num > x.key.num
  }

  ghost predicate FilesValid(levels: Levels, nextFile: nat) {
    && (forall l, f :: 0 <= l < |levels| && f in levels[l] ==> f.Valid() && f.number < nextFile)
    && (forall l, m, f, g | 0 <= l < |levels| && 0 <= m < |levels| && f in levels[l] && g in levels[m] ::
          f.number == g.number ==> l == m && f == g)
  }

  /** Levels above 0 are sorted and disjoint. */
  ghost predicate LevelsSorted(levels: Levels) {
    && (forall l :: 0 <= l < |levels| ==> SortedBySmallest(levels[l]))
    && (forall l :: 1 <= l < |levels| ==> LevelSorted(levels[l]))
  }

  /** Shallower levels hold only newer entries of a user key. */
  ghost predicate Layered(levels: Levels) {
    forall i, j, f, g :: 0 <= i < j < |levels| && f in levels[i] && g in levels[j] ==> NewerFile(f, g)
  }

  ghost predicate AllOlder(f: File, g: File) {
    forall e, x :: e in f.entries && x in g.entries ==> e.key.num < x.key.num
  }

  /** In level 0 a higher file number means newer entries. */
  ghost predicate NewestByNumber(fs: seq<File>) {
    forall f, g :: f in fs && g in fs && f.number < g.number ==> AllOlder(f, g)
  }

  ghost predicate LevelsInv(levels: Levels, nextFile: nat) {
    && |levels| == NUM_LEVELS
    && FilesValid(levels, nextFile)
    && LevelsSorted(levels)
    && Layered(levels)
    && NewestByNumber(levels[0])
  }

  // ---------- inputs and the files left beside them ----------

  ghost predicate UserApart(g: File, fs: seq<File>) {
    forall f :: f in fs ==> g.Hi() < f.Lo() || f.Hi() < g.Lo()
  }

  /** The file lies before all of them or after all of them. */
  ghost predicate Apart(g: File, fs: seq<File>) {
    (forall f :: f in fs ==> Before(g, f)) || (forall f :: f in fs ==> Before(f, g))
  }

  /** What the files that stay behind must satisfy for the inputs to be rewritten one level down. */
  ghost predicate Separated(levels: Levels, level: nat, in0: seq<File>, in1: seq<File>) {
    && |levels| == NUM_LEVELS && level + 1 < NUM_LEVELS
    && (forall f :: f in in0 ==> f in levels[level])
    && (forall f :: f in in1 ==> f in levels[level + 1])
    && (forall g, f :: g in levels[level] && g !in in0 && f in in0 ==> NewerFile(g, f))
    && (forall g :: g in levels[level + 1] && g !in in1 ==> Apart(g, in0 + in1) && UserApart(g, in0))
  }

  lemma NoSharedUser(g: File, f: File)
    requires g.Valid() && f.Valid() && (g.Hi() < f.Lo() || f.Hi() < g.Lo())
    ensures forall e, x :: e in g.entries && x in f.entries ==> e.key.user != x.key.user
  {
    forall e, x | e in g.entries && x in f.entries ensures e.key.user != x.key.user {
      InFile(g, e);
      InFile(f, x);
    }
  }

  /** Sorted files of one level: an entry before another one of the same user key is the newer one. */
  lemma BeforeNewer(all: set<Entry>, g: File, f: File)
    requires Distinct(all) && g.Valid() && f.Valid() && Before(g, f)
    requires forall e :: e in g.entries || e in f.entries ==> e in all
    ensures NewerFile(g, f)
  {
    forall e, x | e in g.entries && x in f.entries && e.key.user == x.key.user
      ensures e.key.num > x.key.num
    {
      BeforeEntries(g, f, e, x);
    }
  }

  lemma InLevels(levels: Levels, l: nat, f: File, e: Entry)
    requires l < |levels| && f in levels[l] && e in f.entries
    ensures e in LevelEntries(levels)
  {
  }

  ghost predicate FilesIn(fs: seq<File>, all: set<Entry>) {
    forall f :: f in fs ==> f.Valid() && forall e :: e in f.entries ==> e in all
  }

  // A file outside a run with a clean end is newer than the run where they share a user key.
  lemma RunLeftover(fs: seq<File>, all: set<Entry>, in0: seq<File>, a: nat, b: nat, i: nat, j: nat)
    requires LevelSorted(fs) && Distinct(all) && IsRun(fs, in0, a, b) && EndsClean(fs, b)
    requires FilesIn(fs, all)
    requires i < |fs| && !(a <= i < b) && a <= j < b
    ensures NewerFile(fs[i], fs[j])
  {
    assert fs[i] in fs && fs[j] in fs;
    if i < a {
      LargestOrdered(fs, i, j);
      BeforeNewer(all, fs[i], fs[j]);
    } else {
      BeyondRun(fs, b, i, j);
      NoSharedUser(fs[i], fs[j]);
    }
  }

  // Across a clean end, user keys differ.
  lemma BeyondRun(fs: seq<File>, b: nat, i: nat, j: nat)
    requires LevelSorted(fs) && j < b <= i < |fs| && EndsClean(fs, b)
    ensures fs[j].Hi() < fs[i].Lo()
  {
    LargestOrdered(fs, b - 1, b);
    if j < b - 1 { LargestOrdered(fs, j, b - 1); }
    if b < i { LargestOrdered(fs, b, i); }
  }

  /** What is left at the compacted level is newer than what is taken from it. */
  lemma LeftoverNewer(fs: seq<File>, all: set<Entry>, level: nat, in0: seq<File>, g: File, f: File)
    requires level > 0 ==> LevelSorted(fs)
    requires Distinct(all) && ClosedInputs(level, fs, in0)
    requires FilesIn(fs, all)
    requires g in fs && g !in in0 && f in in0
    ensures NewerFile(g, f)
  {
    if level == 0 {
      NoSharedUser(g, f);
    } else {
      var a: nat, b: nat :| IsRun(fs, in0, a, b) && EndsClean(fs, b);
      var i, j := RunPositions(fs, in0, a, b, g, f);
      RunLeftover(fs, all, in0, a, b, i, j);
    }
  }

  lemma RunPositions(fs: seq<File>, in0: seq<File>, a: nat, b: nat, g: File, f: File) returns (i: nat, j: nat)
    requires IsRun(fs, in0, a, b) && g in fs && g !in in0 && f in in0
    ensures i < |fs| && fs[i] == g && !(a <= i < b)
    ensures a <= j < b && fs[j] == f
  {
    i :| 0 <= i < |fs| && fs[i] == g;
    var k :| 0 <= k < |in0| && in0[k] == f;
    j := a + k;
    assert forall m :: a <= m < b ==> fs[m] == in0[m - a];
  }

  // A file that does not meet a range lies on the same side of every file that does.
  lemma OutsideSelection(gs: seq<File>, lo: UserKey, hi: UserKey, g: File, f: File)
    requires LevelSorted(gs) && lo <= hi && g in gs && f in gs
    requires !Overlaps(g, Some(lo), Some(hi)) && Overlaps(f, Some(lo), Some(hi))
    ensures if g.Hi() < lo then Before(g, f) else Before(f, g)
  {
    var i :| 0 <= i < |gs| && gs[i] == g;
    var j :| 0 <= j < |gs| && gs[j] == f;
    if i < j {
      LargestOrdered(gs, i, j);
    } else if j < i {
      LargestOrdered(gs, j, i);
    }
  }

  lemma LeftoverApart(gs: seq<File>, in0: seq<File>, s: InternalKey, l: InternalKey, g: File)
    requires LevelSorted(gs) && IsSmallest(in0, s) && IsLargest(in0, l)
    requires g in gs && !Overlaps(g, Some(s.user), Some(l.user))
    ensures Apart(g, in0 + Select(gs, Some(s.user), Some(l.user))) && UserApart(g, in0)
  {
    RangeUsers(in0, s, l);
    SelectMember(gs, Some(s.user), Some(l.user));
    forall f | f in in0 + Select(gs, Some(s.user), Some(l.user))
      ensures if g.Hi() < s.user then Before(g, f) else Before(f, g)
    {
      if f !in in0 {
        OutsideSelection(gs, s.user, l.user, g, f);
      }
    }
  }

  lemma NextLevelApart(gs: seq<File>, in0: seq<File>, in1: seq<File>)
    requires LevelSorted(gs)
    requires exists s, l :: IsSmallest(in0, s) && IsLargest(in0, l) && in1 == Select(gs, Some(s.user), Some(l.user))
    ensures forall f :: f in in1 ==> f in gs
    ensures forall g :: g in gs && g !in in1 ==> Apart(g, in0 + in1) && UserApart(g, in0)
  {
    var s, l :| IsSmallest(in0, s) && IsLargest(in0, l) && in1 == Select(gs, Some(s.user), Some(l.user));
    SelectMember(gs, Some(s.user), Some(l.user));
    forall g | g in gs && g !in in1 ensures Apart(g, in0 + in1) && UserApart(g, in0) {
      LeftoverApart(gs, in0, s, l, g);
    }
  }

  lemma ThisLevelNewer(fs: seq<File>, all: set<Entry>, level: nat, in0: seq<File>)
    requires level > 0 ==> LevelSorted(fs)
    requires Distinct(all) && ClosedInputs(level, fs, in0) && FilesIn(fs, all)
    ensures forall f :: f in in0 ==> f in fs
    ensures forall g, f :: g in fs && g !in in0 && f in in0 ==> NewerFile(g, f)
  {
    forall g, f | g in fs && g !in in0 && f in in0 ensures NewerFile(g, f) {
      LeftoverNewer(fs, all, level, in0, g, f);
    }
  }

  lemma FilesInLevels(levels: Levels, nextFile: nat, l: nat)
    requires FilesValid(levels, nextFile) && l < |levels|
    ensures FilesIn(levels[l], LevelEntries(levels))
  {
  }

  /** Inputs picked by the plan leave the rest of both levels in place. */
  lemma PlanSeparated(levels: Levels, nextFile: nat, level: nat, in0: seq<File>, in1: seq<File>)
    requires LevelsInv(levels, nextFile) && Distinct(LevelEntries(levels)) && level + 1 < NUM_LEVELS
    requires Plan(level, levels[level], levels[level + 1], in0, in1)
    ensures Separated(levels, level, in0, in1)
  {
    NextLevelApart(levels[level + 1], in0, in1);
    FilesInLevels(levels, nextFile, level);
    ThisLevelNewer(levels[level], LevelEntries(levels), level, in0);
  }

  // ---------- rewriting files one level down ----------

  ghost predicate FromInputs(o: File, inputs: seq<File>) {
    forall e :: e in o.entries ==> exists f :: f in inputs && e in f.entries
  }

  ghost predicate PairwiseDisjoint(fs: seq<File>) {
    forall f, g :: f in fs && g in fs && f != g ==> Before(f, g) || Before(g, f)
  }

  /** The files that take the place of the inputs: cut from their entries, disjoint, and numbered apart. */
  ghost predicate OutputsFit(levels: Levels, nextFile: nat, level: nat, in0: seq<File>, in1: seq<File>,
                             outs: seq<File>)
    requires |levels| == NUM_LEVELS
  {
    && (forall o :: o in outs ==> o.Valid() && o.number < nextFile && FromInputs(o, in0 + in1))
    && PairwiseDisjoint(outs)
    && (forall o, p :: o in outs && p in outs && o.number == p.number ==> o == p)
    && (forall o, l, g :: o in outs && 0 <= l < NUM_LEVELS && g in levels[l] && Stays(level, in0, in1, l, g)
                          ==> o.number != g.number)
  }

  ghost predicate Stays(level: nat, in0: seq<File>, in1: seq<File>, l: nat, g: File) {
    (l == level ==> g !in in0) && (l == level + 1 ==> g !in in1)
  }

  // Where a file of the new levels comes from.
  ghost predicate Kin(levels: Levels, level: nat, in0: seq<File>, in1: seq<File>, outs: seq<File>, l: nat, f: File)
    requires l < |levels|
  {
    (f in levels[l] && Stays(level, in0, in1, l, f)) || (l == level + 1 && f in outs)
  }

  ghost predicate Rewritten(levels: Levels, levels2: Levels, level: nat, in0: seq<File>, in1: seq<File>,
                            outs: seq<File>)
  {
    && |levels| == |levels2| == NUM_LEVELS
    && forall l, f :: 0 <= l < NUM_LEVELS && f in levels2[l] ==> Kin(levels, level, in0, in1, outs, l, f)
  }

  /** The files of the new levels. */
  lemma ReplacedFiles(levels: Levels, levels2: Levels, level: nat, in0: seq<File>, in1: seq<File>, outs: seq<File>)
    requires Replaced(levels, levels2, level, in0, in1, outs)
    ensures Rewritten(levels, levels2, level, in0, in1, outs)
  {
    forall l, f | 0 <= l < NUM_LEVELS && f in levels2[l] ensures Kin(levels, level, in0, in1, outs, l, f) {
      if l == level || l == level + 1 {
        assert f in in0 ==> f.number in Numbers(in0);
        assert f in in1 ==> f.number in Numbers(in1);
      }
    }
  }

  lemma NumberedApart(levels: Levels, nextFile: nat, level: nat, in0: seq<File>, in1: seq<File>, outs: seq<File>,
                      l: nat, f: File, m: nat, g: File)
    requires FilesValid(levels, nextFile) && |levels| == NUM_LEVELS && l < NUM_LEVELS && m < NUM_LEVELS
    requires OutputsFit(levels, nextFile, level, in0, in1, outs)
    requires Kin(levels, level, in0, in1, outs, l, f) && Kin(levels, level, in0, in1, outs, m, g)
    requires f.number == g.number
    ensures l == m && f == g
  {
  }

  lemma RewrittenValid(levels: Levels, levels2: Levels, nextFile: nat, level: nat, in0: seq<File>, in1: seq<File>,
                       outs: seq<File>)
    requires FilesValid(levels, nextFile) && Rewritten(levels, levels2, level, in0, in1, outs)
    requires OutputsFit(levels, nextFile, level, in0, in1, outs)
    ensures FilesValid(levels2, nextFile)
  {
    forall l, m, f, g | 0 <= l < NUM_LEVELS && 0 <= m < NUM_LEVELS && f in levels2[l] && g in levels2[m]
                        && f.number == g.number
      ensures l == m && f == g
    {
      NumberedApart(levels, nextFile, level, in0, in1, outs, l, f, m, g);
    }
  }

  // An output keeps to the place its inputs leave.
  lemma OutputApart(g: File, inputs: seq<File>, o: File)
    requires Apart(g, inputs) && g.Valid() && o.Valid() && FromInputs(o, inputs)
    requires forall f :: f in inputs ==> f.Valid()
    ensures Before(g, o) || Before(o, g)
  {
    var first, last := o.entries[0], o.entries[|o.entries| - 1];
    assert first in o.entries && last in o.entries;
    var f :| f in inputs && first in f.entries;
    var h :| h in inputs && last in h.entries;
    InFile(f, first);
    InFile(h, last);
  }

  lemma LevelPairwise(fs: seq<File>)
    requires LevelSorted(fs)
    ensures PairwiseDisjoint(fs)
  {
    forall f, g | f in fs && g in fs && f != g ensures Before(f, g) || Before(g, f) {
      var i :| 0 <= i < |fs| && fs[i] == f;
      var j :| 0 <= j < |fs| && fs[j] == g;
      assert i < j ==> Before(fs[i], fs[j]);
      assert j < i ==> Before(fs[j], fs[i]);
    }
  }

  lemma RewrittenPairwise(gs: seq<File>, inputs: seq<File>, outs: seq<File>, r: seq<File>)
    requires PairwiseDisjoint(gs) && PairwiseDisjoint(outs)
    requires forall f :: f in gs || f in inputs || f in outs ==> f.Valid()
    requires forall o :: o in outs ==> FromInputs(o, inputs)
    requires forall f :: f in r ==> f in outs || (f in gs && Apart(f, inputs))
    ensures PairwiseDisjoint(r)
  {
    forall f, g | f in r && g in r && f != g ensures Before(f, g) || Before(g, f) {
      if f in outs && g !in outs {
        OutputApart(g, inputs, f);
      } else if g in outs && f !in outs {
        OutputApart(f, inputs, g);
      }
    }
  }

  lemma AboveOutput(g: File, inputs: seq<File>, o: File)
    requires FromInputs(o, inputs) && forall f :: f in inputs ==> NewerFile(g, f)
    ensures NewerFile(g, o)
  {
    forall e, x | e in g.entries && x in o.entries && e.key.user == x.key.user ensures e.key.num > x.key.num {
      var f :| f in inputs && x in f.entries;
    }
  }

  lemma BelowOutput(g: File, inputs: seq<File>, o: File)
    requires FromInputs(o, inputs) && forall f :: f in inputs ==> NewerFile(f, g)
    ensures NewerFile(o, g)
  {
    forall x, e | x in o.entries && e in g.entries && e.key.user == x.key.user ensures x.key.num > e.key.num {
      var f :| f in inputs && x in f.entries;
    }
  }

  // One pair of files of the new levels.
  lemma LayeredPair(levels: Levels, level: nat, in0: seq<File>, in1: seq<File>, outs: seq<File>,
                    i: nat, j: nat, f: File, g: File)
    requires Layered(levels) && Separated(levels, level, in0, in1) && i < j < NUM_LEVELS
    requires forall o :: o in outs ==> FromInputs(o, in0 + in1)
    requires Kin(levels, level, in0, in1, outs, i, f) && Kin(levels, level, in0, in1, outs, j, g)
    ensures NewerFile(f, g)
  {
    if i == level + 1 && f in outs {
      forall h | h in in0 + in1 ensures NewerFile(h, g) {
      }
      BelowOutput(g, in0 + in1, f);
    } else if j == level + 1 && g in outs {
      forall h | h in in0 + in1 ensures NewerFile(f, h) {
      }
      AboveOutput(f, in0 + in1, g);
    }
  }

  lemma RewrittenLayered(levels: Levels, levels2: Levels, level: nat, in0: seq<File>, in1: seq<File>, outs: seq<File>)
    requires Layered(levels) && Separated(levels, level, in0, in1)
    requires Rewritten(levels, levels2, level, in0, in1, outs)
    requires forall o :: o in outs ==> FromInputs(o, in0 + in1)
    ensures Layered(levels2)
  {
    forall i, j, f, g | 0 <= i < j < |levels2| && f in levels2[i] && g in levels2[j] ensures NewerFile(f, g) {
      LayeredPair(levels, level, in0, in1, outs, i, j, f, g);
    }
  }

  lemma RewrittenSorted(levels: Levels, levels2: Levels, nextFile: nat, level: nat, in0: seq<File>, in1: seq<File>,
                        outs: seq<File>)
    requires LevelsInv(levels, nextFile) && Separated(levels, level, in0, in1)
    requires Replaced(levels, levels2, level, in0, in1, outs) && OutputsFit(levels, nextFile, level, in0, in1, outs)
    ensures LevelsSorted(levels2)
  {
    hide Separated, OutputsFit, FilesValid, Layered, NewestByNumber, LevelSorted, SortedBySmallest;
    if level > 0 {
      SubLevelSorted(levels[level], levels2[level]);
    }
    NextLevelSorted(levels, levels2, nextFile, level, in0, in1, outs);
  }

  lemma NextLevelSorted(levels: Levels, levels2: Levels, nextFile: nat, level: nat, in0: seq<File>, in1: seq<File>,
                        outs: seq<File>)
    requires LevelsInv(levels, nextFile) && Separated(levels, level, in0, in1)
    requires Replaced(levels, levels2, level, in0, in1, outs) && OutputsFit(levels, nextFile, level, in0, in1, outs)
    ensures LevelSorted(levels2[level + 1])
  {
    hide LevelSorted, SortedBySmallest, PairwiseDisjoint, Layered, NewestByNumber, Apart, UserApart, NewerFile;
    hide FromInputs, File.Valid;
    ReplacedFiles(levels, levels2, level, in0, in1, outs);
    LevelPairwise(levels[level + 1]);
    forall f | f in levels2[level + 1] ensures f in outs || (f in levels[level + 1] && Apart(f, in0 + in1)) {
      assert Kin(levels, level, in0, in1, outs, level + 1, f);
    }
    RewrittenPairwise(levels[level + 1], in0 + in1, outs, levels2[level + 1]);
    PairwiseSorted(levels2[level + 1]);
  }

  lemma PairwiseSorted(fs: seq<File>)
    requires SortedBySmallest(fs) && PairwiseDisjoint(fs)
    ensures LevelSorted(fs)
  {
    DisjointSorted(fs);
  }

  lemma SubLevelSorted(fs: seq<File>, r: seq<File>)
    requires LevelSorted(fs) && SortedBySmallest(r) && forall f :: f in r ==> f in fs
    ensures LevelSorted(r)
  {
    LevelPairwise(fs);
    DisjointSorted(r);
  }

  /** Rewriting separated inputs one level down keeps the invariant of the levels. */
  lemma ReplacedInv(levels: Levels, levels2: Levels, nextFile: nat, level: nat, in0: seq<File>, in1: seq<File>,
                    outs: seq<File>)
    requires LevelsInv(levels, nextFile) && Separated(levels, level, in0, in1)
    requires Replaced(levels, levels2, level, in0, in1, outs) && OutputsFit(levels, nextFile, level, in0, in1, outs)
    ensures LevelsInv(levels2, nextFile)
  {
    ReplacedFiles(levels, levels2, level, in0, in1, outs);
    RewrittenValid(levels, levels2, nextFile, level, in0, in1, outs);
    RewrittenLayered(levels, levels2, level, in0, in1, outs);
    RewrittenSorted(levels, levels2, nextFile, level, in0, in1, outs);
    assert forall f :: f in levels2[0] ==> Kin(levels, level, in0, in1, outs, 0, f);
  }
}
