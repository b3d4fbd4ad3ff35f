/** A run from the empty store in which a deleted value comes back: the exception of StoreReads is reachable. */
module Resurrection {
  import opened Options
  import opened Keys
  import opened Tables
  import opened Overlap
  import opened Inputs
  import opened Compaction
  import opened Builder
  import opened Reads
  import opened Store
  import opened StoreInvariant
  import opened StoreReads

  const A: UserKey := 1.0
  const U: UserKey := 2.0

  const a1 := Entry(InternalKey(A, 1, TypeValue), "a")
  const u2 := Entry(InternalKey(U, 2, TypeValue), "deleted")
  const u3 := Entry(InternalKey(U, 3, TypeDeletion), "")
  const a4 := Entry(InternalKey(A, 4, TypeValue), "a")
  const a5 := Entry(InternalKey(A, 5, TypeValue), "a")

  function Levels12(l1: seq<File>, l2: seq<File>): Levels {
    [[], l1, l2, [], [], [], []]
  }

  // Tables written on the way. The two halves of the first compaction split the entries of U.
  const F1: File := FileMeta(2, 0, a1.key, u2.key, [a1, u3, u2])
  const F2: File := FileMeta(3, 0, a4.key, a4.key, [a4])
  const G1: File := FileMeta(4, 0, a4.key, u3.key, [a4, a1, u3])
  const G2: File := FileMeta(5, 0, u2.key, u2.key, [u2])
  const F3: File := FileMeta(6, 0, a5.key, a5.key, [a5])
  const H: File := FileMeta(7, 0, a5.key, a5.key, [a5])

  const NONE: Levels := Levels12([], [])

  const d1 := DB([a1, u2], None, NONE, 2, 2, [], None)
  const d2 := DB([a1, u2], None, NONE, 2, 2, [2], None)
  const d3 := DB([a1, u3, u2], None, NONE, 3, 2, [2], None)
  const d4 := DB([], Some([a1, u3, u2]), NONE, 3, 2, [2], None)
  const d5 := DB([], None, Levels12([], [F1]), 3, 3, [2], None)
  const d6 := DB([a4], None, Levels12([], [F1]), 4, 3, [2], None)
  const d7 := DB([], Some([a4]), Levels12([], [F1]), 4, 3, [2], None)
  const d8 := DB([], None, Levels12([F2], [F1]), 4, 4, [2], None)
  const d9 := DB([], None, Levels12([F2], [F1]), 4, 5, [2], None)
  const d10 := DB([], None, Levels12([F2], [F1]), 4, 6, [2], None)
  const d11 := DB([], None, Levels12([], [G1, G2]), 4, 6, [2], None)
  const d12 := DB([], None, Levels12([], [G1, G2]), 4, 6, [], None)
  const d13 := DB([a5], None, Levels12([], [G1, G2]), 5, 6, [], None)
  const d14 := DB([], Some([a5]), Levels12([], [G1, G2]), 5, 6, [], None)
  const d15 := DB([], None, Levels12([F3], [G1, G2]), 5, 7, [], None)
  const job: Job := Job(1, [F3], [G1], Levels12([F3], [G1, G2]), 5)
  const d16 := DB([], None, Levels12([F3], [G1, G2]), 5, 7, [], Some(job))
  const d17 := DB([], None, Levels12([F3], [G1, G2]), 5, 8, [], Some(job))
  const d18 := DB([], None, Levels12([], [H, G2]), 5, 8, [], None)

  const run := Run(
    [EMPTY, d1, d2, d3, d4, d5, d6, d7, d8, d9, d10, d11, d12, d13, d14, d15, d16, d17, d18],
    [Write([Put(A, "a"), Put(U, "deleted")]), GetSnapshot, Write([Delete(U)]), SwitchMemtable, Flush(0, 0),
     Write([Put(A, "a")]), SwitchMemtable, Flush(0, 0), AllocateFile, AllocateFile,
     ManualCompaction(1, [F2], [F1], [a4, a1, u3, u2], [G1, G2]), ReleaseSnapshot(0),
     Write([Put(A, "a")]), SwitchMemtable, Flush(0, 0), StartCompaction(1, [F3], [G1]), AllocateFile,
     FinishCompaction([a5, a4, a1, u3], [H])])

  // ---------- the steps, one by one ----------

  lemma Writes()
    ensures Next(EMPTY, d1, Write([Put(A, "a"), Put(U, "deleted")]))
    ensures Next(d2, d3, Write([Delete(U)]))
    ensures Next(d5, d6, Write([Put(A, "a")]))
    ensures Next(d12, d13, Write([Put(A, "a")]))
  {
    hide BatchEntries, ToSet, Sorted;
    WriteOne([a1, u2], [a1, u3, u2], Delete(U), u3, 2);
    WriteOne([], [a4], Put(A, "a"), a4, 3);
    WriteOne([], [a5], Put(A, "a"), a5, 4);
    WriteTwo();
  }

  lemma WriteOne(mem: seq<Entry>, mem2: seq<Entry>, op: Update, e: Entry, last: nat)
    requires e == EntryFor(op, last + 1)
    requires (mem == [] && mem2 == [e]) || (mem == [a1, u2] && mem2 == [a1, u3, u2] && e == u3)
    ensures ToSet(mem2) == ToSet(mem) + BatchEntries([op], last) && Sorted(mem2)
  {
    assert [op][0] == op;
    assert BatchEntries([op], last) == {e};
    assert ToSet([]) == {} && ToSet([e]) == {e} && ToSet([a1, u2]) == {a1, u2} && ToSet([a1, u3, u2]) == {a1, u3, u2};
  }

  lemma WriteTwo()
    ensures ToSet([a1, u2]) == ToSet([]) + BatchEntries([Put(A, "a"), Put(U, "deleted")], 0) && Sorted([a1, u2])
  {
    var ops := [Put(A, "a"), Put(U, "deleted")];
    assert EntryFor(ops[0], 1) == a1 && EntryFor(ops[1], 2) == u2;
    assert BatchEntries(ops, 0) == {a1, u2};
    assert ToSet([]) == {} && ToSet([a1, u2]) == {a1, u2};
  }

  lemma SelectOne(f: File, lo: Option<UserKey>, hi: Option<UserKey>)
    ensures Select([f], lo, hi) == if Overlaps(f, lo, hi) then [f] else []
  {
    assert [f][..0] == [];
  }

  lemma SelectTwo(f: File, g: File, lo: Option<UserKey>, hi: Option<UserKey>)
    ensures Select([f, g], lo, hi)
         == (if Overlaps(f, lo, hi) then [f] else []) + (if Overlaps(g, lo, hi) then [g] else [])
  {
    assert [f, g][..1] == [f];
    SelectOne(f, lo, hi);
  }

  lemma Flushes()
    ensures Next(d4, d5, Flush(0, 0)) && Next(d7, d8, Flush(0, 0)) && Next(d14, d15, Flush(0, 0))
  {
    hide Next;
    FirstFlush();
    SecondFlush();
    ThirdFlush();
  }

  lemma FirstFlush()
    ensures Next(d4, d5, Flush(0, 0))
  {
    assert TableOf(2, 0, [a1, u3, u2]) == F1 && F1.Valid();
    var p3, p2, p1 := PickLevelFrom(NONE, 2, A, U, 0), PickLevelFrom(NONE, 1, A, U, 0), PickLevelFrom(NONE, 0, A, U, 0);
    assert p3 == 2 && p2 == 2 && p1 == 2;
    assert PickLevel(NONE, F1.Lo(), F1.Hi(), 0) == 2;
    assert d5.levels == d4.levels[2 := [F1]];
  }

  lemma SecondFlush()
    ensures Next(d7, d8, Flush(0, 0))
  {
    SelectOne(F1, Some(A), Some(A));
    assert F2.Valid();
    assert [F1][1..] == [] && TotalFileSize([F1]) == 0;
    assert PickLevelFrom(d7.levels, 1, A, A, 0) == 1 && PickLevelFrom(d7.levels, 0, A, A, 0) == 1;
    assert TableOf(3, 0, [a4]) == F2 && PickLevel(d7.levels, F2.Lo(), F2.Hi(), 0) == 1;
    assert d8.levels == d7.levels[1 := [F2]];
  }

  lemma ThirdFlush()
    ensures Next(d14, d15, Flush(0, 0))
  {
    SelectTwo(G1, G2, Some(A), Some(A));
    assert F3.Valid();
    assert [G1][1..] == [] && TotalFileSize([G1]) == 0 && [G1] + [] == [G1];
    assert PickLevelFrom(d14.levels, 1, A, A, 0) == 1 && PickLevelFrom(d14.levels, 0, A, A, 0) == 1;
    assert TableOf(6, 0, [a5]) == F3 && PickLevel(d14.levels, F3.Lo(), F3.Hi(), 0) == 1;
    assert d15.levels == d14.levels[1 := [F3]];
  }

  // When nothing is dropped, everything is kept.
  lemma {:induction false} KeepsAll(input: seq<Entry>, n: nat, snap: nat, levels: Levels, level: nat)
    requires n <= |input| && forall i :: 0 <= i < n ==> !Dropped(input, i, snap, levels, level)
    ensures Kept(input, n, snap, levels, level) == input[..n]
  {
    if n > 0 {
      KeepsAll(input, n - 1, snap, levels, level);
      assert input[..n] == input[..n - 1] + [input[n - 1]];
    }
  }

  lemma {:induction false} KeepsFirst(input: seq<Entry>, n: nat, snap: nat, levels: Levels, level: nat)
    requires 1 <= n <= |input| && !Dropped(input, 0, snap, levels, level)
    requires forall i :: 1 <= i < n ==> Dropped(input, i, snap, levels, level)
    ensures Kept(input, n, snap, levels, level) == [input[0]]
  {
    if n > 1 {
      KeepsFirst(input, n - 1, snap, levels, level);
    }
  }

  lemma PlanOne(l1: File, g: File, gs: seq<File>)
    requires Select(gs, Some(l1.Lo()), Some(l1.Hi())) == [g]
    ensures Plan(1, [l1], gs, [l1], [g])
  {
    assert IsRun([l1], [l1], 0, 1);
    assert l1 in [l1];
    assert IsSmallest([l1], l1.smallest) && IsLargest([l1], l1.largest);
  }

  lemma TwoTables(s: seq<Entry>, t: seq<Entry>)
    ensures Flatten([s, t]) == s + t && Flatten([s]) == s
  {
    assert [] + [s] == [s] && [s] + [t] == [s, t];
    FlattenSnoc([], s);
    FlattenSnoc([s], t);
  }

  lemma FirstKept(levels: Levels)
    ensures Kept([a4, a1, u3, u2], 4, 2, levels, 1) == [a4, a1, u3, u2]
  {
    var input := [a4, a1, u3, u2];
    forall i | 0 <= i < 4 ensures !Dropped(input, i, 2, levels, 1) {
      assert i == 0 || i == 1 || i == 2 || i == 3;
    }
    KeepsAll(input, 4, 2, levels, 1);
  }

  lemma TwoFiles(f: File, g: File)
    ensures Contents([f, g]) == [f.entries, g.entries] && Contents([f]) == [f.entries]
    ensures EntriesIn([f] + [g]) == ToSet(f.entries) + ToSet(g.entries)
    ensures Numbers([f]) == {f.number}
  {
    assert [f] + [g] == [f, g];
    forall e | e in ToSet(f.entries) + ToSet(g.entries) ensures e in EntriesIn([f] + [g]) {
      assert f in [f] + [g] && g in [f] + [g];
    }
    assert f in [f];
  }

  lemma Numbered(l1: seq<File>, l2: seq<File>, nextFile: nat, j: Job, input: seq<Entry>, outputs: seq<File>)
    requires Sorted(input) && ToSet(input) == EntriesIn(j.in0 + j.in1)
    requires Flatten(Contents(outputs)) == Kept(input, |input|, j.snap, j.base, j.level)
    requires forall f :: f in outputs ==> f.Valid() && f.number < nextFile
    requires forall i, k :: 0 <= i < k < |outputs| ==> outputs[i].number != outputs[k].number
    requires forall f, g :: f in outputs && g in l1 + l2 ==> f.number != g.number
    ensures CompactionOutputs(Levels12(l1, l2), nextFile, j, input, outputs)
  {
    forall f, l, g | f in outputs && 0 <= l < 7 && g in Levels12(l1, l2)[l] ensures f.number != g.number {
      InMiddle(l1, l2, l, g);
    }
  }

  lemma InMiddle(l1: seq<File>, l2: seq<File>, l: nat, g: File)
    requires l < 7 && g in Levels12(l1, l2)[l]
    ensures g in l1 + l2
  {
  }

  lemma FirstInput()
    ensures Sorted([a4, a1, u3, u2]) && ToSet([a4, a1, u3, u2]) == EntriesIn([F2] + [F1])
  {
    TwoFiles(F2, F1);
    assert ToSet([a4, a1, u3, u2]) == {a4, a1, u3, u2} == ToSet(F2.entries) + ToSet(F1.entries);
  }

  lemma FirstOutputs()
    ensures CompactionOutputs(d10.levels, 6, Job(1, [F2], [F1], d10.levels, 2), [a4, a1, u3, u2], [G1, G2])
  {
    hide Kept, Flatten, EntriesIn, ToSet, Contents, CompactionOutputs;
    FirstKept(d10.levels);
    FirstInput();
    TwoFiles(G1, G2);
    TwoTables(G1.entries, G2.entries);
    assert G1.entries + G2.entries == [a4, a1, u3, u2];
    Numbered([F2], [F1], 6, Job(1, [F2], [F1], d10.levels, 2), [a4, a1, u3, u2], [G1, G2]);
  }

  lemma ReplaceLevels(f: File, g: File, outs: seq<File>, h: seq<File>)
    requires SortedBySmallest(outs + h) && f.number != g.number
    requires forall o :: o in outs + h ==> o.number != g.number
    ensures Replaced(Levels12([f], [g] + h), Levels12([], outs + h), 1, [f], [g], outs)
  {
    TwoFiles(f, g);
    TwoFiles(g, f);
    assert Levels12([], outs + h) == Levels12([f], [g] + h)[1 := []][2 := outs + h];
  }

  lemma FirstCompaction()
    ensures Next(d10, d11, ManualCompaction(1, [F2], [F1], [a4, a1, u3, u2], [G1, G2]))
  {
    hide CompactionOutputs, Replaced, Plan, Kept, Saved;
    SelectOne(F1, Some(A), Some(A));
    PlanOne(F2, F1, [F1]);
    FirstOutputs();
    assert BySmallest(G1, G2);
    ReplaceLevels(F2, F1, [G1, G2], []);
    assert [F1] + [] == [F1] && [G1, G2] + [] == [G1, G2];
  }

  lemma SecondStart()
    ensures Next(d15, d16, StartCompaction(1, [F3], [G1]))
  {
    hide Plan, Connected, Select;
    SelectTwo(G1, G2, Some(A), Some(A));
    PlanOne(F3, G1, [G1, G2]);
    assert [G1] + [] == [G1];
    SecondConnected();
  }

  lemma SecondConnected()
    ensures Connected([F3] + [G1])
  {
    forall f, g, x | f in [F3] + [G1] && g in [F3] + [G1] && f.Lo() <= x <= g.Hi()
      ensures CoveredBy([F3] + [G1], x)
    {
      assert G1 in [F3] + [G1];
    }
  }

  lemma SecondKept(levels: Levels)
    requires |levels| == NUM_LEVELS && forall l :: 3 <= l < NUM_LEVELS ==> levels[l] == []
    ensures Kept([a5, a4, a1, u3], 4, 5, levels, 1) == [a5]
  {
    var input := [a5, a4, a1, u3];
    forall i | 1 <= i < 4 ensures Dropped(input, i, 5, levels, 1) {
      assert i == 1 || i == 2 || i == 3;
      if i < 3 {
        assert input[0].key.user == input[i].key.user && input[0].key.num <= 5;
        assert Hidden(input, i, 5);
      } else {
        assert Obsolete(u3, 5, levels, 1);
      }
    }
    KeepsFirst(input, 4, 5, levels, 1);
  }

  lemma SecondInput()
    ensures Sorted([a5, a4, a1, u3]) && ToSet([a5, a4, a1, u3]) == EntriesIn([F3] + [G1])
  {
    TwoFiles(F3, G1);
    assert ToSet([a5, a4, a1, u3]) == {a5, a4, a1, u3} == ToSet(F3.entries) + ToSet(G1.entries);
  }

  lemma SecondOutputs()
    ensures CompactionOutputs(d17.levels, 8, job, [a5, a4, a1, u3], [H])
  {
    hide Kept, Flatten, EntriesIn, ToSet, Contents, CompactionOutputs;
    SecondKept(job.base);
    SecondInput();
    TwoFiles(H, H);
    TwoTables(H.entries, []);
    Numbered([F3], [G1, G2], 8, job, [a5, a4, a1, u3], [H]);
  }

  lemma SecondFinish()
    ensures Next(d17, d18, FinishCompaction([a5, a4, a1, u3], [H]))
  {
    hide CompactionOutputs, Replaced, Kept, Saved;
    SecondOutputs();
    assert BySmallest(H, G2);
    ReplaceLevels(F3, G1, [H], [G2]);
    assert [G1] + [G2] == [G1, G2] && [H] + [G2] == [H, G2];
  }

  lemma SmallSteps()
    ensures Next(d1, d2, GetSnapshot) && Next(d11, d12, ReleaseSnapshot(0))
    ensures Next(d3, d4, SwitchMemtable) && Next(d6, d7, SwitchMemtable) && Next(d13, d14, SwitchMemtable)
    ensures Next(d8, d9, AllocateFile) && Next(d9, d10, AllocateFile) && Next(d16, d17, AllocateFile)
  {
    assert d11.snapshots[..0] + d11.snapshots[1..] == [];
  }

  lemma RunIsValid()
    ensures run.Valid()
  {
    hide Next;
    Writes();
    Flushes();
    FirstCompaction();
    SecondStart();
    SecondFinish();
    SmallSteps();
    assert |run.dbs| == 19 && |run.steps| == 18;
    forall i | 0 <= i < 18 ensures Next(run.dbs[i], run.dbs[i + 1], run.steps[i]) {
    }
  }

  /** The second compaction is about to uncover the deleted value. */
  lemma JobResurrects()
    ensures Resurrects(d17, job)
  {
    hide Content, EntriesIn, IsNewest, IsBase;
    assert G1 in [G1] && IsLargest([G1], u3.key);
    assert IsLeastBoundary([G1, G2], u3.key, G2);
    DeletionNewest();
    assert Obsolete(u3, 5, job.base, 1) by { NothingDeeper(); }
    assert Uncovers(d17, job, U, u3);
  }

  lemma DeletionNewest()
    ensures IsNewest(Content(d17), U, 5, u3) && u3 in EntriesIn([G1])
  {
    assert G1 in [G1] && u3 in G1.entries;
    assert G1 in d17.levels[2] && u3 in LevelEntries(d17.levels);
    assert ToSet([]) == {};
    forall x | x in Content(d17) && Visible(x, U, 5) ensures x.key.num <= 3 {
      var l, g: File :| 0 <= l < 7 && g in d17.levels[l] && x in g.entries;
      assert g == F3 || g == G1 || g == G2;
    }
  }

  lemma NothingDeeper()
    ensures IsBase(job.base, 1, U)
  {
  }

  lemma FirstUncoversNothing()
    ensures !Resurrects(d10, Job(1, [F2], [F1], d10.levels, 2))
  {
    hide Uncovers, IsLargest;
    assert Levels12([F2], [F1])[2] == [F1];
    forall key, g | IsLargest([F1], key) ensures !IsLeastBoundary([F1], key, g) {
      OnlyLargest(F1, key);
    }
  }

  lemma OnlyLargest(f: File, key: InternalKey)
    requires IsLargest([f], key)
    ensures key == f.largest
  {
  }

  lemma FirstFaithful()
    ensures run.FaithfulUpTo(17)
  {
    hide Resurrects;
    FirstUncoversNothing();
    assert Faithful(run.dbs[10], run.steps[10]);
    forall i | 0 <= i < 17 ensures Faithful(run.dbs[i], run.steps[i]) {
      assert i == 10 || !(run.steps[i].FinishCompaction? || run.steps[i].ManualCompaction?);
    }
  }

  /** The last state of the run: a lookup of `u` returns a value, although the last write to it was a deletion. */
  ghost predicate Returns(r: Run, u: UserKey, v: string) {
    && r.Valid()
    && var last := r.dbs[|r.steps|];
       && Read(Content(last), u, last.lastSequence) == Found(v)
       && Read(r.Written(|r.steps|), u, last.lastSequence) == NotFound
  }

  /** Deleted values can come back. */
  lemma DeletedValueReturns()
    ensures exists u, v :: Returns(run, u, v)
  {
    hide Installs;
    hide Inv;
    hide Next;
    RunIsValid();
    RunInv(run, 17);
    FirstFaithful();
    RunReads(run, 17);
    JobResurrects();
    SecondFinish();
    LastStepReady();
    ResurrectionSeen(d17, d18, job, [a5, a4, a1, u3], [H]);
    var u, v :| Read(Content(d17), u, 5) == NotFound && Read(Content(d18), u, 5) == Found(v);
    LastReads(u);
    assert Returns(run, u, v);
  }

  lemma LastReads(u: UserKey)
    requires ReadsWritten(d17, run.Written(17))
    ensures run.dbs[|run.steps|] == d18
    ensures Read(run.Written(18), u, 5) == Read(Content(d17), u, 5)
  {
    assert run.Written(18) == run.Written(17) + {} == run.Written(17);
    assert Horizon(d17) == 5;
  }

  lemma LastStepReady()
    requires Inv(d17, run.Written(17)) && Next(d17, d18, FinishCompaction([a5, a4, a1, u3], [H]))
    ensures Installs(d17, d18, job, [a5, a4, a1, u3], [H])
  {
    assert d17.(job := Some(job)) == d17;
  }
}
