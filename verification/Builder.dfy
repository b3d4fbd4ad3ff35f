/** Applying an edit to one level of a version: deleted files leave, added files are merged in by smallest key. */
module Builder {
  import opened Keys
  import opened Tables
  import Seqs

  predicate BySmallest(f: File, g: File) {
    Less(f.smallest, g.smallest) || (f.smallest == g.smallest && f.number < g.number)
  }

  ghost predicate SortedBySmallest(fs: seq<File>) {
    forall i, j {:trigger BySmallest(fs[i], fs[j])} :: 0 <= i < j < |fs| ==> BySmallest(fs[i], fs[j])
  }

  /** The outcome of an edit: exactly the surviving files, in the one order that sorts them. */
  ghost predicate Saved(base: seq<File>, deleted: set<nat>, added: seq<File>, r: seq<File>) {
    && SortedBySmallest(r)
    && forall f :: f in r <==> (f in base || f in added) && f.number !in deleted
  }

  // No two different files compare equal.
  ghost predicate Distinguished(base: seq<File>, added: seq<File>) {
    forall f, g :: f in base && g in added ==> f.number != g.number
  }

  // The first `i` of base and the first `j` of added have been merged into `r`.
  ghost predicate Merged(base: seq<File>, deleted: set<nat>, added: seq<File>, i: nat, j: nat, r: seq<File>)
    requires i <= |base| && j <= |added|
  {
    && SortedBySmallest(r)
    && (forall f :: f in r <==> (f in base[..i] || f in added[..j]) && f.number !in deleted)
    && (forall f, k :: f in r && i <= k < |base| ==> BySmallest(f, base[k]))
    && (forall f, k :: f in r && j <= k < |added| ==> BySmallest(f, added[k]))
  }

  /** MaybeAddFile: appends the file unless it was deleted. */
  method MaybeAddFile(deleted: set<nat>, f: File, r: seq<File>) returns (r2: seq<File>)
    ensures r2 == if f.number in deleted then r else r + [f]
  {
    if f.number in deleted {
      r2 := r;
    } else {
      r2 := r + [f];
    }
  }

  lemma TakeBase(base: seq<File>, deleted: set<nat>, added: seq<File>, i: nat, j: nat, r: seq<File>, r2: seq<File>)
    requires SortedBySmallest(base) && i < |base| && j <= |added|
    requires Merged(base, deleted, added, i, j, r)
    requires r2 == if base[i].number in deleted then r else r + [base[i]]
    requires SortedBySmallest(added) && (j < |added| ==> BySmallest(base[i], added[j]))
    ensures Merged(base, deleted, added, i + 1, j, r2)
  {
    assert base[..i + 1] == base[..i] + [base[i]];
    forall k | i < k < |base| ensures BySmallest(base[i], base[k]) {
    }
    forall k | j < k < |added| ensures BySmallest(base[i], added[k]) {
      assert BySmallest(added[j], added[k]);
    }
    forall f | f in r ensures BySmallest(f, base[i]) {
    }
  }

  lemma TakeAdded(base: seq<File>, deleted: set<nat>, added: seq<File>, i: nat, j: nat, r: seq<File>, r2: seq<File>)
    requires SortedBySmallest(added) && i <= |base| && j < |added|
    requires Merged(base, deleted, added, i, j, r)
    requires r2 == if added[j].number in deleted then r else r + [added[j]]
    requires SortedBySmallest(base) && (i < |base| ==> BySmallest(added[j], base[i]))
    ensures Merged(base, deleted, added, i, j + 1, r2)
  {
    assert added[..j + 1] == added[..j] + [added[j]];
    forall k | j < k < |added| ensures BySmallest(added[j], added[k]) {
    }
    forall k | i < k < |base| ensures BySmallest(added[j], base[k]) {
      assert BySmallest(base[i], base[k]);
    }
    forall f | f in r ensures BySmallest(f, added[j]) {
    }
  }

  method SaveTo(base: seq<File>, deleted: set<nat>, added: seq<File>) returns (r: seq<File>)
    requires SortedBySmallest(base) && SortedBySmallest(added) && Distinguished(base, added)
    ensures Saved(base, deleted, added, r)
  {
    r := [];
    var i := 0;
    for j := 0 to |added|
      invariant 0 <= i <= |base|
      invariant Merged(base, deleted, added, i, j, r)
    {
      var f := added[j];
      // Everything in base up to the upper bound of f comes first.
      while i < |base| && !BySmallest(f, base[i])
        invariant 0 <= i <= |base|
        invariant Merged(base, deleted, added, i, j, r)
      {
        assert base[i] in base && f in added;
        LessTotal(f.smallest, base[i].smallest);
        var r2 := MaybeAddFile(deleted, base[i], r);
        TakeBase(base, deleted, added, i, j, r, r2);
        r := r2;
        i := i + 1;
      }
      var r2 := MaybeAddFile(deleted, f, r);
      TakeAdded(base, deleted, added, i, j, r, r2);
      r := r2;
    }
    while i < |base|
      invariant 0 <= i <= |base|
      invariant Merged(base, deleted, added, i, |added|, r)
    {
      var r2 := MaybeAddFile(deleted, base[i], r);
      TakeBase(base, deleted, added, i, |added|, r, r2);
      r := r2;
      i := i + 1;
    }
    assert base[..|base|] == base && added[..|added|] == added;
  }

  /** Files that are pairwise disjoint form a sorted level once they are in order of their smallest keys. */
  lemma DisjointSorted(fs: seq<File>)
    requires SortedBySmallest(fs)
    requires forall f, g :: f in fs && g in fs && f != g ==> Before(f, g) || Before(g, f)
    ensures LevelSorted(fs)
  {
    forall i, j {:trigger Before(fs[i], fs[j])} | 0 <= i < j < |fs| ensures Before(fs[i], fs[j]) {
      var f, g := fs[i], fs[j];
      assert BySmallest(f, g);
      assert f in fs && g in fs;
      if Before(g, f) {
        LessTotal(f.smallest, g.smallest);
      }
    }
  }

  /** An edit has one outcome. */
  lemma {:induction false} SavedUnique(fs: seq<File>, gs: seq<File>)
    requires SortedBySmallest(fs) && SortedBySmallest(gs)
    requires forall f :: f in fs <==> f in gs
    ensures fs == gs
  {
    Seqs.HasElement(gs);
    if fs != [] {
      assert fs[0] in fs;
      assert gs != [] by { assert fs[0] in gs; }
      assert gs[0] in fs;
      FirstLeast(fs, gs[0]);
      FirstLeast(gs, fs[0]);
      assert fs == [fs[0]] + fs[1..] && gs == [gs[0]] + gs[1..];
      forall f | f in fs[1..] ensures f in gs[1..] {
        TailMember(fs, f);
        assert f in gs;
      }
      forall f | f in gs[1..] ensures f in fs[1..] {
        TailMember(gs, f);
        assert f in fs;
      }
      TailSorted(fs);
      TailSorted(gs);
      SavedUnique(fs[1..], gs[1..]);
    }
  }

  lemma FirstLeast(fs: seq<File>, f: File)
    requires SortedBySmallest(fs) && f in fs
    ensures f == fs[0] || BySmallest(fs[0], f)
  {
    var i :| 0 <= i < |fs| && fs[i] == f;
    assert i > 0 ==> BySmallest(fs[0], fs[i]);
  }

  lemma TailSorted(fs: seq<File>)
    requires fs != [] && SortedBySmallest(fs)
    ensures SortedBySmallest(fs[1..])
  {
    forall i, j {:trigger BySmallest(fs[1..][i], fs[1..][j])} | 0 <= i < j < |fs| - 1
      ensures BySmallest(fs[1..][i], fs[1..][j])
    {
      assert BySmallest(fs[i + 1], fs[j + 1]);
    }
  }

  lemma TailMember(fs: seq<File>, f: File)
    requires fs != [] && SortedBySmallest(fs) && f in fs[1..]
    ensures f in fs && f != fs[0]
  {
    var k :| 0 <= k < |fs| - 1 && fs[1..][k] == f;
    assert fs[k + 1] == f && BySmallest(fs[0], fs[k + 1]);
  }
}
