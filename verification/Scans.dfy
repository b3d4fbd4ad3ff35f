/** The iterator of the store from end to end: the user-visible one on the merge of the store's own lists gives exactly
    what lookups find, in the order of the keys, forward and backward. */
module Scans {
  import opened Keys
  import opened Reads
  import opened Tables
  import opened Store
  import opened StoreInvariant
  import opened StoreReads
  import opened LiveEntries
  import opened Cursors
  import opened Merger
  import opened StoreIterator
  import opened DBIter

  datatype Row = Row(key: UserKey, value: string)

  ghost predicate Increasing(rows: seq<Row>) {
    forall i, j :: 0 <= i < j < |rows| ==> rows[i].key < rows[j].key
  }

  /** In the order of the keys, and what a reader at `s` finds, no more and no less. */
  ghost predicate IsScan(rows: seq<Row>, all: set<Entry>, s: nat) {
    && Increasing(rows)
    && (forall row :: row in rows ==> Read(all, row.key, s) == Found(row.value))
    && (forall u :: Read(all, u, s).Found? ==> Row(u, Read(all, u, s).value) in rows)
  }

  // ---------- rows and live entries ----------

  /** The live entries from index `a` up to `b`. */
  ghost function Rows(es: seq<Entry>, s: nat, a: nat, b: nat): seq<Row>
    requires b <= |es|
  {
    if b <= a then [] else Rows(es, s, a, b - 1) + if Live(es, s, b - 1) then [RowAt(es, b - 1)] else []
  }

  function RowAt(es: seq<Entry>, i: nat): Row
    requires i < |es|
  {
    Row(es[i].key.user, es[i].value)
  }

  lemma {:induction false} RowsSplit(es: seq<Entry>, s: nat, a: nat, b: nat, c: nat)
    requires a <= b <= c <= |es|
    ensures Rows(es, s, a, c) == Rows(es, s, a, b) + Rows(es, s, b, c)
  {
    hide Live;
    if b < c {
      RowsSplit(es, s, a, b, c - 1);
    }
  }

  lemma {:induction false} NoRows(es: seq<Entry>, s: nat, a: nat, b: nat)
    requires a <= b <= |es| && forall k :: a <= k < b ==> !Live(es, s, k)
    ensures Rows(es, s, a, b) == []
  {
    hide Live;
    if a < b {
      NoRows(es, s, a, b - 1);
    }
  }

  // From one live entry to the next.
  lemma RowsNext(es: seq<Entry>, s: nat, p: nat)
    requires p < |es| && Live(es, s, p)
    ensures p < NextLive(es, s, p + 1) <= |es|
    ensures Rows(es, s, 0, NextLive(es, s, p + 1)) == Rows(es, s, 0, p) + [RowAt(es, p)]
  {
    hide Live, NextLive;
    var n := NextLive(es, s, p + 1);
    NextLiveProps(es, s, p + 1);
    RowsSplit(es, s, 0, p + 1, n);
    NoRows(es, s, p + 1, n);
  }

  lemma RowsPrev(es: seq<Entry>, s: nat, p: nat)
    requires p < |es| && Live(es, s, p)
    ensures var n := PrevLive(es, s, p);
      Rows(es, s, if n < |es| then n + 1 else 0, |es|) == [RowAt(es, p)] + Rows(es, s, p + 1, |es|)
  {
    hide Live, PrevLive;
    PrevLiveProps(es, s, p);
    var n := PrevLive(es, s, p);
    var a := if n < |es| then n + 1 else 0;
    RowsSplit(es, s, a, p, |es|);
    RowsSplit(es, s, p, p + 1, |es|);
    NoRows(es, s, a, p);
    assert Rows(es, s, p, p) == [];
    assert Rows(es, s, p, p + 1) == [RowAt(es, p)];
  }

  /** Each row is a live entry, each live entry a row, and keys go up. */
  lemma {:induction false} RowsAre(es: seq<Entry>, s: nat, b: nat)
    requires Sorted(es) && b <= |es|
    ensures forall row :: row in Rows(es, s, 0, b) ==> exists i :: 0 <= i < b && Live(es, s, i) && row == RowAt(es, i)
    ensures forall i :: 0 <= i < b && Live(es, s, i) ==> RowAt(es, i) in Rows(es, s, 0, b)
    ensures Increasing(Rows(es, s, 0, b))
  {
    hide Live, Sorted;
    if b > 0 {
      RowsAre(es, s, b - 1);
      var rows, more := Rows(es, s, 0, b - 1), Rows(es, s, 0, b);
      assert more == rows + if Live(es, s, b - 1) then [RowAt(es, b - 1)] else [];
      forall row | row in more ensures exists i :: 0 <= i < b && Live(es, s, i) && row == RowAt(es, i) {
        if row !in rows {
          assert row == RowAt(es, b - 1);
        }
      }
      forall i, j | 0 <= i < j < |more| ensures more[i].key < more[j].key {
        if j == |rows| {
          assert more[i] in rows && more[j] == RowAt(es, b - 1);
          var k :| 0 <= k < b - 1 && Live(es, s, k) && more[i] == RowAt(es, k);
          LiveOnce(es, s, k, b - 1);
        } else {
          assert more[i] == rows[i] && more[j] == rows[j];
        }
      }
    }
  }

  lemma AllRows(es: seq<Entry>, s: nat)
    requires Sorted(es) && Distinct(ToSet(es))
    ensures IsScan(Rows(es, s, 0, |es|), ToSet(es), s)
  {
    hide Live, Sorted, Rows, Read, Distinct, ToSet;
    RowsAre(es, s, |es|);
    forall row | row in Rows(es, s, 0, |es|) ensures Read(ToSet(es), row.key, s) == Found(row.value) {
      var i :| 0 <= i < |es| && Live(es, s, i) && row == RowAt(es, i);
      LiveIsRead(es, s, i);
    }
    forall u | Read(ToSet(es), u, s).Found?
      ensures Row(u, Read(ToSet(es), u, s).value) in Rows(es, s, 0, |es|)
    {
      var i := ReadIsLive(es, s, u);
      LiveIsRead(es, s, i);
      assert RowAt(es, i) in Rows(es, s, 0, |es|);
    }
  }

  // ---------- the iterator of the store ----------

  /** One cursor for each memtable, each table of level 0 and each level below, and the merge of all of them. */
  method NewInternalIterator(db: DB, ghost written: set<Entry>) returns (m: MergingIterator)
    requires Inv(db, written)
    ensures fresh(m) && fresh(m.children) && m.Ok()
    ensures ToSet(m.merged) == Content(db)
  {
    hide IsUnion, Content, Sorted, ChildLists, Inv;
    assert |db.levels| > 0 by { HasLevels(db, written); }
    ghost var merged := MergedStore(db, written);
    var lists := ChildLists(db);
    var children: seq<Cursor> := [];
    for i := 0 to |lists|
      invariant |children| == i && fresh(children)
      invariant forall k :: 0 <= k < i ==> children[k].Ok() && children[k].es == lists[k]
      invariant forall j, k :: 0 <= j < k < i ==> children[j] != children[k]
    {
      ListSorted(lists, merged, i);
      var c := new Cursor(lists[i]);
      children := children + [c];
    }
    assert seq(|children|, i requires 0 <= i < |children| => children[i].es) == lists;
    m := new MergingIterator(children, merged);
  }

  lemma HasLevels(db: DB, written: set<Entry>)
    requires Inv(db, written)
    ensures |db.levels| > 0
  {
  }

  lemma ListSorted(lists: seq<seq<Entry>>, merged: seq<Entry>, i: nat)
    requires IsUnion(lists, merged) && i < |lists|
    ensures Sorted(lists[i])
  {
  }

  lemma ContentRows(db: DB, written: set<Entry>, es: seq<Entry>, s: nat)
    requires Inv(db, written) && Sorted(es) && ToSet(es) == Content(db)
    ensures IsScan(Rows(es, s, 0, |es|), Content(db), s)
  {
    hide Rows, IsScan, Sorted, ToSet, Distinct;
    ContentIsDistinct(db, written);
    AllRows(es, s);
  }

  /** From the first key to the last. */
  method Scan(db: DB, ghost written: set<Entry>, s: nat) returns (rows: seq<Row>)
    requires Inv(db, written)
    ensures IsScan(rows, Content(db), s)
  {
    hide Inv, Content, IsScan, Rows, Live, NextLive, MergingIterator.Ok, Sorted;
    var m := NewInternalIterator(db, written);
    var it := new Iter(m, s);
    ghost var es := m.merged;
    it.SeekToFirst();
    rows := [];
    FirstRows(es, s);
    while it.valid
      invariant it.Ok() && it.iter == m && it.sequence == s && rows == Rows(es, s, 0, it.at)
      invariant it.at <= |es|
      decreases |es| - it.at
    {
      RowsNext(es, s, it.at);
      rows := rows + [Row(it.Key(), it.Value())];
      it.Next();
    }
    ContentRows(db, written, es, s);
  }

  lemma FirstRows(es: seq<Entry>, s: nat)
    ensures NextLive(es, s, 0) <= |es| && Rows(es, s, 0, NextLive(es, s, 0)) == []
  {
    NextLiveProps(es, s, 0);
    NoRows(es, s, 0, NextLive(es, s, 0));
  }

  /** From the last key to the first. */
  method ScanBack(db: DB, ghost written: set<Entry>, s: nat) returns (rows: seq<Row>)
    requires Inv(db, written)
    ensures IsScan(rows, Content(db), s)
  {
    hide Inv, Content, IsScan, Rows, Live, PrevLive, MergingIterator.Ok, Sorted;
    var m := NewInternalIterator(db, written);
    var it := new Iter(m, s);
    ghost var es := m.merged;
    it.SeekToLast();
    rows := [];
    LastRows(es, s);
    while it.valid
      invariant it.Ok() && it.iter == m && it.sequence == s
      invariant rows == Rows(es, s, if it.valid then it.at + 1 else 0, |es|)
      decreases if it.valid then it.at + 1 else 0
    {
      RowsPrev(es, s, it.at);
      ghost var p := it.at;
      rows := [Row(it.Key(), it.Value())] + rows;
      it.Prev();
      PrevLiveProps(es, s, p);
    }
    ContentRows(db, written, es, s);
  }

  lemma LastRows(es: seq<Entry>, s: nat)
    ensures var n := PrevLive(es, s, |es|); Rows(es, s, if n < |es| then n + 1 else 0, |es|) == []
  {
    PrevLiveProps(es, s, |es|);
    var n := PrevLive(es, s, |es|);
    NoRows(es, s, if n < |es| then n + 1 else 0, |es|);
  }

  /** In every run without the exception, a scan at a live snapshot gives the latest writes at or below it, of all that
      were ever made. */
  lemma ScanInRun(run: Run, n: nat, rows: seq<Row>, s: nat)
    requires run.Valid() && n <= |run.steps| && run.FaithfulUpTo(n) && s >= Horizon(run.dbs[n])
    requires IsScan(rows, Content(run.dbs[n]), s)
    ensures IsScan(rows, run.Written(n), s)
  {
    hide Content, Read;
    RunReads(run, n);
  }
}
