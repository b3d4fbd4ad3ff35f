/** The merge loop of a compaction: which entries it drops, and how it cuts the rest into tables. */
module Compaction {
  import opened Options
  import opened Keys
  import opened Tables

  /** No file two or more levels down spans the user key. */
  ghost predicate IsBase(levels: Levels, level: nat, u: UserKey) {
    forall l, f :: level + 2 <= l < |levels| && f in levels[l] ==> !(f.Lo() <= u <= f.Hi())
  }

  /** An earlier entry of the same user key is already visible to every snapshot. */
  ghost predicate Hidden(input: seq<Entry>, i: nat, snap: nat)
    requires i < |input|
  {
    exists j :: 0 <= j < i && input[j].key.user == input[i].key.user && input[j].key.num <= snap
  }

  ghost predicate Obsolete(e: Entry, snap: nat, levels: Levels, level: nat) {
    e.key.kind.TypeDeletion? && e.key.num <= snap && IsBase(levels, level, e.key.user)
  }

  ghost predicate Dropped(input: seq<Entry>, i: nat, snap: nat, levels: Levels, level: nat)
    requires i < |input|
  {
    Hidden(input, i, snap) || Obsolete(input[i], snap, levels, level)
  }

  /** What is left of the first `n` entries. */
  ghost function Kept(input: seq<Entry>, n: nat, snap: nat, levels: Levels, level: nat): seq<Entry>
    requires n <= |input|
  {
    if n == 0 then []
    else
      Kept(input, n - 1, snap, levels, level)
      + (if Dropped(input, n - 1, snap, levels, level) then [] else [input[n - 1]])
  }

  function Flatten(tables: seq<seq<Entry>>): seq<Entry> {
    if tables == [] then [] else Flatten(tables[..|tables| - 1]) + tables[|tables| - 1]
  }

  lemma FlattenSnoc(tables: seq<seq<Entry>>, t: seq<Entry>)
    ensures Flatten(tables + [t]) == Flatten(tables) + t
  {
    assert (tables + [t])[..|tables|] == tables;
  }

  ghost predicate NoneEmpty(tables: seq<seq<Entry>>) {
    forall o :: o in tables ==> o != []
  }

  /** A compaction of `level` into the next, against the version it was picked from. */
  class CompactionJob {
    const level: nat
    const levels: Levels
    // Per level, the files below this index end before the user keys still to come.
    const levelPtrs: array<nat>

    ghost predicate Valid()
    {
      |levels| == NUM_LEVELS && levelPtrs.Length == NUM_LEVELS
      && forall l :: 1 <= l < NUM_LEVELS ==> LevelSorted(levels[l])
    }

    ghost predicate Passed(u: UserKey)
      requires Valid()
      reads levelPtrs
    {
      forall l :: 0 <= l < NUM_LEVELS ==>
        levelPtrs[l] <= |levels[l]| && forall i :: 0 <= i < levelPtrs[l] ==> levels[l][i].Hi() < u
    }

    /** Where the cursors may stand once `last` has been looked up; at the start all of them are 0. */
    ghost predicate CursorAt(last: Option<UserKey>)
      requires Valid()
      reads levelPtrs
    {
      if last.Some? then Passed(last.value) else forall l :: 0 <= l < NUM_LEVELS ==> levelPtrs[l] == 0
    }

    constructor (level: nat, levels: Levels)
      requires |levels| == NUM_LEVELS
      requires forall l :: 1 <= l < NUM_LEVELS ==> LevelSorted(levels[l])
      ensures Valid() && fresh(levelPtrs) && this.level == level && this.levels == levels
      ensures CursorAt(None)
    {
      this.level, this.levels := level, levels;
      levelPtrs := new nat[NUM_LEVELS](_ => 0);
    }

    /** Advances the cursors past files that end before `u`; user keys must come in increasing order. */
    method IsBaseLevelForKey(u: UserKey) returns (base: bool)
      requires Valid() && Passed(u)
      modifies levelPtrs
      ensures Passed(u)
      ensures base <==> IsBase(levels, level, u)
    {
      var lvl := level + 2;
      while lvl < NUM_LEVELS
        invariant Passed(u) && lvl >= level + 2
        invariant forall l, f :: level + 2 <= l < lvl && l < NUM_LEVELS && f in levels[l] ==> !(f.Lo() <= u <= f.Hi())
      {
        var files := levels[lvl];
        while levelPtrs[lvl] < |files| && u > files[levelPtrs[lvl]].Hi()
          invariant Passed(u)
          decreases |files| - levelPtrs[lvl]
        {
          levelPtrs[lvl] := levelPtrs[lvl] + 1;
        }
        var p := levelPtrs[lvl];
        if p < |files| {
          if u >= files[p].Lo() {
            assert files[p] in levels[lvl];
            return false;
          }
          FilesAfter(files, p, u);
        }
        lvl := lvl + 1;
      }
      base := true;
    }

    static lemma FilesAfter(fs: seq<File>, p: nat, u: UserKey)
      requires LevelSorted(fs) && p < |fs| && u < fs[p].Lo()
      ensures forall i :: p <= i < |fs| ==> u < fs[i].Lo()
    {
      forall i | p < i < |fs| ensures u < fs[i].Lo() {
        assert Before(fs[p], fs[i]);
      }
    }

    /** The two drop rules, given the sequence number of the entry before it with the same user key. */
    method ShouldDrop(ghost last: Option<UserKey>, e: Entry, lastSequenceForKey: nat, snap: nat) returns (drop: bool)
      requires Valid() && CursorAt(last) && (last.Some? ==> last.value <= e.key.user)
      modifies levelPtrs
      ensures CursorAt(Some(e.key.user))
      ensures drop <==> lastSequenceForKey <= snap || Obsolete(e, snap, levels, level)
    {
      drop := false;
      if lastSequenceForKey <= snap {
        drop := true;
      } else if e.key.kind.TypeDeletion? && e.key.num <= snap {
        drop := IsBaseLevelForKey(e.key.user);
      }
    }

    /** Closes the table under construction, if there is one and it is time to. */
    static method FinishOutput(outputs: seq<seq<Entry>>, builder: seq<Entry>, stop: bool)
      returns (o: seq<seq<Entry>>, b: seq<Entry>)
      requires NoneEmpty(outputs)
      ensures NoneEmpty(o) && Flatten(o) + b == Flatten(outputs) + builder
      ensures stop ==> b == []
    {
      o, b := outputs, builder;
      if stop && builder != [] {
        FlattenSnoc(outputs, builder);
        o, b := outputs + [builder], [];
      }
    }

    /** The merge loop. `stopBefore` and `full` stand for the two size tests that end a table; whatever they answer,
        the tables hold exactly the entries that are kept, in order. */
    method DoCompactionWork(input: seq<Entry>, snap: nat, stopBefore: seq<bool>, full: seq<bool>)
      returns (outputs: seq<seq<Entry>>)
      requires Valid() && Sorted(input) && snap < MAX_SEQUENCE
      requires |stopBefore| == |full| == |input|
      requires CursorAt(None)
      modifies levelPtrs
      ensures Flatten(outputs) == Kept(input, |input|, snap, levels, level)
      ensures NoneEmpty(outputs)
    {
      hide Kept, Flatten, NoneEmpty, CursorAt, Hidden, Obsolete, Sorted, LevelSorted;
      NothingKept(input, snap, levels, level);
      outputs := [];
      var builder := [];  // empty when no table is open
      var currentUserKey: Option<UserKey> := None;
      var lastSequenceForKey := MAX_SEQUENCE;
      var i := 0;
      while i < |input|
        invariant 0 <= i <= |input|
        invariant Flatten(outputs) + builder == Kept(input, i, snap, levels, level) && NoneEmpty(outputs)
        invariant i > 0 ==> currentUserKey == Some(input[i - 1].key.user) && lastSequenceForKey == input[i - 1].key.num
        invariant i == 0 ==> currentUserKey == None
        invariant CursorAt(currentUserKey)
      {
        var e := input[i];
        outputs, builder := FinishOutput(outputs, builder, stopBefore[i]);
        HiddenByLast(input, i, snap);
        ghost var last := currentUserKey;
        if currentUserKey != Some(e.key.user) {
          currentUserKey := Some(e.key.user);
          lastSequenceForKey := MAX_SEQUENCE;
        }
        var drop := ShouldDrop(last, e, lastSequenceForKey, snap);
        lastSequenceForKey := e.key.num;
        KeptNext(input, i, snap, levels, level, drop);
        if !drop {
          assert Flatten(outputs) + builder + [e] == Flatten(outputs) + (builder + [e]);
          outputs, builder := FinishOutput(outputs, builder + [e], full[i]);
        }
        i := i + 1;
      }
      outputs, builder := FinishOutput(outputs, builder, true);
      assert Flatten(outputs) + [] == Flatten(outputs);
    }
  }

  lemma NothingKept(input: seq<Entry>, snap: nat, levels: Levels, level: nat)
    ensures Kept(input, 0, snap, levels, level) == Flatten([]) + [] && NoneEmpty([])
  {
  }

  lemma KeptNext(input: seq<Entry>, i: nat, snap: nat, levels: Levels, level: nat, drop: bool)
    requires i < |input| && (drop <==> Dropped(input, i, snap, levels, level))
    ensures Kept(input, i + 1, snap, levels, level)
         == Kept(input, i, snap, levels, level) + if drop then [] else [input[i]]
  {
  }

  /** In sorted input, the entry just before tells whether an entry is hidden. */
  lemma HiddenByLast(input: seq<Entry>, i: nat, snap: nat)
    requires Sorted(input) && i < |input|
    ensures Hidden(input, i, snap)
            <==> i > 0 && input[i - 1].key.user == input[i].key.user && input[i - 1].key.num <= snap
    ensures i > 0 ==> input[i - 1].key.user <= input[i].key.user
  {
    if Hidden(input, i, snap) {
      var j :| 0 <= j < i && input[j].key.user == input[i].key.user && input[j].key.num <= snap;
      if j < i - 1 {
        assert Less(input[j].key, input[i - 1].key) && Less(input[i - 1].key, input[i].key);
      }
    }
  }

  // ---------- what is kept, and where it goes ----------

  lemma {:induction false} KeptMember(input: seq<Entry>, n: nat, snap: nat, levels: Levels, level: nat, e: Entry)
    requires n <= |input|
    ensures e in Kept(input, n, snap, levels, level)
            <==> exists i :: 0 <= i < n && input[i] == e && !Dropped(input, i, snap, levels, level)
  {
    if n > 0 {
      KeptMember(input, n - 1, snap, levels, level, e);
    }
  }

  lemma {:induction false} KeptSorted(input: seq<Entry>, n: nat, snap: nat, levels: Levels, level: nat)
    requires n <= |input| && Sorted(input)
    ensures Sorted(Kept(input, n, snap, levels, level))
    ensures forall e :: e in Kept(input, n, snap, levels, level) ==> exists i :: 0 <= i < n && input[i] == e
  {
    if n > 0 {
      KeptSorted(input, n - 1, snap, levels, level);
      var before := Kept(input, n - 1, snap, levels, level);
      forall k | 0 <= k < |before| ensures Less(before[k].key, input[n - 1].key) {
        assert before[k] in before;
      }
    }
  }

  lemma SortedParts(a: seq<Entry>, b: seq<Entry>)
    requires Sorted(a + b)
    ensures Sorted(a)
    ensures forall e, x :: e in a && x in b ==> Less(e.key, x.key)
  {
    assert forall i :: 0 <= i < |a| ==> (a + b)[i] == a[i];
    forall e, x | e in a && x in b ensures Less(e.key, x.key) {
      var i :| 0 <= i < |a| && a[i] == e;
      var j :| 0 <= j < |b| && b[j] == x;
      assert (a + b)[|a| + j] == x;
    }
  }

  /** Tables cut from one sorted sequence: each holds part of it, and earlier ones hold smaller keys. */
  lemma {:induction false} FlattenPieces(tables: seq<seq<Entry>>)
    requires Sorted(Flatten(tables))
    ensures forall i, e :: 0 <= i < |tables| && e in tables[i] ==> e in Flatten(tables)
    ensures forall i, j, e, x :: 0 <= i < j < |tables| && e in tables[i] && x in tables[j] ==> Less(e.key, x.key)
  {
    if tables != [] {
      var n := |tables| - 1;
      SortedParts(Flatten(tables[..n]), tables[n]);
      FlattenPieces(tables[..n]);
      forall i, e | 0 <= i < n && e in tables[i] ensures e in Flatten(tables[..n]) {
        assert tables[..n][i] == tables[i];
      }
      forall i, j, e, x | 0 <= i < j < |tables| && e in tables[i] && x in tables[j] ensures Less(e.key, x.key) {
        assert tables[..n][i] == tables[i];
        assert j < n ==> tables[..n][j] == tables[j];
      }
    }
  }

  /** Nothing is lost in the cutting. */
  lemma {:induction false} FlattenMember(tables: seq<seq<Entry>>, e: Entry)
    requires e in Flatten(tables)
    ensures exists t :: t in tables && e in t
  {
    var n := |tables| - 1;
    if e in tables[n] {
      assert tables[n] in tables;
    } else {
      FlattenMember(tables[..n], e);
    }
  }
}
