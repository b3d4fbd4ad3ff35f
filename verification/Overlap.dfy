/** Which files of a level meet a range of user keys. */
module Overlap {
  import opened Options
  import opened Keys
  import opened Tables

  // An absent bound is unbounded.
  predicate AfterFile(user: Option<UserKey>, f: File) {
    user.Some? && user.value > f.Hi()
  }

  predicate BeforeFile(user: Option<UserKey>, f: File) {
    user.Some? && user.value < f.Lo()
  }

  predicate Overlaps(f: File, lo: Option<UserKey>, hi: Option<UserKey>) {
    !AfterFile(lo, f) && !BeforeFile(hi, f)
  }

  ghost predicate SomeOverlap(fs: seq<File>, lo: Option<UserKey>, hi: Option<UserKey>) {
    exists f :: f in fs && Overlaps(f, lo, hi)
  }

  /** The overlapping files, in order. */
  function Select(fs: seq<File>, lo: Option<UserKey>, hi: Option<UserKey>): seq<File> {
    if fs == [] then []
    else
      var n := |fs| - 1;
      Select(fs[..n], lo, hi) + (if Overlaps(fs[n], lo, hi) then [fs[n]] else [])
  }

  lemma {:induction false} SelectMember(fs: seq<File>, lo: Option<UserKey>, hi: Option<UserKey>)
    ensures forall f :: f in Select(fs, lo, hi) <==> f in fs && Overlaps(f, lo, hi)
  {
    if fs != [] {
      var n := |fs| - 1;
      SelectMember(fs[..n], lo, hi);
      assert fs == fs[..n] + [fs[n]];
    }
  }

  function TotalFileSize(fs: seq<File>): nat {
    if fs == [] then 0 else fs[0].size + TotalFileSize(fs[1..])
  }

  /** The index of the first file whose largest key is at or after `key`. */
  method FindFile(fs: seq<File>, key: InternalKey) returns (index: nat)
    requires LevelSorted(fs)
    ensures index <= |fs|
    ensures forall i :: 0 <= i < index ==> Less(fs[i].largest, key)
    ensures forall i :: index <= i < |fs| ==> !Less(fs[i].largest, key)
  {
    var left, right := 0, |fs|;
    while left < right
      invariant 0 <= left <= right <= |fs|
      invariant forall i :: 0 <= i < left ==> Less(fs[i].largest, key)
      invariant forall i :: right <= i < |fs| ==> !Less(fs[i].largest, key)
    {
      var mid := (left + right) / 2;
      var f := fs[mid];
      if Less(f.largest, key) {
        forall i | 0 <= i < mid ensures Less(fs[i].largest, key) {
          LargestOrdered(fs, i, mid);
        }
        left := mid + 1;
      } else {
        forall i | mid < i < |fs| ensures !Less(fs[i].largest, key) {
          LargestOrdered(fs, mid, i);
        }
        right := mid;
      }
    }
    index := right;
  }

  lemma LargestOrdered(fs: seq<File>, i: nat, j: nat)
    requires LevelSorted(fs) && i < j < |fs|
    ensures Before(fs[i], fs[j])
    ensures Less(fs[i].largest, fs[j].largest) && Less(fs[i].smallest, fs[j].smallest)
    ensures fs[i].Lo() <= fs[i].Hi() <= fs[j].Lo() <= fs[j].Hi()
  {
    assert Before(fs[i], fs[j]);
  }

  /** Whether some file meets [lo, hi]: a scan, or one binary search when the files are sorted and disjoint. */
  method SomeFileOverlapsRange(disjointSorted: bool, fs: seq<File>, lo: Option<UserKey>, hi: Option<UserKey>)
    returns (b: bool)
    requires disjointSorted ==> LevelSorted(fs)
    requires forall f :: f in fs ==> f.largest.num <= MAX_SEQUENCE
    ensures b <==> SomeOverlap(fs, lo, hi)
  {
    if !disjointSorted {
      for i := 0 to |fs|
        invariant !SomeOverlap(fs[..i], lo, hi)
      {
        var f := fs[i];
        if AfterFile(lo, f) || BeforeFile(hi, f) {
        } else {
          assert f in fs && Overlaps(f, lo, hi);
          return true;
        }
        assert fs[..i + 1] == fs[..i] + [f];
      }
      assert fs[..|fs|] == fs;
      return false;
    }
    var index := 0;
    if lo.Some? {
      index := FindFile(fs, InternalKey(lo.value, MAX_SEQUENCE, TypeValue));
    }
    forall i | 0 <= i < index ensures !Overlaps(fs[i], lo, hi) {
    }
    if index >= |fs| {
      return false;
    }
    if BeforeFile(hi, fs[index]) {
      forall i | index < i < |fs| ensures BeforeFile(hi, fs[i]) {
        LargestOrdered(fs, index, i);
      }
      return false;
    }
    assert fs[index] in fs && Overlaps(fs[index], lo, hi);
    return true;
  }

  /** A range is closed for a level when every file that meets it lies inside it. */
  ghost predicate Closed(fs: seq<File>, lo: Option<UserKey>, hi: Option<UserKey>) {
    forall f :: f in fs && Overlaps(f, lo, hi) ==> !SticksOutLow(lo, f) && !SticksOutHigh(hi, f)
  }

  // The file sticks out below `lo`, or above `hi`.
  predicate SticksOutLow(lo: Option<UserKey>, f: File) {
    lo.Some? && f.Lo() < lo.value
  }

  predicate SticksOutHigh(hi: Option<UserKey>, f: File) {
    hi.Some? && f.Hi() > hi.value
  }

  /** [lo, hi] lies in [lo2, hi2], and is unbounded on the same sides. */
  ghost predicate Within(lo: Option<UserKey>, hi: Option<UserKey>, lo2: Option<UserKey>, hi2: Option<UserKey>) {
    && (lo.Some? <==> lo2.Some?) && (hi.Some? <==> hi2.Some?)
    && (lo.Some? ==> lo2.value <= lo.value)
    && (hi.Some? ==> hi.value <= hi2.value)
  }

  /** No closed range around [begin, end] is smaller than [lo, hi] on either side. */
  ghost predicate Forced(fs: seq<File>, begin: Option<UserKey>, end: Option<UserKey>,
                         lo: Option<UserKey>, hi: Option<UserKey>) {
    forall lo2, hi2 :: Closed(fs, lo2, hi2) && Within(begin, end, lo2, hi2) ==> Within(lo, hi, lo2, hi2)
  }

  ghost predicate LeastClosed(fs: seq<File>, begin: Option<UserKey>, end: Option<UserKey>,
                              lo: Option<UserKey>, hi: Option<UserKey>) {
    Closed(fs, lo, hi) && Within(begin, end, lo, hi) && Forced(fs, begin, end, lo, hi)
  }

  ghost predicate Covered(fs: seq<File>, lo: Option<UserKey>, hi: Option<UserKey>, x: UserKey) {
    exists f :: f in fs && Overlaps(f, lo, hi) && f.Lo() <= x <= f.Hi()
  }

  ghost predicate InRange(lo: Option<UserKey>, hi: Option<UserKey>, x: UserKey) {
    (lo.Some? ==> lo.value <= x) && (hi.Some? ==> x <= hi.value)
  }

  /** Every user key of [lo, hi] lies in [begin, end] or in a file that meets [lo, hi]. */
  ghost predicate Linked(fs: seq<File>, begin: Option<UserKey>, end: Option<UserKey>,
                         lo: Option<UserKey>, hi: Option<UserKey>) {
    forall x :: InRange(lo, hi, x) ==> InRange(begin, end, x) || Covered(fs, lo, hi, x)
  }

  ghost predicate Grown(fs: seq<File>, begin: Option<UserKey>, end: Option<UserKey>,
                        lo: Option<UserKey>, hi: Option<UserKey>) {
    Within(begin, end, lo, hi) && Forced(fs, begin, end, lo, hi) && Linked(fs, begin, end, lo, hi)
  }

  /** Taking in a file that meets the range keeps the range forced and linked. */
  lemma Grow(fs: seq<File>, begin: Option<UserKey>, end: Option<UserKey>, lo: Option<UserKey>,
             hi: Option<UserKey>, f: File, lo2: Option<UserKey>, hi2: Option<UserKey>)
    requires Grown(fs, begin, end, lo, hi)
    requires f in fs && Overlaps(f, lo, hi)
    requires || (lo.Some? && f.Lo() < lo.value && lo2 == Some(f.Lo()) && hi2 == hi)
             || (hi.Some? && f.Hi() > hi.value && hi2 == Some(f.Hi()) && lo2 == lo)
    ensures Grown(fs, begin, end, lo2, hi2)
  {
    forall lo3, hi3 | Closed(fs, lo3, hi3) && Within(begin, end, lo3, hi3)
      ensures Within(lo2, hi2, lo3, hi3)
    {
      assert Within(lo, hi, lo3, hi3);
      assert Overlaps(f, lo3, hi3);
    }
    forall x | InRange(lo2, hi2, x)
      ensures InRange(begin, end, x) || Covered(fs, lo2, hi2, x)
    {
      if InRange(lo, hi, x) {
        if Covered(fs, lo, hi, x) {
          var g :| g in fs && Overlaps(g, lo, hi) && g.Lo() <= x <= g.Hi();
          assert Overlaps(g, lo2, hi2);
        }
      } else {
        assert f.Lo() <= x <= f.Hi() && Overlaps(f, lo2, hi2);
      }
    }
  }

  lemma GrownStart(fs: seq<File>, begin: Option<UserKey>, end: Option<UserKey>)
    ensures Grown(fs, begin, end, begin, end)
  {
  }

  lemma NothingSelected(fs: seq<File>, lo: Option<UserKey>, hi: Option<UserKey>)
    ensures Select(fs[..0], lo, hi) == [] && Closed(fs[..0], lo, hi)
  {
  }

  // One file more of the scan.
  lemma SelectOneMore(fs: seq<File>, i: nat, lo: Option<UserKey>, hi: Option<UserKey>)
    requires i < |fs|
    ensures Select(fs[..i + 1], lo, hi) == Select(fs[..i], lo, hi) + if Overlaps(fs[i], lo, hi) then [fs[i]] else []
    ensures var inside := Overlaps(fs[i], lo, hi) ==> !SticksOutLow(lo, fs[i]) && !SticksOutHigh(hi, fs[i]);
      Closed(fs[..i + 1], lo, hi) <==> Closed(fs[..i], lo, hi) && inside
  {
    assert fs[..i + 1] == fs[..i] + [fs[i]] && fs[..i + 1][..i] == fs[..i];
  }

  ghost function StickOutLow(fs: seq<File>, lo: Option<UserKey>): set<File> {
    set f | f in fs && SticksOutLow(lo, f)
  }

  ghost function StickOutHigh(fs: seq<File>, hi: Option<UserKey>): set<File> {
    set f | f in fs && SticksOutHigh(hi, f)
  }

  /** The files that meet the range; in level 0 the range is first grown to the least one no file sticks out of. */
  ghost predicate Overlapping(level: nat, fs: seq<File>, begin: Option<UserKey>, end: Option<UserKey>,
                              inputs: seq<File>)
  {
    if level > 0 then inputs == Select(fs, begin, end)
    else exists lo, hi ::
      LeastClosed(fs, begin, end, lo, hi) && Linked(fs, begin, end, lo, hi) && inputs == Select(fs, lo, hi)
  }

  /** The files of a level that meet [begin, end]. In level 0 the range grows to each file taken, and the scan
      starts again whenever it does. */
  method GetOverlappingInputs(level: nat, fs: seq<File>, begin: Option<UserKey>, end: Option<UserKey>)
    returns (inputs: seq<File>, ghost lo: Option<UserKey>, ghost hi: Option<UserKey>)
    ensures Overlapping(level, fs, begin, end, inputs) && inputs == Select(fs, lo, hi)
    ensures level > 0 ==> lo == begin && hi == end
    ensures level == 0 ==> LeastClosed(fs, begin, end, lo, hi) && Linked(fs, begin, end, lo, hi)
  {
    hide Select, Closed, Linked, Forced;
    inputs := [];
    var userBegin, userEnd := begin, end;
    var i := 0;
    GrownStart(fs, begin, end);
    NothingSelected(fs, begin, end);
    while i < |fs|
      invariant 0 <= i <= |fs|
      invariant inputs == Select(fs[..i], userBegin, userEnd)
      invariant level > 0 ==> userBegin == begin && userEnd == end
      invariant level == 0 ==> Closed(fs[..i], userBegin, userEnd)
      invariant Grown(fs, begin, end, userBegin, userEnd)
      decreases StickOutLow(fs, userBegin), StickOutHigh(fs, userEnd), |fs| - i
    {
      var f := fs[i];
      i := i + 1;
      SelectOneMore(fs, i - 1, userBegin, userEnd);
      if begin.Some? && f.Hi() < userBegin.value {
      } else if end.Some? && f.Lo() > userEnd.value {
      } else {
        inputs := inputs + [f];
        if level == 0 {
          if begin.Some? && f.Lo() < userBegin.value {
            Grow(fs, begin, end, userBegin, userEnd, f, Some(f.Lo()), userEnd);
            assert f in StickOutLow(fs, userBegin) && f !in StickOutLow(fs, Some(f.Lo()));
            userBegin := Some(f.Lo());
            inputs := [];
            i := 0;
            NothingSelected(fs, userBegin, userEnd);
          } else if end.Some? && f.Hi() > userEnd.value {
            Grow(fs, begin, end, userBegin, userEnd, f, userBegin, Some(f.Hi()));
            assert f in StickOutHigh(fs, userEnd) && f !in StickOutHigh(fs, Some(f.Hi()));
            userEnd := Some(f.Hi());
            inputs := [];
            i := 0;
            NothingSelected(fs, userBegin, userEnd);
          }
        }
      }
    }
    assert fs[..|fs|] == fs;
    lo, hi := userBegin, userEnd;
  }

  /** The level for a table flushed from the memtable: as long as nothing there meets its range it sinks, at most to
      level 2, and only while the files it would later be merged with stay small. */
  function PickLevelFrom(levels: Levels, level: nat, lo: UserKey, hi: UserKey, maxOverlap: nat): nat
    requires |levels| == NUM_LEVELS && level <= MAX_MEM_COMPACT_LEVEL
    decreases MAX_MEM_COMPACT_LEVEL - level
  {
    if level == MAX_MEM_COMPACT_LEVEL || Select(levels[level + 1], Some(lo), Some(hi)) != []
       || (level + 2 < NUM_LEVELS && TotalFileSize(Select(levels[level + 2], Some(lo), Some(hi))) > maxOverlap)
    then level
    else PickLevelFrom(levels, level + 1, lo, hi, maxOverlap)
  }

  function PickLevel(levels: Levels, lo: UserKey, hi: UserKey, maxOverlap: nat): nat
    requires |levels| == NUM_LEVELS
  {
    if Select(levels[0], Some(lo), Some(hi)) != [] then 0 else PickLevelFrom(levels, 0, lo, hi, maxOverlap)
  }

  method PickLevelForMemTableOutput(levels: Levels, lo: UserKey, hi: UserKey, maxFileSize: nat) returns (level: nat)
    requires |levels| == NUM_LEVELS
    requires forall l :: 1 <= l < NUM_LEVELS ==> LevelSorted(levels[l])
    requires forall l, f :: 0 <= l < NUM_LEVELS && f in levels[l] ==> f.largest.num <= MAX_SEQUENCE
    ensures level == PickLevel(levels, lo, hi, 10 * maxFileSize)
  {
    hide LevelSorted, SomeOverlap, Select, TotalFileSize;
    level := 0;
    var overlap0 := SomeFileOverlapsRange(false, levels[0], Some(lo), Some(hi));
    SelectEmpty(levels[0], Some(lo), Some(hi));
    if !overlap0 {
      while level < MAX_MEM_COMPACT_LEVEL
        invariant level <= MAX_MEM_COMPACT_LEVEL
        invariant PickLevelFrom(levels, 0, lo, hi, 10 * maxFileSize)
               == PickLevelFrom(levels, level, lo, hi, 10 * maxFileSize)
      {
        var overlap := SomeFileOverlapsRange(true, levels[level + 1], Some(lo), Some(hi));
        SelectEmpty(levels[level + 1], Some(lo), Some(hi));
        if overlap {
          break;
        }
        if level + 2 < NUM_LEVELS {
          ghost var lo2, hi2;
          var overlaps;
          overlaps, lo2, hi2 := GetOverlappingInputs(level + 2, levels[level + 2], Some(lo), Some(hi));
          if TotalFileSize(overlaps) > 10 * maxFileSize {
            break;
          }
        }
        level := level + 1;
      }
    }
  }

  lemma SelectEmpty(fs: seq<File>, lo: Option<UserKey>, hi: Option<UserKey>)
    ensures Select(fs, lo, hi) == [] <==> !SomeOverlap(fs, lo, hi)
  {
    SelectMember(fs, lo, hi);
    if Select(fs, lo, hi) != [] {
      assert Select(fs, lo, hi)[0] in Select(fs, lo, hi);
    }
  }

  /** A table that sinks below level 0 meets no file at its level or above. */
  lemma {:induction false} PickLevelFromClear(levels: Levels, level: nat, lo: UserKey, hi: UserKey, maxOverlap: nat)
    requires |levels| == NUM_LEVELS && level <= MAX_MEM_COMPACT_LEVEL
    requires forall l :: 0 <= l <= level ==> !SomeOverlap(levels[l], Some(lo), Some(hi))
    ensures level <= PickLevelFrom(levels, level, lo, hi, maxOverlap) <= MAX_MEM_COMPACT_LEVEL
    ensures forall l :: 0 <= l <= PickLevelFrom(levels, level, lo, hi, maxOverlap) ==>
      !SomeOverlap(levels[l], Some(lo), Some(hi))
    decreases MAX_MEM_COMPACT_LEVEL - level
  {
    if level < MAX_MEM_COMPACT_LEVEL {
      SelectEmpty(levels[level + 1], Some(lo), Some(hi));
      if PickLevelFrom(levels, level, lo, hi, maxOverlap) != level {
        PickLevelFromClear(levels, level + 1, lo, hi, maxOverlap);
      }
    }
  }

  lemma PickLevelClear(levels: Levels, lo: UserKey, hi: UserKey, maxOverlap: nat)
    requires |levels| == NUM_LEVELS
    ensures PickLevel(levels, lo, hi, maxOverlap) <= MAX_MEM_COMPACT_LEVEL
    ensures PickLevel(levels, lo, hi, maxOverlap) > 0 ==>
      forall l :: 0 <= l <= PickLevel(levels, lo, hi, maxOverlap) ==> !SomeOverlap(levels[l], Some(lo), Some(hi))
  {
    SelectEmpty(levels[0], Some(lo), Some(hi));
    if Select(levels[0], Some(lo), Some(hi)) == [] {
      PickLevelFromClear(levels, 0, lo, hi, maxOverlap);
    }
  }
}
