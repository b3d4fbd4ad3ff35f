/** How the input files of a compaction are chosen, and why the choice is closed. */
module Inputs {
  import opened Options
  import opened Keys
  import opened Tables
  import opened Overlap
  import Seqs

  // ---------- ranges of files ----------

  ghost predicate IsSmallest(fs: seq<File>, k: InternalKey) {
    (exists f :: f in fs && f.smallest == k) && forall f :: f in fs ==> !Less(f.smallest, k)
  }

  ghost predicate IsLargest(fs: seq<File>, k: InternalKey) {
    (exists f :: f in fs && f.largest == k) && forall f :: f in fs ==> !Less(k, f.largest)
  }

  /** The least and the greatest internal key of a non-empty list of files. */
  method GetRange(inputs: seq<File>) returns (smallest: InternalKey, largest: InternalKey)
    requires inputs != []
    ensures IsSmallest(inputs, smallest) && IsLargest(inputs, largest)
  {
    hide IsSmallest, IsLargest, Tag;
    RangeStart(inputs);
    smallest, largest := inputs[0].smallest, inputs[0].largest;
    for i := 1 to |inputs|
      invariant IsSmallest(inputs[..i], smallest) && IsLargest(inputs[..i], largest)
    {
      var f := inputs[i];
      RangeStep(inputs[..i], f, smallest, largest);
      assert inputs[..i + 1] == inputs[..i] + [f];
      if Less(f.smallest, smallest) {
        smallest := f.smallest;
      }
      if Less(largest, f.largest) {
        largest := f.largest;
      }
    }
    assert inputs[..|inputs|] == inputs;
  }

  lemma RangeStart(inputs: seq<File>)
    requires inputs != []
    ensures IsSmallest(inputs[..1], inputs[0].smallest) && IsLargest(inputs[..1], inputs[0].largest)
  {
    assert inputs[0] in inputs[..1];
  }

  lemma RangeStep(seen: seq<File>, f: File, s: InternalKey, l: InternalKey)
    requires IsSmallest(seen, s) && IsLargest(seen, l)
    ensures IsSmallest(seen + [f], if Less(f.smallest, s) then f.smallest else s)
    ensures IsLargest(seen + [f], if Less(l, f.largest) then f.largest else l)
  {
    assert forall g :: g in seen + [f] <==> g in seen || g == f;
  }

  lemma RangeUsers(fs: seq<File>, s: InternalKey, l: InternalKey)
    requires IsSmallest(fs, s) && IsLargest(fs, l)
    ensures forall f :: f in fs ==> s.user <= f.Lo() && f.Hi() <= l.user
    ensures s.user <= l.user
  {
    var f :| f in fs && f.smallest == s;
  }

  // ---------- boundary files ----------

  predicate IsBoundary(f: File, key: InternalKey) {
    Less(key, f.smallest) && f.Lo() == key.user
  }

  ghost predicate IsLeastBoundary(fs: seq<File>, key: InternalKey, f: File) {
    f in fs && IsBoundary(f, key) && forall g :: g in fs && IsBoundary(g, key) ==> !Less(g.smallest, f.smallest)
  }

  ghost predicate NoBoundary(fs: seq<File>, key: InternalKey) {
    forall g :: g in fs ==> !IsBoundary(g, key)
  }

  method FindSmallestBoundaryFile(levelFiles: seq<File>, key: InternalKey) returns (r: Option<File>)
    ensures r.None? ==> NoBoundary(levelFiles, key)
    ensures r.Some? ==> IsLeastBoundary(levelFiles, key, r.value)
  {
    r := None;
    for i := 0 to |levelFiles|
      invariant r.None? ==> NoBoundary(levelFiles[..i], key)
      invariant r.Some? ==> IsLeastBoundary(levelFiles[..i], key, r.value)
    {
      var f := levelFiles[i];
      assert levelFiles[..i + 1] == levelFiles[..i] + [f];
      if Less(key, f.smallest) && f.Lo() == key.user {
        if r.None? || Less(f.smallest, r.value.smallest) {
          r := Some(f);
        }
      }
    }
    assert levelFiles[..|levelFiles|] == levelFiles;
  }

  // The key at which the next search starts, once the files `ext` have been added.
  ghost function SearchKey(key: InternalKey, ext: seq<File>): InternalKey {
    if ext == [] then key else ext[|ext| - 1].largest
  }

  /** Each file of `ext` is the least boundary file for the key at which its search started. */
  ghost predicate Links(fs: seq<File>, key: InternalKey, ext: seq<File>) {
    ext != [] ==>
      var before := ext[..|ext| - 1];
      Links(fs, key, before) && IsLeastBoundary(fs, SearchKey(key, before), ext[|ext| - 1])
  }

  /** `ext` is every boundary file that can be reached from `key`, each the least one after the last. */
  ghost predicate BoundaryChain(fs: seq<File>, key: InternalKey, ext: seq<File>) {
    Links(fs, key, ext) && NoBoundary(fs, SearchKey(key, ext))
  }

  ghost function StartsAfter(fs: seq<File>, key: InternalKey): set<File> {
    set f | f in fs && Less(key, f.smallest)
  }

  ghost predicate WithBoundaryFiles(levelFiles: seq<File>, files: seq<File>, r: seq<File>) {
    exists key, ext :: IsLargest(files, key) && BoundaryChain(levelFiles, key, ext) && r == files + ext
  }

  method AddBoundaryInputs(levelFiles: seq<File>, files: seq<File>)
    returns (r: seq<File>, ghost key: InternalKey, ghost ext: seq<File>)
    requires files != []
    ensures IsLargest(files, key) && BoundaryChain(levelFiles, key, ext) && r == files + ext
    ensures WithBoundaryFiles(levelFiles, files, r)
  {
    var _, largest := GetRange(files);
    key := largest;
    r, ext := files, [];
    while true
      invariant r == files + ext && Links(levelFiles, key, ext) && largest == SearchKey(key, ext)
      decreases StartsAfter(levelFiles, largest)
    {
      var f := FindSmallestBoundaryFile(levelFiles, largest);
      if f.None? {
        break;
      }
      BoundaryAdvances(levelFiles, largest, f.value);
      r := r + [f.value];
      assert (ext + [f.value])[..|ext|] == ext;
      ext := ext + [f.value];
      largest := f.value.largest;
    }
  }

  lemma BoundaryAdvances(fs: seq<File>, key: InternalKey, f: File)
    requires f in fs && IsBoundary(f, key)
    ensures StartsAfter(fs, f.largest) < StartsAfter(fs, key)
  {
    assert f in StartsAfter(fs, key) && f !in StartsAfter(fs, f.largest);
  }

  /** A contiguous run of the files of a level. */
  ghost predicate IsRun(fs: seq<File>, r: seq<File>, a: nat, b: nat) {
    a < b <= |fs| && r == fs[a..b]
  }

  /** The run does not stop between two files that share a user key. */
  ghost predicate EndsClean(fs: seq<File>, b: nat)
    requires 0 < b <= |fs|
  {
    b < |fs| ==> fs[b - 1].Hi() != fs[b].Lo()
  }

  lemma LeastBoundaryIsNext(fs: seq<File>, b: nat, f: File)
    requires LevelSorted(fs) && 0 < b <= |fs|
    requires IsLeastBoundary(fs, fs[b - 1].largest, f)
    ensures b < |fs| && f == fs[b] && f.Lo() == fs[b - 1].Hi()
  {
    var j :| 0 <= j < |fs| && fs[j] == f;
    if j < b - 1 {
      LargestOrdered(fs, j, b - 1);
    } else if j > b {
      LargestOrdered(fs, b - 1, b);
      LargestOrdered(fs, b, j);
    }
  }

  /** On sorted disjoint files, the links extend a run file by file. */
  lemma {:induction false} LinksOfRun(fs: seq<File>, b: nat, ext: seq<File>)
    requires LevelSorted(fs) && 0 < b <= |fs| && Links(fs, fs[b - 1].largest, ext)
    ensures b + |ext| <= |fs| && ext == fs[b..b + |ext|]
    ensures forall k :: b <= k < b + |ext| ==> fs[k].Lo() == fs[k - 1].Hi()
  {
    if ext != [] {
      var before := ext[..|ext| - 1];
      LinksOfRun(fs, b, before);
      var c := b + |before|;
      assert SearchKey(fs[b - 1].largest, before) == fs[c - 1].largest;
      LeastBoundaryIsNext(fs, c, ext[|ext| - 1]);
      assert ext == before + [ext[|ext| - 1]];
    }
  }

  /** ... and the whole chain to the nearest clean end. */
  lemma ChainOfRun(fs: seq<File>, a: nat, b: nat, ext: seq<File>)
    requires LevelSorted(fs) && a < b <= |fs| && BoundaryChain(fs, fs[b - 1].largest, ext)
    ensures b + |ext| <= |fs| && fs[a..b] + ext == fs[a..b + |ext|] && EndsClean(fs, b + |ext|)
    ensures forall k :: b <= k < b + |ext| ==> fs[k].Lo() == fs[k - 1].Hi()
  {
    LinksOfRun(fs, b, ext);
    var c := b + |ext|;
    assert SearchKey(fs[b - 1].largest, ext) == fs[c - 1].largest;
    if c < |fs| {
      assert Before(fs[c - 1], fs[c]) && !IsBoundary(fs[c], fs[c - 1].largest);
    }
  }

  /** Files of a level closed under overlap: none is left out that shares a user key with one taken. */
  ghost predicate OverlapClosed(fs: seq<File>, files: seq<File>) {
    && (forall f :: f in files ==> f in fs)
    && forall f, g :: f in files && g in fs && g.Lo() <= f.Hi() && f.Lo() <= g.Hi() ==> g in files
  }

  /** A set of files closed under overlap has no boundary file to add. */
  lemma {:induction false} ChainOfClosed(fs: seq<File>, files: seq<File>, key: InternalKey, ext: seq<File>)
    requires OverlapClosed(fs, files) && IsLargest(files, key) && Links(fs, key, ext)
    ensures ext == []
  {
    if ext != [] {
      var before := ext[..|ext| - 1];
      ChainOfClosed(fs, files, key, before);
      var g := ext[|ext| - 1];
      var f :| f in files && f.largest == key;
    }
  }

  // ---------- the plan of a compaction ----------

  /** What the inputs at the compacted level must satisfy: closed under overlap in level 0, where files may overlap,
      and a run with a clean end above it. */
  ghost predicate ClosedInputs(level: nat, fs: seq<File>, in0: seq<File>) {
    && in0 != []
    && if level == 0 then OverlapClosed(fs, in0)
       else exists a, b :: IsRun(fs, in0, a, b) && EndsClean(fs, b)
  }

  /** What the choice may start from. */
  ghost predicate StartInputs(level: nat, fs: seq<File>, in0: seq<File>) {
    && in0 != []
    && if level == 0 then OverlapClosed(fs, in0)
       else exists a, b :: IsRun(fs, in0, a, b)
  }

  /** `in1` is every file of the next level that shares user keys with the range of `in0`. */
  ghost predicate Plan(level: nat, fs: seq<File>, gs: seq<File>, in0: seq<File>, in1: seq<File>) {
    && ClosedInputs(level, fs, in0)
    && exists s, l :: IsSmallest(in0, s) && IsLargest(in0, l) && in1 == Select(gs, Some(s.user), Some(l.user))
  }

  ghost predicate CoveredBy(fs: seq<File>, x: UserKey) {
    exists f :: f in fs && f.Lo() <= x <= f.Hi()
  }

  /** The key ranges of the files leave no gap. */
  ghost predicate Connected(fs: seq<File>) {
    forall f, g, x :: f in fs && g in fs && f.Lo() <= x <= g.Hi() ==> CoveredBy(fs, x)
  }

  // The file meets the hull of `fs`.
  ghost predicate Touches(f: File, fs: seq<File>) {
    exists g, h :: g in fs && h in fs && f.Lo() <= h.Hi() && g.Lo() <= f.Hi()
  }

  lemma ConnectedUnion(fs: seq<File>, more: seq<File>, all: seq<File>)
    requires Connected(fs)
    requires forall f :: f in more ==> Touches(f, fs)
    requires forall f :: f in all <==> f in fs || f in more
    ensures Connected(all)
  {
    forall f, g, x | f in all && g in all && f.Lo() <= x <= g.Hi() ensures CoveredBy(all, x) {
      if !(f.Lo() <= x <= f.Hi()) && !(g.Lo() <= x <= g.Hi()) {
        var f2 := f;
        if f !in fs { var h, k :| h in fs && k in fs && f.Lo() <= k.Hi() && h.Lo() <= f.Hi(); f2 := h; }
        var g2 := g;
        if g !in fs { var h, k :| h in fs && k in fs && g.Lo() <= k.Hi() && h.Lo() <= g.Hi(); g2 := k; }
        assert f2.Lo() <= x <= g2.Hi() && CoveredBy(fs, x);
        var c :| c in fs && c.Lo() <= x <= c.Hi();
        assert c in all;
      }
    }
  }

  lemma RunLargest(fs: seq<File>, files: seq<File>, a: nat, b: nat, key: InternalKey)
    requires LevelSorted(fs) && IsRun(fs, files, a, b) && IsLargest(files, key)
    ensures key == fs[b - 1].largest
  {
    var f :| f in files && f.largest == key;
    var j :| 0 <= j < |files| && files[j] == f;
    assert files[b - 1 - a] in files && files[b - 1 - a] == fs[b - 1];
    if a + j < b - 1 {
      LargestOrdered(fs, a + j, b - 1);
    }
  }

  /** Adding boundary files closes the inputs at their level. */
  lemma BoundaryCloses(level: nat, fs: seq<File>, files: seq<File>, key: InternalKey, ext: seq<File>)
    requires level > 0 ==> LevelSorted(fs)
    requires StartInputs(level, fs, files) && IsLargest(files, key) && BoundaryChain(fs, key, ext)
    ensures ClosedInputs(level, fs, files + ext)
  {
    if level == 0 {
      ChainOfClosed(fs, files, key, ext);
      assert files + ext == files;
    } else {
      var a: nat, b: nat :| IsRun(fs, files, a, b);
      RunLargest(fs, files, a, b, key);
      ChainOfRun(fs, a, b, ext);
      assert IsRun(fs, files + ext, a, b + |ext|);
    }
  }

  /** ... and leaves no gap. */
  lemma {:induction false} BoundaryConnected(fs: seq<File>, base: seq<File>, key: InternalKey, ext: seq<File>)
    requires Connected(base) && Links(fs, key, ext)
    requires exists h :: h in base && h.largest == key
    ensures Connected(base + ext)
  {
    if ext == [] {
      assert base + ext == base;
    } else {
      var before, f := ext[..|ext| - 1], ext[|ext| - 1];
      BoundaryConnected(fs, base, key, before);
      assert ext == before + [f];
      var h: File;
      if before == [] {
        h :| h in base && h.largest == key;
      } else {
        h := before[|before| - 1];
      }
      assert h in base + before && h.Hi() == f.Lo();
      assert Touches(f, base + before);
      ConnectedUnion(base + before, [f], base + ext);
    }
  }

  lemma {:induction false} SelectSlice(fs: seq<File>, lo: Option<UserKey>, hi: Option<UserKey>, a: nat, b: nat)
    requires a <= b <= |fs|
    requires forall i :: 0 <= i < |fs| ==> (Overlaps(fs[i], lo, hi) <==> a <= i < b)
    ensures Select(fs, lo, hi) == fs[a..b]
  {
    hide Overlaps;
    if fs != [] {
      var n := |fs| - 1;
      if a <= n < b {
        SelectSlice(fs[..n], lo, hi, a, n);
        Seqs.SliceSnoc(fs, a, n);
      } else if b <= n {
        SelectSlice(fs[..n], lo, hi, a, b);
      } else {
        SelectSlice(fs[..n], lo, hi, n, n);
      }
    }
  }

  /** Files that meet a range form a run when the level is sorted. */
  lemma SelectRun(fs: seq<File>, lo: Option<UserKey>, hi: Option<UserKey>) returns (a: nat, b: nat)
    requires LevelSorted(fs)
    ensures a <= b <= |fs| && Select(fs, lo, hi) == fs[a..b]
  {
    a := 0;
    while a < |fs| && AfterFile(lo, fs[a])
      invariant a <= |fs| && forall i :: 0 <= i < a ==> AfterFile(lo, fs[i])
    {
      a := a + 1;
    }
    forall i | a < i < |fs| ensures !AfterFile(lo, fs[i]) {
      LargestOrdered(fs, a, i);
    }
    b := a;
    while b < |fs| && !BeforeFile(hi, fs[b])
      invariant a <= b <= |fs| && forall i :: a <= i < b ==> !BeforeFile(hi, fs[i])
    {
      b := b + 1;
    }
    forall i | b < i < |fs| ensures BeforeFile(hi, fs[i]) {
      LargestOrdered(fs, b, i);
    }
    SelectSlice(fs, lo, hi, a, b);
  }

  /** A closed range selects closed inputs, in level 0 and above. */
  lemma SelectStarts(level: nat, fs: seq<File>, lo: Option<UserKey>, hi: Option<UserKey>)
    requires if level == 0 then Closed(fs, lo, hi) else LevelSorted(fs)
    requires Select(fs, lo, hi) != []
    ensures StartInputs(level, fs, Select(fs, lo, hi))
  {
    SelectMember(fs, lo, hi);
    if level > 0 {
      var a, b := SelectRun(fs, lo, hi);
      assert IsRun(fs, Select(fs, lo, hi), a, b);
    }
  }

  /** A wider range selects at least the same files, and as many only if it selects the same ones. */
  lemma {:induction false} SelectMonotone(fs: seq<File>, lo: Option<UserKey>, hi: Option<UserKey>,
                                          lo2: Option<UserKey>, hi2: Option<UserKey>)
    requires Within(lo, hi, lo2, hi2)
    ensures |Select(fs, lo, hi)| <= |Select(fs, lo2, hi2)|
    ensures |Select(fs, lo, hi)| == |Select(fs, lo2, hi2)| ==> Select(fs, lo, hi) == Select(fs, lo2, hi2)
  {
    if fs != [] {
      SelectMonotone(fs[..|fs| - 1], lo, hi, lo2, hi2);
    }
  }

  /** The files of a level that meet the hull of connected files stay connected with them. */
  lemma SelectConnected(fs: seq<File>, base: seq<File>, s: InternalKey, l: InternalKey, sel: seq<File>, all: seq<File>)
    requires Connected(base) && IsSmallest(base, s) && IsLargest(base, l)
    requires sel == Select(fs, Some(s.user), Some(l.user))
    requires forall f :: f in all <==> f in base || f in sel
    ensures Connected(all)
  {
    SelectMember(fs, Some(s.user), Some(l.user));
    var g :| g in base && g.smallest == s;
    var h :| h in base && h.largest == l;
    forall f | f in sel ensures Touches(f, base) {
      assert f.Lo() <= h.Hi() && g.Lo() <= f.Hi();
    }
    ConnectedUnion(base, sel, all);
  }

  /** In level 0 the closed range itself has no gap. */
  lemma LinkedConnected(fs: seq<File>, base: seq<File>, s: InternalKey, l: InternalKey,
                        lo: Option<UserKey>, hi: Option<UserKey>, all: seq<File>)
    requires Connected(base) && IsSmallest(base, s) && IsLargest(base, l)
    requires LeastClosed(fs, Some(s.user), Some(l.user), lo, hi) && Linked(fs, Some(s.user), Some(l.user), lo, hi)
    requires forall f :: f in all <==> f in base || f in Select(fs, lo, hi)
    ensures Connected(all)
  {
    SelectMember(fs, lo, hi);
    RangeUsers(base, s, l);
    var g0 :| g0 in base && g0.smallest == s;
    var h0 :| h0 in base && h0.largest == l;
    forall f, g, x | f in all && g in all && f.Lo() <= x <= g.Hi() ensures CoveredBy(all, x) {
      if InRange(Some(s.user), Some(l.user), x) {
        assert g0.Lo() <= x <= h0.Hi() && CoveredBy(base, x);
        var c :| c in base && c.Lo() <= x <= c.Hi();
        assert c in all;
      } else {
        assert InRange(lo, hi, x);
        assert Covered(fs, lo, hi, x);
        var c :| c in fs && Overlaps(c, lo, hi) && c.Lo() <= x <= c.Hi();
        assert c in all;
      }
    }
  }

  lemma RangeGrows(fs: seq<File>, s: InternalKey, l: InternalKey, gs: seq<File>, s2: InternalKey, l2: InternalKey)
    requires IsSmallest(fs, s) && IsLargest(fs, l) && IsSmallest(gs, s2) && IsLargest(gs, l2)
    requires forall f :: f in fs ==> f in gs
    ensures Within(Some(s.user), Some(l.user), Some(s2.user), Some(l2.user))
  {
    var f :| f in fs && f.smallest == s;
    var g :| g in fs && g.largest == l;
  }

  ghost predicate ValidLevels(levels: Levels) {
    && |levels| == NUM_LEVELS
    && forall i :: 1 <= i < NUM_LEVELS ==> LevelSorted(levels[i])
  }

  /** The inputs follow the plan, keep every file of `start`, and leave no gap if `start` has none. */
  ghost predicate Chosen(level: nat, levels: Levels, start: seq<File>, in0: seq<File>, in1: seq<File>)
    requires level + 1 < |levels|
  {
    && Plan(level, levels[level], levels[level + 1], in0, in1)
    && (forall f :: f in start ==> f in in0)
    && (Connected(start) ==> Connected(in0 + in1))
  }

  /** The files two levels down that share user keys with the range of the inputs. */
  ghost predicate Grandparents(level: nat, levels: Levels, inputs: seq<File>, grandparents: seq<File>)
    requires |levels| == NUM_LEVELS
  {
    exists s, l ::
      && IsSmallest(inputs, s) && IsLargest(inputs, l)
      && grandparents
         == if level + 2 < NUM_LEVELS then Select(levels[level + 2], Some(s.user), Some(l.user)) else []
  }

  /** Completes the inputs of a compaction: boundary files at `level`, every file of the next level in their range,
      and then more files at `level` if that costs no file of the next level and the total stays small. */
  method SetupOtherInputs(level: nat, levels: Levels, start: seq<File>, maxFileSize: nat)
    returns (in0: seq<File>, in1: seq<File>, grandparents: seq<File>, compactPointer: InternalKey)
    requires ValidLevels(levels) && level + 1 < NUM_LEVELS
    requires StartInputs(level, levels[level], start)
    ensures Chosen(level, levels, start, in0, in1)
    ensures IsLargest(in0, compactPointer)
    ensures Grandparents(level, levels, in0 + in1, grandparents)
  {
    in0, in1 := FirstInputs(level, levels, start);
    if in1 != [] {
      in0, in1 := GrowInputs(level, levels, start, in0, in1, maxFileSize);
    }
    var allStart, allLimit := GetRange(in0 + in1);
    grandparents := [];
    if level + 2 < NUM_LEVELS {
      ghost var lo, hi;
      grandparents, lo, hi :=
        GetOverlappingInputs(level + 2, levels[level + 2], Some(allStart.user), Some(allLimit.user));
    }
    var _, largest := GetRange(in0);
    compactPointer := largest;
  }

  method FirstInputs(level: nat, levels: Levels, start: seq<File>) returns (in0: seq<File>, in1: seq<File>)
    requires ValidLevels(levels) && level + 1 < NUM_LEVELS
    requires StartInputs(level, levels[level], start)
    ensures Chosen(level, levels, start, in0, in1)
  {
    ghost var key, ext, lo, hi;
    in0, key, ext := AddBoundaryInputs(levels[level], start);
    BoundaryCloses(level, levels[level], start, key, ext);
    var smallest, largest := GetRange(in0);
    in1, lo, hi := GetOverlappingInputs(level + 1, levels[level + 1], Some(smallest.user), Some(largest.user));
    if Connected(start) {
      BoundaryConnected(levels[level], start, key, ext);
      SelectConnected(levels[level + 1], in0, smallest, largest, in1, in0 + in1);
    }
  }

  /** Takes more files at `level` when no file of the next level is added and the total stays below the limit. */
  method GrowInputs(level: nat, levels: Levels, ghost start: seq<File>, in0: seq<File>, in1: seq<File>,
                    maxFileSize: nat)
    returns (r0: seq<File>, r1: seq<File>)
    requires ValidLevels(levels) && level + 1 < NUM_LEVELS
    requires Chosen(level, levels, start, in0, in1)
    ensures Chosen(level, levels, start, r0, r1) && r1 == in1
    ensures r0 != in0 ==> |r0| > |in0| && TotalFileSize(in1) + TotalFileSize(r0) < 25 * maxFileSize
  {
    hide LevelSorted, Plan, Connected, IsSmallest, IsLargest, BoundaryChain, LeastClosed, Linked;
    r0, r1 := in0, in1;
    var fs, gs := levels[level], levels[level + 1];
    ghost var lo, hi, lo1, hi1, key, ext;
    assert in0 != [] by { PlanNotEmpty(level, fs, gs, in0, in1); }
    var allStart, allLimit := GetRange(in0 + in1);
    var expanded0;
    expanded0, lo, hi := GetOverlappingInputs(level, fs, Some(allStart.user), Some(allLimit.user));
    GrowthKeeps(level, fs, gs, in0, in1, allStart, allLimit, lo, hi);
    expanded0, key, ext := AddBoundaryInputs(fs, expanded0);
    if |expanded0| > |in0| && TotalFileSize(in1) + TotalFileSize(expanded0) < 25 * maxFileSize {
      var newStart, newLimit := GetRange(expanded0);
      var expanded1;
      expanded1, lo1, hi1 := GetOverlappingInputs(level + 1, gs, Some(newStart.user), Some(newLimit.user));
      if |expanded1| == |in1| {
        GrowthChosen(level, levels, start, in0, in1, allStart, allLimit, lo, hi, key, ext, expanded0,
                     newStart, newLimit);
        r0, r1 := expanded0, expanded1;
      }
    }
  }

  /** Why the grown inputs are as good as the ones they replace. */
  lemma GrowthChosen(level: nat, levels: Levels, start: seq<File>, in0: seq<File>, in1: seq<File>,
                     s: InternalKey, l: InternalKey, lo: Option<UserKey>, hi: Option<UserKey>,
                     key: InternalKey, ext: seq<File>, expanded0: seq<File>, s2: InternalKey, l2: InternalKey)
    requires ValidLevels(levels) && level + 1 < NUM_LEVELS
    requires Chosen(level, levels, start, in0, in1)
    requires IsSmallest(in0 + in1, s) && IsLargest(in0 + in1, l)
    requires ClosedAround(level, levels[level], s, l, lo, hi)
    requires IsLargest(Select(levels[level], lo, hi), key) && BoundaryChain(levels[level], key, ext)
    requires expanded0 == Select(levels[level], lo, hi) + ext
    requires IsSmallest(expanded0, s2) && IsLargest(expanded0, l2)
    requires |Select(levels[level + 1], Some(s2.user), Some(l2.user))| == |in1|
    ensures Select(levels[level + 1], Some(s2.user), Some(l2.user)) == in1
    ensures Chosen(level, levels, start, expanded0, in1)
  {
    hide LevelSorted, Connected, Plan, ClosedAround, BoundaryChain, IsSmallest, IsLargest;
    var fs := levels[level];
    GrowthKeeps(level, fs, levels[level + 1], in0, in1, s, l, lo, hi);
    SameNextLevel(levels[level + 1], in0, in1, expanded0, s2, l2) by {
      PlanNext(level, fs, levels[level + 1], in0, in1);
    }
    GrowthClosed(level, fs, s, l, lo, hi, key, ext);
    PlanIs(level, fs, levels[level + 1], expanded0, in1, s2, l2);
    if Connected(start) {
      ChainLinks(fs, key, ext);
      ExpansionConnected(level, fs, in0, in1, s, l, lo, hi, key, ext, expanded0);
    }
  }

  lemma GrowthKeeps(level: nat, fs: seq<File>, gs: seq<File>, in0: seq<File>, in1: seq<File>,
                    s: InternalKey, l: InternalKey, lo: Option<UserKey>, hi: Option<UserKey>)
    requires Plan(level, fs, gs, in0, in1) && IsSmallest(in0 + in1, s) && IsLargest(in0 + in1, l)
    requires ClosedAround(level, fs, s, l, lo, hi)
    ensures (forall f :: f in in0 ==> f in Select(fs, lo, hi)) && Select(fs, lo, hi) != []
  {
    hide ClosedInputs;
    AroundWithin(level, fs, s, l, lo, hi);
    InputsSelected(level, fs, in0, in1, s, l, lo, hi);
  }

  lemma PlanNotEmpty(level: nat, fs: seq<File>, gs: seq<File>, in0: seq<File>, in1: seq<File>)
    requires Plan(level, fs, gs, in0, in1)
    ensures in0 != []
  {
  }

  lemma PlanNext(level: nat, fs: seq<File>, gs: seq<File>, in0: seq<File>, in1: seq<File>)
    requires Plan(level, fs, gs, in0, in1)
    ensures exists s, l :: IsSmallest(in0, s) && IsLargest(in0, l) && in1 == Select(gs, Some(s.user), Some(l.user))
  {
    hide ClosedInputs, IsSmallest, IsLargest, Select;
  }

  lemma PlanIs(level: nat, fs: seq<File>, gs: seq<File>, in0: seq<File>, in1: seq<File>,
               s: InternalKey, l: InternalKey)
    requires ClosedInputs(level, fs, in0) && IsSmallest(in0, s) && IsLargest(in0, l)
    requires in1 == Select(gs, Some(s.user), Some(l.user))
    ensures Plan(level, fs, gs, in0, in1)
  {
    hide ClosedInputs, IsSmallest, IsLargest, Select;
  }

  lemma AroundWithin(level: nat, fs: seq<File>, s: InternalKey, l: InternalKey, lo: Option<UserKey>,
                     hi: Option<UserKey>)
    requires ClosedAround(level, fs, s, l, lo, hi)
    ensures Within(Some(s.user), Some(l.user), lo, hi)
  {
  }

  lemma ChainLinks(fs: seq<File>, key: InternalKey, ext: seq<File>)
    requires BoundaryChain(fs, key, ext)
    ensures Links(fs, key, ext)
  {
  }

  lemma GrowthClosed(level: nat, fs: seq<File>, s: InternalKey, l: InternalKey, lo: Option<UserKey>,
                     hi: Option<UserKey>, key: InternalKey, ext: seq<File>)
    requires (level > 0 ==> LevelSorted(fs)) && ClosedAround(level, fs, s, l, lo, hi) && Select(fs, lo, hi) != []
    requires IsLargest(Select(fs, lo, hi), key) && BoundaryChain(fs, key, ext)
    ensures ClosedInputs(level, fs, Select(fs, lo, hi) + ext)
  {
    SelectStarts(level, fs, lo, hi);
    BoundaryCloses(level, fs, Select(fs, lo, hi), key, ext);
  }

  // As many files of the next level means the same files.
  lemma SameNextLevel(gs: seq<File>, in0: seq<File>, in1: seq<File>, expanded0: seq<File>,
                      s2: InternalKey, l2: InternalKey)
    requires exists s, l :: IsSmallest(in0, s) && IsLargest(in0, l) && in1 == Select(gs, Some(s.user), Some(l.user))
    requires IsSmallest(expanded0, s2) && IsLargest(expanded0, l2)
    requires forall f :: f in in0 ==> f in expanded0
    requires |Select(gs, Some(s2.user), Some(l2.user))| == |in1|
    ensures Select(gs, Some(s2.user), Some(l2.user)) == in1
  {
    var s, l :| IsSmallest(in0, s) && IsLargest(in0, l) && in1 == Select(gs, Some(s.user), Some(l.user));
    RangeGrows(in0, s, l, expanded0, s2, l2);
    SelectMonotone(gs, Some(s.user), Some(l.user), Some(s2.user), Some(l2.user));
  }

  // ---------- picking the first file ----------

  ghost predicate AfterPointer(pointer: Option<InternalKey>, f: File) {
    pointer.None? || Less(pointer.value, f.largest)
  }

  /** The first file that ends after the point where the last compaction of the level stopped, or, when there is none,
      the first file of the level. */
  method PickFile(fs: seq<File>, pointer: Option<InternalKey>) returns (i: nat)
    requires fs != []
    ensures i < |fs|
    ensures forall k :: 0 <= k < i ==> !AfterPointer(pointer, fs[k])
    ensures !AfterPointer(pointer, fs[i]) ==> i == 0 && forall k :: 0 <= k < |fs| ==> !AfterPointer(pointer, fs[k])
  {
    i := 0;
    while i < |fs|
      invariant i <= |fs| && forall k :: 0 <= k < i ==> !AfterPointer(pointer, fs[k])
    {
      if pointer.None? || Less(pointer.value, fs[i].largest) {
        return;
      }
      i := i + 1;
    }
    i := 0;
  }

  /** The inputs of a compaction that the store starts by itself, around one picked file: they follow the plan,
      contain the file, and leave no gap. */
  method PickCompaction(level: nat, levels: Levels, picked: File, maxFileSize: nat)
    returns (in0: seq<File>, in1: seq<File>, grandparents: seq<File>, compactPointer: InternalKey)
    requires ValidLevels(levels) && level + 1 < NUM_LEVELS && picked in levels[level]
    ensures Plan(level, levels[level], levels[level + 1], in0, in1)
    ensures picked in in0 && Connected(in0 + in1)
    ensures IsLargest(in0, compactPointer)
  {
    hide LevelSorted, Plan, StartInputs, Connected, IsLargest, Grandparents;
    var start := [picked];
    if level == 0 {
      start := LevelZeroStart(levels[0], picked);
    } else {
      SingleStart(level, levels[level], picked);
    }
    in0, in1, grandparents, compactPointer := SetupOtherInputs(level, levels, start, maxFileSize);
  }

  /** In level 0 a compaction starts with every file tied to the one picked by a chain of overlaps. */
  method LevelZeroStart(fs: seq<File>, picked: File) returns (start: seq<File>)
    requires picked in fs
    ensures picked in start && StartInputs(0, fs, start) && Connected(start)
  {
    var smallest, largest := GetRange([picked]);
    ghost var lo, hi;
    assert picked in [picked];
    start, lo, hi := GetOverlappingInputs(0, fs, Some(smallest.user), Some(largest.user));
    PickedZero(fs, picked, lo, hi);
    LinkedConnected(fs, [picked], smallest, largest, lo, hi, start);
  }

  lemma SingleStart(level: nat, fs: seq<File>, picked: File)
    requires level > 0 && picked in fs
    ensures picked in [picked] && StartInputs(level, fs, [picked]) && Connected([picked])
  {
    var i :| 0 <= i < |fs| && fs[i] == picked;
    assert IsRun(fs, [picked], i, i + 1);
  }

  lemma PickedZero(fs: seq<File>, picked: File, lo: Option<UserKey>, hi: Option<UserKey>)
    requires picked in fs && LeastClosed(fs, Some(picked.Lo()), Some(picked.Hi()), lo, hi)
    ensures picked in Select(fs, lo, hi) && StartInputs(0, fs, Select(fs, lo, hi))
  {
    SelectMember(fs, lo, hi);
    SelectStarts(0, fs, lo, hi);
  }

  // The files already chosen are among those that meet the whole range.
  lemma InputsSelected(level: nat, fs: seq<File>, in0: seq<File>, in1: seq<File>, s: InternalKey, l: InternalKey,
                       lo: Option<UserKey>, hi: Option<UserKey>)
    requires ClosedInputs(level, fs, in0) && IsSmallest(in0 + in1, s) && IsLargest(in0 + in1, l)
    requires Within(Some(s.user), Some(l.user), lo, hi)
    ensures forall f :: f in in0 ==> f in Select(fs, lo, hi)
    ensures Select(fs, lo, hi) != []
  {
    SelectMember(fs, lo, hi);
    RangeUsers(in0 + in1, s, l);
    forall f | f in in0 ensures f in Select(fs, lo, hi) {
      assert f in in0 + in1;
    }
    assert in0[0] in in0;
  }

  // The range GetOverlappingInputs ends with when it starts from the user keys of [s, l].
  ghost predicate ClosedAround(level: nat, fs: seq<File>, s: InternalKey, l: InternalKey,
                               lo: Option<UserKey>, hi: Option<UserKey>) {
    if level == 0
    then LeastClosed(fs, Some(s.user), Some(l.user), lo, hi) && Linked(fs, Some(s.user), Some(l.user), lo, hi)
    else lo == Some(s.user) && hi == Some(l.user)
  }

  lemma ExpansionConnected(level: nat, fs: seq<File>, in0: seq<File>, in1: seq<File>, s: InternalKey, l: InternalKey,
                           lo: Option<UserKey>, hi: Option<UserKey>, key: InternalKey, ext: seq<File>,
                           expanded0: seq<File>)
    requires Connected(in0 + in1) && IsSmallest(in0 + in1, s) && IsLargest(in0 + in1, l)
    requires ClosedAround(level, fs, s, l, lo, hi)
    requires forall f :: f in in0 ==> f in Select(fs, lo, hi)
    requires IsLargest(Select(fs, lo, hi), key) && Links(fs, key, ext) && expanded0 == Select(fs, lo, hi) + ext
    ensures Connected(expanded0 + in1)
  {
    var sel := Select(fs, lo, hi);
    if level == 0 {
      LinkedConnected(fs, in0 + in1, s, l, lo, hi, sel + in1);
    } else {
      SelectConnected(fs, in0 + in1, s, l, sel, sel + in1);
    }
    BoundaryConnected(fs, sel + in1, key, ext);
    ConnectedUnion(sel + in1 + ext, [], expanded0 + in1);
  }
}
