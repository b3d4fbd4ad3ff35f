/** Sorted tables, the levels they form, and the order between their entries. */
module Tables {
  import opened Keys

  // Seven levels; a flushed memtable is pushed down to level 2 at most.
  const NUM_LEVELS: nat := 7
  const MAX_MEM_COMPACT_LEVEL: nat := 2

  /** A table file: its number, its size in bytes, the range of internal keys it spans, and what it holds. */
  datatype FileMeta = FileMeta(number: nat, size: nat, smallest: InternalKey, largest: InternalKey,
                               entries: seq<Entry>) {
    // The user keys that bound the file.
    function Lo(): UserKey {
      smallest.user
    }

    function Hi(): UserKey {
      largest.user
    }

    /** The range is exactly that of the sorted entries. */
    ghost predicate Valid() {
      && |entries| > 0 && Sorted(entries)
      && smallest == entries[0].key && largest == entries[|entries| - 1].key
    }
  }

  type File = f: FileMeta | !Less(f.largest, f.smallest)
    witness FileMeta(0, 0, InternalKey(0.0, 0, TypeValue), InternalKey(0.0, 0, TypeValue), [])

  type Levels = seq<seq<File>>

  ghost predicate Before(f: File, g: File) {
    Less(f.largest, g.smallest)
  }

  /** Files of a level above 0: disjoint and in key order. */
  ghost predicate LevelSorted(fs: seq<File>) {
    forall i, j {:trigger Before(fs[i], fs[j])} :: 0 <= i < j < |fs| ==> Before(fs[i], fs[j])
  }

  ghost function EntriesIn(fs: seq<File>): set<Entry> {
    set f, e | f in fs && e in f.entries :: e
  }

  ghost function ToSet(es: seq<Entry>): set<Entry> {
    set e | e in es
  }

  lemma LessTotal(a: InternalKey, b: InternalKey)
    ensures Less(a, b) || a == b || Less(b, a)
    ensures !(Less(a, b) && Less(b, a))
  {
  }

  lemma InFile(f: File, e: Entry)
    requires f.Valid() && e in f.entries
    ensures !Less(e.key, f.smallest) && !Less(f.largest, e.key)
    ensures f.Lo() <= e.key.user <= f.Hi()
  {
    var i :| 0 <= i < |f.entries| && f.entries[i] == e;
    assert i > 0 ==> Less(f.entries[0].key, f.entries[i].key);
    assert i < |f.entries| - 1 ==> Less(f.entries[i].key, f.entries[|f.entries| - 1].key);
  }

  /** An entry of an earlier file comes before every entry of a later one. */
  lemma BeforeEntries(f: File, g: File, e: Entry, x: Entry)
    requires f.Valid() && g.Valid() && Before(f, g) && e in f.entries && x in g.entries
    ensures Less(e.key, x.key)
  {
    InFile(f, e);
    InFile(g, x);
  }
}
