/** The iterators that a merge starts from: cursors over sorted lists of entries, one for each memtable, table and
    level. */
module Cursors {
  import opened Keys

  /** A cursor over a sorted list of entries. It knows no position past either end, only that it is not valid. */
  class Cursor {
    const es: seq<Entry>
    var pos: nat  // |es| when not valid

    ghost predicate Ok()
      reads this
    {
      Sorted(es) && pos <= |es|
    }

    constructor (es: seq<Entry>)
      requires Sorted(es)
      ensures Ok() && this.es == es && pos == |es|
    {
      this.es := es;
      pos := |es|;
    }

    predicate Valid()
      reads this
    {
      pos < |es|
    }

    method SeekToFirst()
      requires Ok()
      modifies this
      ensures Ok() && pos == 0
    {
      pos := 0;
    }

    method SeekToLast()
      requires Ok()
      modifies this
      ensures Ok() && pos == if es == [] then |es| else |es| - 1
    {
      pos := if es == [] then |es| else |es| - 1;
    }

    method Seek(key: InternalKey)
      requires Ok()
      modifies this
      ensures Ok()
      ensures forall i :: 0 <= i < pos ==> Less(es[i].key, key)
      ensures forall i :: pos <= i < |es| ==> !Less(es[i].key, key)
    {
      pos := 0;
      while pos < |es| && Less(es[pos].key, key)
        invariant pos <= |es| && forall i :: 0 <= i < pos ==> Less(es[i].key, key)
      {
        pos := pos + 1;
      }
      forall i | pos <= i < |es| ensures !Less(es[i].key, key) {
        assert pos < i ==> Less(es[pos].key, es[i].key);
      }
    }

    method Next()
      requires Ok() && Valid()
      modifies this
      ensures Ok() && pos == old(pos) + 1
    {
      pos := pos + 1;
    }

    method Prev()
      requires Ok() && Valid()
      modifies this
      ensures Ok() && pos == if old(pos) == 0 then |es| else old(pos) - 1
    {
      pos := if pos == 0 then |es| else pos - 1;
    }
  }

  datatype Direction = Forward | Reverse
}
