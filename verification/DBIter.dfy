/** The user-visible iterator: a cursor over the live values at a snapshot, on top of the merging iterator. */
module DBIter {
  import opened Options
  import opened Keys
  import opened LiveEntries
  import opened Cursors
  import opened Merger

  class Iter {
    const iter: MergingIterator
    const sequence: nat
    // The current key and value when the direction is Reverse; cleared otherwise.
    var savedKey: Option<UserKey>
    var savedValue: string
    var direction: Direction
    var valid: bool
    // The live entry the iterator is at.
    ghost var at: nat

    /** Moving forward, the inner cursor stands on the current entry. Moving backward, it stands on the last visible
        entry with a smaller user key, or nowhere if there is none. */
    ghost predicate Ok()
      reads this, iter, iter.children
    {
      && iter.Ok() && at <= |iter.merged| && (valid <==> at < |iter.merged|)
      && (valid ==> Live(iter.merged, sequence, at))
      && (valid && direction == Forward ==> iter.at == at)
      && (valid && direction == Reverse ==>
            && savedKey == Some(iter.merged[at].key.user) && savedValue == iter.merged[at].value
            && JustBefore(iter.merged, sequence, iter.at, at))
    }

    constructor (iter: MergingIterator, sequence: nat)
      requires iter.Ok()
      ensures Ok() && !valid && this.iter == iter && this.sequence == sequence
    {
      this.iter, this.sequence := iter, sequence;
      savedKey, savedValue, direction, valid := None, "", Forward, false;
      at := |iter.merged|;
    }

    function Key(): (u: UserKey)
      requires Ok() && valid
      reads this, iter, iter.children
      ensures u == iter.merged[at].key.user
    {
      if direction == Forward then iter.CurrentEntry().key.user else savedKey.value
    }

    function Value(): (v: string)
      requires Ok() && valid
      reads this, iter, iter.children
      ensures v == iter.merged[at].value
    {
      if direction == Forward then iter.CurrentEntry().value else savedValue
    }

    /** Scans forward to the first live entry past the key to skip. */
    method FindNextUserEntry(skipping0: bool, skip0: Option<UserKey>)
      requires iter.Ok() && iter.Valid() && direction == Forward
      requires Accounted(iter.merged, sequence, skipping0, skip0, iter.at)
      modifies this, iter, iter.children
      ensures Ok() && direction == Forward
      ensures IsFirstAccepted(iter.merged, sequence, skipping0, skip0, old(iter.at), at)
    {
      hide MergingIterator.Ok, Live, Scanning, Accounted, Accepts, IsFirstAccepted, Sorted;
      ghost var es, s, from := iter.merged, sequence, iter.at;
      var skipping, skip := skipping0, skip0;
      ScanStarts(es, s, skipping, skip, from);
      while iter.Valid()
        invariant iter.Ok() && direction == Forward && (skipping ==> skip.Some?)
        invariant Scanning(es, s, skipping0, skip0, from, skipping, skip, iter.at)
        decreases |es| - iter.at
      {
        var e := iter.CurrentEntry();
        ghost var p, was, wasKey := iter.at, skipping, skip;
        if e.key.num <= sequence {
          match e.key.kind {
            case TypeDeletion =>
              skip := Some(e.key.user);
              skipping := true;
            case TypeValue =>
              if skipping && e.key.user <= skip.value {
              } else {
                valid := true;
                savedKey := None;
                ScanHits(es, s, skipping0, skip0, from, skipping, skip, p);
                at := p;
                return;
              }
          }
        }
        ScanPasses(es, s, skipping0, skip0, from, was, wasKey, p, skipping, skip);
        iter.Next();
      }
      savedKey := None;
      valid := false;
      at := |es|;
      ScanMisses(es, s, skipping0, skip0, from, skipping, skip);
    }

    /** The forward scan from `from` has come to `p`, where it skips by `skipping` and `skip`. */
    static ghost predicate Scanning(es: seq<Entry>, s: nat, skipping0: bool, skip0: Option<UserKey>, from: nat,
                                    skipping: bool, skip: Option<UserKey>, p: nat)
    {
      && from <= p <= |es| && Accounted(es, s, skipping, skip, p)
      && (forall i :: p <= i < |es| ==> (Accepts(es, s, skipping, skip, i) <==> Accepts(es, s, skipping0, skip0, i)))
      && (forall i :: from <= i < p ==> !Accepts(es, s, skipping0, skip0, i))
    }

    static lemma ScanStarts(es: seq<Entry>, s: nat, skipping: bool, skip: Option<UserKey>, from: nat)
      requires from <= |es| && Accounted(es, s, skipping, skip, from)
      ensures Scanning(es, s, skipping, skip, from, skipping, skip, from) && (skipping ==> skip.Some?)
    {
    }

    static lemma ScanHits(es: seq<Entry>, s: nat, skipping0: bool, skip0: Option<UserKey>, from: nat,
                          skipping: bool, skip: Option<UserKey>, p: nat)
      requires Scanning(es, s, skipping0, skip0, from, skipping, skip, p) && p < |es| && Seen(es, s, p)
      requires es[p].key.kind.TypeValue? && (skipping ==> skip.Some? && skip.value < es[p].key.user)
      ensures IsFirstAccepted(es, s, skipping0, skip0, from, p) && Live(es, s, p)
    {
      assert Accepts(es, s, skipping, skip, p);
    }

    static lemma ScanMisses(es: seq<Entry>, s: nat, skipping0: bool, skip0: Option<UserKey>, from: nat,
                            skipping: bool, skip: Option<UserKey>)
      requires Scanning(es, s, skipping0, skip0, from, skipping, skip, |es|)
      ensures IsFirstAccepted(es, s, skipping0, skip0, from, |es|)
    {
    }

    // Past an entry that is not visible, or hidden, or a deletion.
    static lemma ScanPasses(es: seq<Entry>, s: nat, skipping0: bool, skip0: Option<UserKey>, from: nat,
                            skipping: bool, skip: Option<UserKey>, p: nat, skipping2: bool, skip2: Option<UserKey>)
      requires Sorted(es) && Scanning(es, s, skipping0, skip0, from, skipping, skip, p) && p < |es|
      requires Seen(es, s, p) && es[p].key.kind.TypeValue? ==> skipping && es[p].key.user <= skip.value
      requires if Seen(es, s, p) && es[p].key.kind.TypeDeletion? then skipping2 && skip2 == Some(es[p].key.user)
               else skipping2 == skipping && skip2 == skip
      ensures Scanning(es, s, skipping0, skip0, from, skipping2, skip2, p + 1)
    {
      if Seen(es, s, p) && es[p].key.kind.TypeDeletion? {
        DeletionSkips(es, s, skipping, skip, p);
      }
    }

    static lemma DeletionSkips(es: seq<Entry>, s: nat, skipping: bool, skip: Option<UserKey>, p: nat)
      requires Sorted(es) && p < |es| && Accounted(es, s, skipping, skip, p)
      requires Seen(es, s, p) && es[p].key.kind.TypeDeletion?
      ensures Accounted(es, s, true, Some(es[p].key.user), p + 1)
      ensures forall i :: p < i < |es| ==>
        (Accepts(es, s, true, Some(es[p].key.user), i) <==> Accepts(es, s, skipping, skip, i))
    {
      forall i | p < i < |es| ensures es[p].key.user <= es[i].key.user {
        UsersOrdered(es, p, i);
      }
      forall j, i | 0 <= j < p + 1 <= i < |es| && Seen(es, s, j) && es[j].key.user == es[i].key.user
        ensures es[i].key.user <= es[p].key.user
      {
        UsersOrdered(es, j, p);
      }
    }

    method Next()
      requires Ok() && valid
      modifies this, iter, iter.children
      ensures Ok() && at == NextLive(iter.merged, sequence, old(at) + 1)
    {
      hide MergingIterator.Ok, Live, Accounted, IsFirstAccepted, JustBefore, UpTo, Sorted;
      ghost var es, s, cur := iter.merged, sequence, at;
      UpToCurrent(es, s, if direction == Forward then at else iter.at, cur, direction == Forward);
      if direction == Reverse {
        direction := Forward;
        if !iter.Valid() {
          iter.SeekToFirst();
        } else {
          iter.Next();
        }
        if !iter.Valid() {
          assert false;
        }
      } else {
        savedKey := Some(iter.CurrentEntry().key.user);
      }
      SkipCurrent(es, s, iter.at, cur);
      ghost var from := iter.at;
      FindNextUserEntry(true, savedKey);
      AcceptedIsNext(es, s, from, cur, at);
    }

    /** Nothing is visible from `p` up to the live entry `cur`. */
    static ghost predicate UpTo(es: seq<Entry>, s: nat, p: nat, cur: nat) {
      p <= cur < |es| && Live(es, s, cur) && forall j :: p <= j < cur ==> !Seen(es, s, j)
    }

    static lemma UpToCurrent(es: seq<Entry>, s: nat, pos: nat, cur: nat, forward: bool)
      requires cur < |es| && Live(es, s, cur)
      requires if forward then pos == cur else JustBefore(es, s, pos, cur)
      ensures UpTo(es, s, if forward then cur else if pos < |es| then pos + 1 else 0, cur)
      ensures !forward && pos < |es| ==> pos + 1 < |es|
    {
    }

    // Past its own user key, the next entry accepted from here is the next live one.
    static lemma SkipCurrent(es: seq<Entry>, s: nat, p: nat, cur: nat)
      requires Sorted(es) && UpTo(es, s, p, cur)
      ensures Accounted(es, s, true, Some(es[cur].key.user), p)
    {
      forall i | p <= i < |es| && Seen(es, s, i) ensures es[cur].key.user <= es[i].key.user {
        UsersOrdered(es, cur, i);
      }
      forall j, i | 0 <= j < p <= i < |es| && Seen(es, s, j) && es[j].key.user == es[i].key.user
        ensures es[i].key.user <= es[cur].key.user
      {
        UsersOrdered(es, j, cur);
      }
    }

    static lemma AcceptedIsNext(es: seq<Entry>, s: nat, p: nat, cur: nat, n: nat)
      requires Sorted(es) && UpTo(es, s, p, cur)
      requires IsFirstAccepted(es, s, true, Some(es[cur].key.user), p, n)
      ensures n == NextLive(es, s, cur + 1)
    {
      forall k | cur < k < |es| && Live(es, s, k) ensures Accepts(es, s, true, Some(es[cur].key.user), k) {
        LiveOnce(es, s, cur, k);
      }
      NextLiveIs(es, s, cur + 1, n);
    }

    /** The loop of FindPrevUserEntry: entries before `from` are still to be scanned, those from there up to `top`
        have been. Index `m` holds the newest entry seen of the last user key scanned, unless that is a deletion. */
    static ghost predicate Scanned(es: seq<Entry>, s: nat, from: nat, top: nat, valueType: ValueType, m: nat)
      requires from <= top <= |es|
    {
      if valueType.TypeDeletion? then forall k :: from <= k < top ==> !Live(es, s, k)
      else
        && from <= m < top && Seen(es, s, m) && es[m].key.kind.TypeValue?
        && (forall k :: from <= k < m ==> !Seen(es, s, k))
        && (forall k :: m < k < top ==> !Live(es, s, k))
    }

    // A visible entry takes over from what has been scanned, unless it belongs to an earlier key than a saved value.
    static lemma ScanStep(es: seq<Entry>, s: nat, p: nat, top: nat, valueType: ValueType, m: nat)
      requires Sorted(es) && p < top <= |es| && Scanned(es, s, p + 1, top, valueType, m)
      requires Seen(es, s, p) && (valueType.TypeValue? ==> es[m].key.user <= es[p].key.user)
      ensures Scanned(es, s, p, top, es[p].key.kind, p)
    {
      forall k | p < k < top ensures !Live(es, s, k) {
        if valueType.TypeValue? && k <= m {
          UsersOrdered(es, p, k);
          UsersOrdered(es, k, m);
        }
      }
    }

    static lemma ScanEnds(es: seq<Entry>, s: nat, from: nat, top: nat, valueType: ValueType, m: nat)
      requires Sorted(es) && from <= top <= |es| && Scanned(es, s, from, top, valueType, m)
      requires from == 0 || (Seen(es, s, from - 1) && valueType.TypeValue? && es[from - 1].key.user < es[m].key.user)
      ensures valueType.TypeDeletion? ==> PrevLive(es, s, top) == |es|
      ensures valueType.TypeValue? ==> PrevLive(es, s, top) == m && Live(es, s, m)
      ensures valueType.TypeValue? ==> JustBefore(es, s, if from == 0 then |es| else from - 1, m)
    {
      if valueType.TypeDeletion? {
        PrevLiveNone(es, s, top);
      } else {
        forall j | 0 <= j < m && es[j].key.user == es[m].key.user ensures !Seen(es, s, j) {
          if from > 0 && j < from { UsersOrdered(es, j, from - 1); }
        }
        PrevLiveIs(es, s, top, m);
      }
    }

    ghost function ScanFrom(): nat
      reads this, iter, iter.children
    {
      if iter.Valid() then iter.at + 1 else 0
    }

    /** Scans backward to the last live entry at or before the inner cursor. */
    method FindPrevUserEntry()
      requires iter.Ok() && direction == Reverse
      modifies this, iter, iter.children
      ensures Ok() && at == PrevLive(iter.merged, sequence, old(ScanFrom()))
    {
      hide MergingIterator.Ok, Live, Scanned, JustBefore, PrevLive, Sorted;
      var valueType := TypeDeletion;
      ghost var es, s, top := iter.merged, sequence, ScanFrom();
      ghost var m: nat := 0;
      ScanNothing(es, s, top, m);
      while iter.Valid()
        invariant iter.Ok() && direction == Reverse && ScanFrom() <= top
        invariant Scanned(es, s, ScanFrom(), top, valueType, m)
        invariant valueType.TypeValue? ==> m < |es| && savedKey == Some(es[m].key.user) && savedValue == es[m].value
        decreases ScanFrom()
      {
        var e := iter.CurrentEntry();
        ghost var p := iter.at;
        if e.key.num <= sequence {
          if valueType != TypeDeletion && e.key.user < savedKey.value {
            break;
          }
          ScanStep(es, s, p, top, valueType, m);
          valueType := e.key.kind;
          m := p;
          Save(e);
        } else {
          ScanUnseen(es, s, p, top, valueType, m);
        }
        iter.Prev();
      }
      ScanEnds(es, s, ScanFrom(), top, valueType, m);
      if valueType == TypeDeletion {
        valid := false;
        savedKey := None;
        savedValue := "";
        direction := Forward;
        at := |es|;
      } else {
        valid := true;
        at := m;
      }
    }

    method Save(e: Entry)
      modifies this`savedKey, this`savedValue
      ensures e.key.kind.TypeValue? ==> savedKey == Some(e.key.user) && savedValue == e.value
    {
      if e.key.kind == TypeDeletion {
        savedKey := None;
        savedValue := "";
      } else {
        savedKey := Some(e.key.user);
        savedValue := e.value;
      }
    }

    static lemma ScanNothing(es: seq<Entry>, s: nat, top: nat, m: nat)
      requires top <= |es|
      ensures Scanned(es, s, top, top, TypeDeletion, m)
    {
    }

    static lemma ScanUnseen(es: seq<Entry>, s: nat, p: nat, top: nat, valueType: ValueType, m: nat)
      requires p < top <= |es| && Scanned(es, s, p + 1, top, valueType, m) && !Seen(es, s, p)
      ensures Scanned(es, s, p, top, valueType, m)
    {
    }

    method Prev()
      requires Ok() && valid
      modifies this, iter, iter.children
      ensures Ok() && at == PrevLive(iter.merged, sequence, old(at))
    {
      hide MergingIterator.Ok, Live, JustBefore, PrevLive, Sorted;
      ghost var es, s, cur := iter.merged, sequence, at;
      if direction == Forward {
        var found := BeforeCurrentKey();
        SameKeyDead(es, s, if found then iter.at + 1 else 0, cur);
        if !found {
          valid := false;
          savedKey := None;
          savedValue := "";
          PrevLiveNone(es, s, cur);
          at := |es|;
          return;
        }
        direction := Reverse;
      } else {
        NothingBetween(es, s, iter.at, cur);
      }
      SameBelow(es, s, ScanFrom(), cur);
      FindPrevUserEntry();
    }

    // Back over the entries of the current user key; false if there is none before them.
    method BeforeCurrentKey() returns (found: bool)
      requires Ok() && valid && direction == Forward
      modifies this`savedKey, iter, iter.children
      ensures iter.Ok() && found == iter.Valid() && (found ==> iter.at < at)
      ensures forall k :: (if found then iter.at else -1) < k < at ==>
        iter.merged[k].key.user == iter.merged[at].key.user
    {
      hide MergingIterator.Ok, Live, JustBefore;
      ghost var es, cur := iter.merged, at;
      savedKey := Some(iter.CurrentEntry().key.user);
      while true
        invariant iter.Ok() && iter.Valid() && iter.at <= cur && savedKey == Some(es[cur].key.user)
        invariant forall k :: iter.at <= k < cur ==> es[k].key.user == es[cur].key.user
        decreases iter.at
      {
        UsersOrdered(es, iter.at, cur);
        iter.Prev();
        if !iter.Valid() {
          return false;
        }
        UsersOrdered(es, iter.at, cur);
        if iter.CurrentEntry().key.user < savedKey.value {
          return true;
        }
      }
    }

    // Entries before a live one of the same user key are not visible.
    static lemma SameKeyDead(es: seq<Entry>, s: nat, from: nat, cur: nat)
      requires from <= cur < |es| && Live(es, s, cur)
      requires forall k :: from <= k < cur ==> es[k].key.user == es[cur].key.user
      ensures forall k :: from <= k < cur ==> !Live(es, s, k)
    {
    }

    static lemma NothingBetween(es: seq<Entry>, s: nat, pos: nat, cur: nat)
      requires cur < |es| && JustBefore(es, s, pos, cur)
      ensures pos < |es| ==> pos < cur
      ensures forall k :: (if pos < |es| then pos + 1 else 0) <= k < cur ==> !Live(es, s, k)
    {
    }

    // Nothing live between the scan and the current entry.
    static lemma SameBelow(es: seq<Entry>, s: nat, from: nat, cur: nat)
      requires from <= cur < |es| && forall k :: from <= k < cur ==> !Live(es, s, k)
      ensures PrevLive(es, s, from) == PrevLive(es, s, cur)
    {
      PrevLiveProps(es, s, from);
      if PrevLive(es, s, from) < |es| {
        PrevLiveIs(es, s, cur, PrevLive(es, s, from));
      } else {
        PrevLiveNone(es, s, cur);
      }
    }

    /** To the first live key at or after `target`. */
    method Seek(target: UserKey)
      requires Ok()
      modifies this, iter, iter.children
      ensures Ok()
      ensures at <= |iter.merged| && forall k :: 0 <= k < |iter.merged| && Live(iter.merged, sequence, k) ==>
        (at <= k <==> target <= iter.merged[k].key.user)
    {
      hide MergingIterator.Ok, Live, Accounted, IsFirstAccepted, JustBefore;
      direction := Forward;
      savedValue := "";
      savedKey := None;  // the lookup key is built here
      iter.Seek(LookupKey(target, sequence));
      ghost var from := iter.at;
      SoughtPosition(iter.merged, sequence, target, from);
      if iter.Valid() {
        FindNextUserEntry(false, savedKey);
      } else {
        valid := false;
        at := |iter.merged|;
      }
      LiveFrom(iter.merged, sequence, target, from, at);
    }

    static lemma SoughtPosition(es: seq<Entry>, s: nat, target: UserKey, p: nat)
      requires Sorted(es) && p <= |es|
      requires forall i :: 0 <= i < p ==> Less(es[i].key, LookupKey(target, s))
      requires forall i :: p <= i < |es| ==> !Less(es[i].key, LookupKey(target, s))
      ensures Accounted(es, s, false, None, p)
      ensures forall k :: 0 <= k < |es| && Live(es, s, k) ==> (p <= k <==> target <= es[k].key.user)
    {
    }

    static lemma LiveFrom(es: seq<Entry>, s: nat, target: UserKey, p: nat, n: nat)
      requires forall k :: 0 <= k < |es| && Live(es, s, k) ==> (p <= k <==> target <= es[k].key.user)
      requires IsFirstAccepted(es, s, false, None, p, n) || n == p == |es|
      ensures forall k :: 0 <= k < |es| && Live(es, s, k) ==> (n <= k <==> target <= es[k].key.user)
    {
      forall k | p <= k < |es| && Live(es, s, k) ensures Accepts(es, s, false, None, k) {
      }
    }

    method SeekToFirst()
      requires Ok()
      modifies this, iter, iter.children
      ensures Ok() && at == NextLive(iter.merged, sequence, 0)
    {
      direction := Forward;
      savedValue := "";
      iter.SeekToFirst();
      if iter.Valid() {
        ghost var k := savedKey;
        FindNextUserEntry(false, savedKey);
        forall i | 0 <= i < |iter.merged| && Live(iter.merged, sequence, i)
          ensures Accepts(iter.merged, sequence, false, k, i)
        {
        }
        NextLiveIs(iter.merged, sequence, 0, at);
      } else {
        valid := false;
        at := |iter.merged|;
      }
    }

    method SeekToLast()
      requires Ok()
      modifies this, iter, iter.children
      ensures Ok() && at == PrevLive(iter.merged, sequence, |iter.merged|)
    {
      hide MergingIterator.Ok, Live, JustBefore, PrevLive;
      direction := Reverse;
      savedValue := "";
      iter.SeekToLast();
      FindPrevUserEntry();
    }
  }
}
