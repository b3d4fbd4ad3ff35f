/** The entries of a sorted list that a reader at a snapshot sees: the newest visible entry of each user key, where
    that entry is a value. */
module LiveEntries {
  import opened Options
  import opened Keys
  import opened Reads
  import opened Tables

  predicate Seen(es: seq<Entry>, s: nat, i: nat)
    requires i < |es|
  {
    es[i].key.num <= s
  }

  /** The newest visible entry of its user key, and not a deletion. */
  ghost predicate Live(es: seq<Entry>, s: nat, i: nat)
    requires i < |es|
  {
    && Seen(es, s, i) && es[i].key.kind.TypeValue?
    && forall j :: 0 <= j < i && es[j].key.user == es[i].key.user ==> !Seen(es, s, j)
  }

  /** The first live index at or after `i`, or the length of the list. */
  ghost function NextLive(es: seq<Entry>, s: nat, i: nat): nat
    requires i <= |es|
    decreases |es| - i
  {
    if i == |es| || Live(es, s, i) then i else NextLive(es, s, i + 1)
  }

  /** The last live index before `i`, or the length of the list. */
  ghost function PrevLive(es: seq<Entry>, s: nat, i: nat): nat
    requires i <= |es|
  {
    if i == 0 then |es| else if Live(es, s, i - 1) then i - 1 else PrevLive(es, s, i - 1)
  }

  lemma {:induction false} NextLiveIs(es: seq<Entry>, s: nat, i: nat, n: nat)
    requires i <= n <= |es| && (n < |es| ==> Live(es, s, n))
    requires forall k :: i <= k < n ==> !Live(es, s, k)
    ensures NextLive(es, s, i) == n
    decreases n - i
  {
    if i < n {
      NextLiveIs(es, s, i + 1, n);
    }
  }

  lemma {:induction false} NextLiveProps(es: seq<Entry>, s: nat, i: nat)
    requires i <= |es|
    ensures i <= NextLive(es, s, i) <= |es|
    ensures NextLive(es, s, i) < |es| ==> Live(es, s, NextLive(es, s, i))
    ensures forall k :: i <= k < NextLive(es, s, i) ==> !Live(es, s, k)
    decreases |es| - i
  {
    if i < |es| && !Live(es, s, i) {
      NextLiveProps(es, s, i + 1);
    }
  }

  lemma {:induction false} PrevLiveIs(es: seq<Entry>, s: nat, i: nat, n: nat)
    requires n < i <= |es| && Live(es, s, n)
    requires forall k :: n < k < i ==> !Live(es, s, k)
    ensures PrevLive(es, s, i) == n
  {
    if n < i - 1 {
      PrevLiveIs(es, s, i - 1, n);
    }
  }

  lemma {:induction false} PrevLiveNone(es: seq<Entry>, s: nat, i: nat)
    requires i <= |es| && forall k :: 0 <= k < i ==> !Live(es, s, k)
    ensures PrevLive(es, s, i) == |es|
  {
    if i > 0 {
      PrevLiveNone(es, s, i - 1);
    }
  }

  lemma {:induction false} PrevLiveProps(es: seq<Entry>, s: nat, i: nat)
    requires i <= |es|
    ensures var n := PrevLive(es, s, i);
      if n < |es| then n < i && Live(es, s, n) && forall k :: n < k < i ==> !Live(es, s, k)
      else forall k :: 0 <= k < i ==> !Live(es, s, k)
    ensures PrevLive(es, s, i) <= |es|
  {
    if i > 0 && !Live(es, s, i - 1) {
      PrevLiveProps(es, s, i - 1);
    }
  }

  // ---------- the list of live entries is the map of live values ----------

  lemma UsersOrdered(es: seq<Entry>, i: nat, j: nat)
    requires Sorted(es) && i <= j < |es|
    ensures es[i].key.user <= es[j].key.user
    ensures es[i].key.user == es[j].key.user ==> es[i].key.num >= es[j].key.num
  {
    assert i < j ==> Less(es[i].key, es[j].key);
  }

  /** Each live key appears once. */
  lemma LiveOnce(es: seq<Entry>, s: nat, i: nat, j: nat)
    requires Sorted(es) && i < j < |es| && Live(es, s, i) && Live(es, s, j)
    ensures es[i].key.user < es[j].key.user
  {
    UsersOrdered(es, i, j);
  }

  /** A live entry is what a reader finds. */
  lemma LiveIsRead(es: seq<Entry>, s: nat, i: nat)
    requires Sorted(es) && Distinct(ToSet(es)) && i < |es| && Live(es, s, i)
    ensures Read(ToSet(es), es[i].key.user, s) == Found(es[i].value)
  {
    var e := es[i];
    assert e in ToSet(es);
    forall x | x in ToSet(es) && Visible(x, e.key.user, s) ensures x.key.num <= e.key.num {
      var j :| 0 <= j < |es| && es[j] == x;
      if i <= j { UsersOrdered(es, i, j); }
    }
    ReadIs(ToSet(es), e.key.user, s, e);
  }

  /** What a reader finds is a live entry. */
  lemma ReadIsLive(es: seq<Entry>, s: nat, u: UserKey) returns (i: nat)
    requires Sorted(es) && Distinct(ToSet(es)) && Read(ToSet(es), u, s).Found?
    ensures i < |es| && Live(es, s, i) && es[i].key.user == u
  {
    var n := Newest(ToSet(es), u, s);
    i :| 0 <= i < |es| && es[i] == n;
    forall j | 0 <= j < i && es[j].key.user == u ensures !Seen(es, s, j) {
      assert es[j] in ToSet(es) && Less(es[j].key, es[i].key);
    }
  }

  /** `u` is the least live key above `low`, in terms of what readers find. */
  ghost predicate IsSuccessor(all: set<Entry>, s: nat, low: UserKey, u: UserKey) {
    && low < u && Read(all, u, s).Found?
    && forall w :: low < w < u ==> Read(all, w, s) == NotFound
  }

  /** Stepping to the next live entry is stepping to the next key of the map of live values. */
  lemma NextIsSuccessor(es: seq<Entry>, s: nat, i: nat)
    requires Sorted(es) && Distinct(ToSet(es)) && i < |es| && Live(es, s, i)
    ensures var n := NextLive(es, s, i + 1);
      if n < |es| then IsSuccessor(ToSet(es), s, es[i].key.user, es[n].key.user)
      else forall w :: es[i].key.user < w ==> Read(ToSet(es), w, s) == NotFound
  {
    var n := NextLive(es, s, i + 1);
    NextLiveProps(es, s, i + 1);
    if n < |es| {
      LiveOnce(es, s, i, n);
      LiveIsRead(es, s, n);
    }
    forall w | es[i].key.user < w && (n < |es| ==> w < es[n].key.user) ensures Read(ToSet(es), w, s) == NotFound {
      if Read(ToSet(es), w, s).Found? {
        var k := ReadIsLive(es, s, w);
        if k <= i { UsersOrdered(es, k, i); } else if n <= k { UsersOrdered(es, n, k); }
      }
    }
  }

  ghost predicate IsPredecessor(all: set<Entry>, s: nat, high: UserKey, u: UserKey) {
    && u < high && Read(all, u, s).Found?
    && forall w :: u < w < high ==> Read(all, w, s) == NotFound
  }

  lemma PrevIsPredecessor(es: seq<Entry>, s: nat, i: nat)
    requires Sorted(es) && Distinct(ToSet(es)) && i < |es| && Live(es, s, i)
    ensures PrevLive(es, s, i) <= |es|
    ensures var n := PrevLive(es, s, i);
      if n < |es| then IsPredecessor(ToSet(es), s, es[i].key.user, es[n].key.user)
      else forall w :: w < es[i].key.user ==> Read(ToSet(es), w, s) == NotFound
  {
    var n := PrevLive(es, s, i);
    PrevLiveProps(es, s, i);
    if n < |es| {
      LiveOnce(es, s, n, i);
      LiveIsRead(es, s, n);
    }
    forall w | w < es[i].key.user && (n < |es| ==> es[n].key.user < w) ensures Read(ToSet(es), w, s) == NotFound {
      if Read(ToSet(es), w, s).Found? {
        var k := ReadIsLive(es, s, w);
        if i <= k { UsersOrdered(es, i, k); } else if k <= n < |es| { UsersOrdered(es, k, n); }
      }
    }
  }

  /** Going forward and back again, or back and forward, returns to the same live entry. */
  lemma ThereAndBack(es: seq<Entry>, s: nat, i: nat)
    requires i < |es| && Live(es, s, i)
    ensures var n := NextLive(es, s, i + 1); n <= |es| && (n < |es| ==> PrevLive(es, s, n) == i)
    ensures var p := PrevLive(es, s, i); p <= |es| && (p < |es| ==> NextLive(es, s, p + 1) == i)
  {
    NextLiveProps(es, s, i + 1);
    PrevLiveProps(es, s, i);
    var n, p := NextLive(es, s, i + 1), PrevLive(es, s, i);
    if n < |es| { PrevLiveIs(es, s, n, i); }
    if p < |es| { NextLiveIs(es, s, p + 1, i); }
  }

  // ---------- what the two scans of the iterator rely on ----------

  /** Live, and past the key to skip. */
  ghost predicate Accepts(es: seq<Entry>, s: nat, skipping: bool, skip: Option<UserKey>, i: nat)
    requires i < |es|
  {
    Live(es, s, i) && (skipping ==> skip.Some? && es[i].key.user > skip.value)
  }

  ghost predicate IsFirstAccepted(es: seq<Entry>, s: nat, skipping: bool, skip: Option<UserKey>, from: nat, n: nat) {
    && from <= n <= |es|
    && (n < |es| ==> Accepts(es, s, skipping, skip, n))
    && forall i :: from <= i < n ==> !Accepts(es, s, skipping, skip, i)
  }

  /** A forward scan may stand at `p`: what has been seen before it hides later entries by the key to skip alone. */
  ghost predicate Accounted(es: seq<Entry>, s: nat, skipping: bool, skip: Option<UserKey>, p: nat)
    requires p <= |es|
  {
    && (skipping ==> skip.Some? && forall i :: p <= i < |es| && Seen(es, s, i) ==> skip.value <= es[i].key.user)
    && forall j, i :: 0 <= j < p <= i < |es| && Seen(es, s, j) && es[j].key.user == es[i].key.user ==>
         skipping && es[i].key.user <= skip.value
  }

  /** No visible entry lies between `pos` and `at`; `pos` itself is visible and has a smaller user key, if it is an
      index at all. */
  ghost predicate JustBefore(es: seq<Entry>, s: nat, pos: nat, at: nat)
    requires at < |es|
  {
    if pos < |es| then
      pos < at && Seen(es, s, pos) && es[pos].key.user < es[at].key.user
      && forall j :: pos < j < at ==> !Seen(es, s, j)
    else
      forall j :: 0 <= j < at ==> !Seen(es, s, j)
  }
}
