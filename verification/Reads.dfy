/** What a read at a snapshot means, for any finite set of entries: the naive search that every layer refines. */
module Reads {
  import opened Keys

  ghost predicate Visible(e: Entry, u: UserKey, s: nat) {
    e.key.user == u && e.key.num <= s
  }

  ghost predicate IsNewest(all: set<Entry>, u: UserKey, s: nat, e: Entry) {
    && e in all
    && Visible(e, u, s)
    && forall x :: x in all && Visible(x, u, s) ==> x.key.num <= e.key.num
  }

  ghost predicate HasVisible(all: set<Entry>, u: UserKey, s: nat) {
    exists e :: e in all && Visible(e, u, s)
  }

  /** No two entries carry the same sequence number. */
  ghost predicate Distinct(all: set<Entry>) {
    forall x, y :: x in all && y in all && x.key.num == y.key.num ==> x == y
  }

  ghost function Newest(all: set<Entry>, u: UserKey, s: nat): (e: Entry)
    requires HasVisible(all, u, s)
    ensures IsNewest(all, u, s, e)
  {
    NewestExists(all, u, s);
    var e :| IsNewest(all, u, s, e);
    e
  }

  /** The value of `u` at snapshot `s`: that of the entry with the greatest sequence number not above `s`. */
  ghost function Read(all: set<Entry>, u: UserKey, s: nat): ReadResult {
    if HasVisible(all, u, s) then ResultOf(Newest(all, u, s)) else NotFound
  }

  lemma {:induction false} NewestExists(all: set<Entry>, u: UserKey, s: nat)
    requires HasVisible(all, u, s)
    ensures exists e :: IsNewest(all, u, s, e)
    decreases all
  {
    var e :| e in all && Visible(e, u, s);
    var rest := all - {e};
    if HasVisible(rest, u, s) {
      NewestExists(rest, u, s);
      var f :| IsNewest(rest, u, s, f);
      var g := if f.key.num < e.key.num then e else f;
      forall x | x in all && Visible(x, u, s) ensures x.key.num <= g.key.num {
        if x != e { assert x in rest; }
      }
      assert IsNewest(all, u, s, g);
    } else {
      assert forall x :: x in all ==> x == e || x in rest;
      assert IsNewest(all, u, s, e);
    }
  }

  lemma ReadIs(all: set<Entry>, u: UserKey, s: nat, e: Entry)
    requires Distinct(all)
    requires IsNewest(all, u, s, e)
    ensures Read(all, u, s) == ResultOf(e)
  {
    assert HasVisible(all, u, s);
    assert Newest(all, u, s).key.num == e.key.num;
  }
}
