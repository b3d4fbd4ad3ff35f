/** Blocks of a table: entries with their keys cut to what differs from the key before, and an array of restart points
    where they are whole. */
module Blocks {
  import opened Options
  import opened Coding

  datatype Pair = Pair(key: Bytes, value: Bytes)

  const WORD: nat := 0x1_0000_0000

  // ---------- one entry ----------

  /** The entry of a pair whose key shares its first `shared` bytes with the key before. */
  function Entry(shared: nat, p: Pair): (r: Bytes)
    requires shared <= |p.key|
    ensures |r| >= 3
  {
    Head(shared, p) + (p.key[shared..] + p.value)
  }

  function Head(shared: nat, p: Pair): (r: Bytes)
    requires shared <= |p.key|
    ensures |r| >= 3
  {
    Varint(shared) + Varint(|p.key| - shared) + Varint(|p.value|)
  }

  /** The three lengths at the start of an entry, and how many bytes they take. */
  datatype Header = Header(shared: nat, nonShared: nat, valueLength: nat, size: nat)

  function DecodeEntry(b: Bytes): (r: Option<Header>)
    ensures r.Some? ==> r.value.size >= 3
  {
    if |b| < 3 then None
    else
      match DecodeHeader(b)
      case None => None
      case Some(h) => if |b| - h.size < (h.nonShared + h.valueLength) % WORD then None else Some(h)
  }

  // A word of at most 32 bits; the fifth byte may hold bits that are lost.
  function DecodeHeader(b: Bytes): (r: Option<Header>)
    requires |b| >= 3
    ensures r.Some? ==> r.value.size >= 3
  {
    if b[0] < 128 && b[1] < 128 && b[2] < 128 then Some(Header(b[0], b[1], b[2], 3))
    else
      match ParseVarint(b, 5)
      case Bad => None
      case Ok(shared, b1) =>
        match ParseVarint(b1, 5)
        case Bad => None
        case Ok(nonShared, b2) =>
          match ParseVarint(b2, 5)
          case Bad => None
          case Ok(valueLength, b3) => Some(Header(shared % WORD, nonShared % WORD, valueLength % WORD, |b| - |b3|))
  }

  predicate Fits(p: Pair) {
    |p.key| + |p.value| < WORD
  }

  lemma Pow128Five()
    ensures Pow128(5) >= WORD
  {
    assert Pow128(3) == 0x20_0000;
  }

  lemma {:induction false} VarintLong(n: nat)
    ensures Varint(n)[0] < 128 ==> Varint(n) == [n]
  {
  }

  /** The header is read back, on the short way and on the long one. */
  lemma HeaderRoundTrip(shared: nat, p: Pair, rest: Bytes)
    requires shared <= |p.key| && Fits(p)
    ensures DecodeHeader(Head(shared, p) + rest)
      == Some(Header(shared, |p.key| - shared, |p.value|, |Head(shared, p)|))
  {
    hide ParseVarint, Varint, Pow128;
    var a, b, c := Varint(shared), Varint(|p.key| - shared), Varint(|p.value|);
    var all := Head(shared, p) + rest;
    Pow128Five();
    VarintRoundTrip(shared, 5, b + (c + rest));
    VarintRoundTrip(|p.key| - shared, 5, c + rest);
    VarintRoundTrip(|p.value|, 5, rest);
    assert all == a + (b + (c + rest));
    if all[0] < 128 && all[1] < 128 && all[2] < 128 {
      VarintLong(shared);
      VarintLong(|p.key| - shared);
      VarintLong(|p.value|);
      assert all[0] == a[0] && a == [shared];
      assert all[1] == b[0] && b == [|p.key| - shared];
      assert all[2] == c[0];
    }
  }

  lemma EntryRoundTrip(shared: nat, p: Pair, rest: Bytes)
    requires shared <= |p.key| && Fits(p)
    ensures DecodeEntry(Entry(shared, p) + rest)
      == Some(Header(shared, |p.key| - shared, |p.value|, |Head(shared, p)|))
  {
    hide DecodeHeader, Head;
    var tail := p.key[shared..] + p.value;
    HeaderRoundTrip(shared, p, tail + rest);
    assert Entry(shared, p) + rest == Head(shared, p) + (tail + rest);
  }

  lemma EntryParts(shared: nat, p: Pair)
    requires shared <= |p.key|
    ensures var h, e := |Head(shared, p)|, Entry(shared, p);
      && |e| == h + |p.key| - shared + |p.value|
      && e[h..h + |p.key| - shared] == p.key[shared..] && e[h + |p.key| - shared..] == p.value
  {
    hide Head;
  }

  // ---------- the entries of a block ----------

  ghost predicate EntryAt(data: Bytes, from: nat, to: nat, shared: nat, p: Pair) {
    && shared <= |p.key| && Fits(p) && from < to <= |data|
    && data[from..to] == Entry(shared, p)
  }

  /** What entry `i` leaves out is there in the key before. */
  ghost predicate SharesWith(pairs: seq<Pair>, i: nat, shared: nat)
    requires i < |pairs|
  {
    shared > 0 ==>
      i > 0 && shared <= |pairs[i - 1].key| && shared <= |pairs[i].key|
      && pairs[i - 1].key[..shared] == pairs[i].key[..shared]
  }

  /** `data` holds the pairs one after another; entry `i` starts at `offs[i]`. */
  ghost predicate Layout(data: Bytes, pairs: seq<Pair>, offs: seq<nat>, shared: seq<nat>) {
    && |shared| == |pairs| && |offs| == |pairs| + 1 && offs[0] == 0 && offs[|pairs|] == |data|
    && (forall i :: 0 <= i < |pairs| ==> EntryAt(data, offs[i], offs[i + 1], shared[i], pairs[i]))
    && (forall i :: 0 <= i < |pairs| ==> SharesWith(pairs, i, shared[i]))
  }

  /** The restart points are the offsets of whole entries, the first one at the start of the block. */
  ghost predicate RestartsAt(restarts: seq<nat>, rs: seq<nat>, offs: seq<nat>, shared: seq<nat>) {
    && |restarts| == |rs| > 0 && rs[0] == 0 && |offs| == |shared| + 1
    && (forall k :: 0 <= k < |rs| ==> rs[k] < |offs| && restarts[k] == offs[rs[k]])
    && (forall k :: 0 < k < |rs| ==> rs[k] < |shared|)
    && (forall k :: 0 <= k < |rs| && rs[k] < |shared| ==> shared[rs[k]] == 0)
    && (forall j, k :: 0 <= j < k < |rs| ==> rs[j] < rs[k])
  }

  lemma {:induction false} OffsAscend(data: Bytes, pairs: seq<Pair>, offs: seq<nat>, shared: seq<nat>, i: nat, j: nat)
    requires Layout(data, pairs, offs, shared) && i <= j <= |pairs|
    ensures offs[i] + (j - i) <= offs[j]
  {
    if i < j {
      OffsAscend(data, pairs, offs, shared, i, j - 1);
      assert EntryAt(data, offs[j - 1], offs[j - 1 + 1], shared[j - 1], pairs[j - 1]);
    }
  }

  lemma LayoutAppend(data: Bytes, pairs: seq<Pair>, offs: seq<nat>, shared: seq<nat>, s: nat, p: Pair)
    requires Layout(data, pairs, offs, shared) && s <= |p.key| && Fits(p)
    requires SharesWith(pairs + [p], |pairs|, s)
    ensures var more := data + Entry(s, p);
      Layout(more, pairs + [p], offs + [|more|], shared + [s])
  {
    hide Entry, Fits;
    var more := data + Entry(s, p);
    var pairs2, offs2, shared2 := pairs + [p], offs + [|more|], shared + [s];
    forall i | 0 <= i < |pairs2| ensures EntryAt(more, offs2[i], offs2[i + 1], shared2[i], pairs2[i]) {
      if i < |pairs| {
        assert EntryAt(data, offs[i], offs[i + 1], shared[i], pairs[i]);
        assert more[offs[i]..offs[i + 1]] == data[offs[i]..offs[i + 1]];
      } else {
        assert more[|data|..] == Entry(s, p);
      }
    }
    forall i | 0 <= i < |pairs2| ensures SharesWith(pairs2, i, shared2[i]) {
      if i < |pairs| {
        assert SharesWith(pairs, i, shared[i]);
      }
    }
  }

  lemma RestartsAppend(restarts: seq<nat>, rs: seq<nat>, offs: seq<nat>, shared: seq<nat>, s: nat, end: nat,
                       restart: bool)
    requires RestartsAt(restarts, rs, offs, shared) && (restart || |shared| == 0 ==> s == 0)
    requires restart ==> |shared| > 0
    requires forall k :: 0 <= k < |rs| && rs[k] == |shared| ==> s == 0
    requires restart ==> forall k :: 0 <= k < |rs| ==> rs[k] < |shared|
    ensures RestartsAt(if restart then restarts + [offs[|shared|]] else restarts,
      if restart then rs + [|shared|] else rs, offs + [end], shared + [s])
    ensures var rs2 := if restart then rs + [|shared|] else rs; forall k :: 0 <= k < |rs2| ==> rs2[k] < |shared| + 1
  {
  }

  // ---------- arrays of words ----------

  function Words(restarts: seq<nat>): (r: Bytes)
    ensures |r| == 4 * |restarts|
  {
    if restarts == [] then [] else Words(restarts[..|restarts| - 1]) + Fixed(restarts[|restarts| - 1], 4)
  }

  lemma {:induction false} WordsAt(restarts: seq<nat>, k: nat)
    requires k < |restarts|
    ensures Words(restarts)[4 * k..4 * k + 4] == Fixed(restarts[k], 4)
  {
    hide Fixed;
    var m := |restarts| - 1;
    var front := Words(restarts[..m]);
    if k < m {
      WordsAt(restarts[..m], k);
      assert Words(restarts)[4 * k..4 * k + 4] == front[4 * k..4 * k + 4];
    } else {
      assert Words(restarts)[4 * m..] == Fixed(restarts[m], 4);
    }
  }

  /** The contents of a finished block. */
  function Contents(data: Bytes, restarts: seq<nat>): Bytes {
    data + Words(restarts) + Fixed(|restarts|, 4)
  }

  // ---------- the builder ----------

  /** The state of a builder that has been given `pairs`. */
  ghost predicate Built(data: Bytes, restarts: seq<nat>, counter: nat, lastKey: Bytes, pairs: seq<Pair>,
                        offs: seq<nat>, shared: seq<nat>, rs: seq<nat>, interval: nat)
  {
    && counter <= interval
    && Layout(data, pairs, offs, shared) && RestartsAt(restarts, rs, offs, shared)
    && (if pairs == [] then lastKey == [] && counter == 0 else lastKey == pairs[|pairs| - 1].key && counter > 0)
    && (pairs != [] ==> forall k :: 0 <= k < |rs| ==> rs[k] < |pairs|)
  }

  lemma BuiltCounter(data: Bytes, restarts: seq<nat>, counter: nat, lastKey: Bytes, pairs: seq<Pair>, offs: seq<nat>,
                     shared: seq<nat>, rs: seq<nat>, interval: nat)
    requires Built(data, restarts, counter, lastKey, pairs, offs, shared, rs, interval)
    ensures counter <= interval && |shared| == |pairs| && |offs| == |pairs| + 1 && offs[|pairs|] == |data|
  {
    LayoutParts(data, pairs, offs, shared);
  }

  // One pair more, which keeps `n` bytes of the last key, and none if a restart is due.
  lemma BuiltMore(data: Bytes, restarts: seq<nat>, counter: nat, lastKey: Bytes, pairs: seq<Pair>, offs: seq<nat>,
                  shared: seq<nat>, rs: seq<nat>, interval: nat, n: nat, p: Pair)
    requires Built(data, restarts, counter, lastKey, pairs, offs, shared, rs, interval) && Fits(p) && interval > 0
    requires n <= |lastKey| && n <= |p.key| && lastKey[..n] == p.key[..n] && (counter == interval ==> n == 0)
    requires |shared| == |pairs| && |offs| == |pairs| + 1
    ensures lastKey[..n] + p.key[n..] == p.key
    ensures var more, restart := data + Entry(n, p), counter == interval;
      Built(more, if restart then restarts + [|data|] else restarts, if restart then 1 else counter + 1, p.key,
            pairs + [p], offs + [|more|], shared + [n], if restart then rs + [|shared|] else rs, interval)
  {
    hide Layout, RestartsAt, Entry, Fits, SharesWith;
    LayoutParts(data, pairs, offs, shared);
    SharesLast(pairs, p, n, lastKey);
    LayoutAppend(data, pairs, offs, shared, n, p);
    RestartsAppend(restarts, rs, offs, shared, n, |data + Entry(n, p)|, counter == interval);
  }

  class BlockBuilder {
    const restartInterval: nat
    var buffer: Bytes
    var restarts: seq<nat>
    var counter: nat
    var finished: bool
    var lastKey: Bytes
    ghost var pairs: seq<Pair>
    ghost var offs: seq<nat>
    ghost var shared: seq<nat>
    ghost var rs: seq<nat>

    ghost predicate Valid()
      reads this
    {
      restartInterval > 0 && Built(buffer, restarts, counter, lastKey, pairs, offs, shared, rs, restartInterval)
    }

    constructor (restartInterval: nat)
      requires restartInterval > 0
      ensures Valid() && pairs == [] && !finished && this.restartInterval == restartInterval
    {
      this.restartInterval := restartInterval;
      buffer, restarts, counter, finished, lastKey := [], [0], 0, false, [];
      pairs, offs, shared, rs := [], [0], [], [0];
    }

    // How many bytes the key has in common with the one before.
    method Common(key: Bytes) returns (n: nat)
      ensures n <= |lastKey| && n <= |key| && lastKey[..n] == key[..n]
      ensures n < |lastKey| && n < |key| ==> lastKey[n] != key[n]
    {
      n := 0;
      while n < |lastKey| && n < |key| && lastKey[n] == key[n]
        invariant n <= |lastKey| && n <= |key| && lastKey[..n] == key[..n]
        decreases |key| - n
      {
        assert lastKey[..n + 1] == lastKey[..n] + [lastKey[n]] && key[..n + 1] == key[..n] + [key[n]];
        n := n + 1;
      }
    }

    /** One pair more. */
    method Add(key: Bytes, value: Bytes)
      requires Valid() && !finished && Fits(Pair(key, value))
      modifies this
      ensures Valid() && !finished && pairs == old(pairs) + [Pair(key, value)]
    {
      hide Built, Entry;
      var n := 0;
      ghost var restart := counter == restartInterval;
      BuiltCounter(buffer, restarts, counter, lastKey, pairs, offs, shared, rs, restartInterval);
      if counter < restartInterval {
        n := Common(key);
      } else {
        restarts := restarts + [|buffer|];
        counter := 0;
      }
      BuiltMore(buffer, old(restarts), old(counter), lastKey, pairs, offs, shared, rs, restartInterval, n,
                Pair(key, value));
      var delta := key[n..];
      buffer := buffer + Entry(n, Pair(key, value));
      lastKey := lastKey[..n] + delta;
      counter := counter + 1;
      pairs := pairs + [Pair(key, value)];
      offs := offs + [|buffer|];
      if restart {
        rs := rs + [|shared|];
      }
      shared := shared + [n];
    }

    /** The block: entries, restart points, and how many of those there are. */
    method Finish() returns (contents: Bytes)
      requires Valid() && !finished
      modifies this`buffer, this`finished
      ensures contents == Contents(old(buffer), restarts) && finished
    {
      hide Words, Fixed;
      ghost var data := buffer;
      assert restarts[..0] == [];
      WordsNone();
      assert data + [] == data;
      for i := 0 to |restarts|
        invariant buffer == data + Words(restarts[..i])
      {
        WordsSnoc(restarts, i);
        Assoc(data, Words(restarts[..i]), Fixed(restarts[i], 4));
        buffer := buffer + Fixed(restarts[i], 4);
      }
      assert restarts[..|restarts|] == restarts;
      buffer := buffer + Fixed(|restarts|, 4);
      finished := true;
      return buffer;
    }
  }

  lemma WordsNone()
    ensures Words([]) == []
  {
  }

  lemma WordsSnoc(restarts: seq<nat>, i: nat)
    requires i < |restarts|
    ensures Words(restarts[..i + 1]) == Words(restarts[..i]) + Fixed(restarts[i], 4)
  {
    hide Fixed;
    assert restarts[..i + 1][..i] == restarts[..i];
  }

  lemma LayoutParts(data: Bytes, pairs: seq<Pair>, offs: seq<nat>, shared: seq<nat>)
    requires Layout(data, pairs, offs, shared)
    ensures |shared| == |pairs| && |offs| == |pairs| + 1 && offs[|pairs|] == |data|
  {
  }

  lemma SharesLast(pairs: seq<Pair>, p: Pair, n: nat, lastKey: Bytes)
    requires n <= |lastKey| && n <= |p.key| && lastKey[..n] == p.key[..n]
    requires lastKey == if pairs == [] then [] else pairs[|pairs| - 1].key
    ensures SharesWith(pairs + [p], |pairs|, n)
  {
  }
}
