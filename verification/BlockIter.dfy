/** Iterating over a block: forwards, backwards across restart points, and to a key by binary search over them. */
module BlockIter {
  import opened Options
  import opened Coding
  import opened Blocks

  type Order = (Bytes, Bytes) -> bool

  ghost predicate TotalOrder(less: Order) {
    && (forall a, b :: less(a, b) ==> !less(b, a))
    && (forall a, b :: !less(a, b) && !less(b, a) ==> a == b)
    && (forall a, b, c :: less(a, b) && less(b, c) ==> less(a, c))
  }

  ghost predicate Increasing(less: Order, pairs: seq<Pair>) {
    forall i, j :: 0 <= i < j < |pairs| ==> less(pairs[i].key, pairs[j].key)
  }

  // ---------- opening a block ----------

  datatype Opened = Corrupt | Empty | Good(restarts: nat, numRestarts: nat)

  /** Where the restart array is, if the size allows for it. */
  function Open(contents: Bytes): Opened {
    if |contents| < 4 then Corrupt
    else
      var n := DecodeFixed(contents[|contents| - 4..]);
      if n > (|contents| - 4) / 4 then Corrupt
      else if n == 0 then Empty
      else Good(|contents| - (1 + n) * 4, n)
  }

  ghost predicate Holds(contents: Bytes, restarts: nat, points: seq<nat>) {
    && restarts + 4 * |points| <= |contents|
    && forall k :: 0 <= k < |points| ==> DecodeFixed(contents[restarts + 4 * k..restarts + 4 * k + 4]) == points[k]
  }

  /** A finished block opens at its restart array. */
  lemma OpenFinished(data: Bytes, points: seq<nat>)
    requires points != [] && |Contents(data, points)| < WORD && forall p :: p in points ==> p < WORD
    ensures Open(Contents(data, points)) == Good(|data|, |points|)
    ensures Contents(data, points)[..|data|] == data && Holds(Contents(data, points), |data|, points)
  {
    hide Fixed, DecodeFixed, Words, Pow256;
    var all, table := Contents(data, points), Words(points);
    Pow256Values();
    FixedRoundTrip(|points|, 4);
    assert all[|all| - 4..] == Fixed(|points|, 4);
    forall k | 0 <= k < |points| ensures DecodeFixed(all[|data| + 4 * k..|data| + 4 * k + 4]) == points[k] {
      WordsAt(points, k);
      assert points[k] in points;
      FixedRoundTrip(points[k], 4);
      assert all[|data| + 4 * k..|data| + 4 * k + 4] == table[4 * k..4 * k + 4];
    }
  }

  // ---------- one entry in place ----------

  /** The entry that starts at `from` in the data section. */
  lemma EntryInPlace(contents: Bytes, restarts: nat, from: nat, to: nat, shared: nat, p: Pair)
    requires restarts <= |contents| && EntryAt(contents[..restarts], from, to, shared, p)
    ensures var h := Header(shared, |p.key| - shared, |p.value|, |Head(shared, p)|);
      var at := from + h.size;
      && to <= restarts && DecodeEntry(contents[from..restarts]) == Some(h)
      && at + h.nonShared + h.valueLength == to
      && contents[at..at + h.nonShared] == p.key[shared..] && contents[at + h.nonShared..to] == p.value
  {
    hide DecodeEntry, Entry, Head;
    var section, e := contents[..restarts], Entry(shared, p);
    EntryRoundTrip(shared, p, section[to..]);
    assert contents[from..restarts] == e + section[to..];
    EntryParts(shared, p);
    var at, n := from + |Head(shared, p)|, |p.key| - shared;
    assert section[from..to] == e && to == from + |e|;
    assert contents[at..at + n] == section[at..at + n] == e[at - from..at - from + n];
    assert contents[at + n..to] == section[at + n..to] == e[at - from + n..];
  }

  // ---------- the iterator ----------

  class Iter {
    const less: Order
    const contents: Bytes
    const restarts: nat
    const numRestarts: nat
    var current: nat
    var restartIndex: nat
    var key: Bytes
    var valueStart: nat
    var valueLength: nat
    var ok: bool
    ghost const pairs: seq<Pair>
    ghost const offs: seq<nat>
    ghost const shared: seq<nat>
    ghost const points: seq<nat>
    ghost const rs: seq<nat>
    ghost var pos: nat           // |pairs| when the iterator is not valid

    ghost predicate Readable() {
      restarts <= |contents| && numRestarts == |points| && Holds(contents, restarts, points)
    }

    ghost predicate OfBlock() {
      && Readable()
      && Layout(contents[..restarts], pairs, offs, shared)
      && RestartsAt(points, rs, offs, shared)
    }

    // The index belongs to a restart point not behind entry `i`, and the next one is not before it.
    ghost predicate IndexFor(i: nat)
      reads this
    {
      && restartIndex < |points| && i < |offs| && points[restartIndex] <= offs[i]
      && (restartIndex + 1 < |points| ==> points[restartIndex + 1] >= offs[i])
    }

    /** Ready to parse entry `i`. */
    ghost predicate ReadyFor(i: nat)
      reads this
    {
      && i <= |pairs| && |offs| == |pairs| + 1 && |shared| == |pairs|
      && valueStart + valueLength == offs[i]
      && (i < |pairs| ==>
            shared[i] <= |key| && shared[i] <= |pairs[i].key| && key[..shared[i]] == pairs[i].key[..shared[i]])
      && restartIndex < |points| && points[restartIndex] <= offs[i]
    }

    ghost predicate Ok()
      reads this
    {
      && OfBlock() && pos <= |pairs|
      && if pos == |pairs| then current == restarts
         else
           && current == offs[pos] && IndexFor(pos) && key == pairs[pos].key
           && valueStart + valueLength == offs[pos + 1] <= restarts
           && contents[valueStart..valueStart + valueLength] == pairs[pos].value
    }

    /** Before the first seek the iterator is not valid. */
    constructor (less: Order, contents: Bytes, ghost data: Bytes, ghost pairs: seq<Pair>, ghost offs: seq<nat>,
      ghost shared: seq<nat>, ghost points: seq<nat>, ghost rs: seq<nat>)
      requires Layout(data, pairs, offs, shared) && RestartsAt(points, rs, offs, shared)
      requires contents == Contents(data, points) && |contents| < WORD
      ensures Ok() && pos == |pairs| && this.pairs == pairs && this.less == less && ok
    {
      hide Layout, DecodeFixed, Contents, Fixed, Words;
      SmallPoints(data, pairs, offs, shared, points, rs);
      OpenFinished(data, points);
      var block := Open(contents);
      this.less, this.contents, restarts, numRestarts := less, contents, block.restarts, block.numRestarts;
      current, restartIndex, key, valueStart, valueLength, ok :=
        block.restarts, block.numRestarts, [], 0, 0, true;
      this.pairs, this.offs, this.shared, this.points, this.rs, pos := pairs, offs, shared, points, rs, |pairs|;
    }

    function Value(): Bytes
      requires valueStart + valueLength <= |contents|
      reads this
    {
      contents[valueStart..valueStart + valueLength]
    }

    predicate Valid()
      reads this
    {
      current < restarts
    }

    /** Valid exactly while it stands on a pair, which key and value then are. */
    lemma Shows()
      requires Ok()
      ensures Valid() <==> pos < |pairs|
      ensures pos < |pairs| ==> valueStart + valueLength <= |contents| && Pair(key, Value()) == pairs[pos]
    {
      if pos < |pairs| {
        OffsAscend(contents[..restarts], pairs, offs, shared, pos, |pairs|);
      }
    }

    method GetRestartPoint(k: nat) returns (offset: nat)
      requires Readable() && k < numRestarts
      ensures offset == points[k]
    {
      hide DecodeFixed;
      offset := DecodeFixed(contents[restarts + 4 * k..restarts + 4 * k + 4]);
    }

    method SeekToRestartPoint(k: nat)
      requires Readable() && k < numRestarts
      modifies this`key, this`restartIndex, this`valueStart, this`valueLength
      ensures OfBlock() ==> rs[k] < |offs| && ReadyFor(rs[k])
    {
      hide DecodeFixed, Holds;
      key := [];
      restartIndex := k;
      valueStart := GetRestartPoint(k);
      valueLength := 0;
      if OfBlock() {
        RestartReady(pairs, offs, shared, points, rs, contents[..restarts], k);
      }
    }

    /** Parses the entry behind the current value; a malformed one makes the iterator invalid. */
    method ParseNextKey(ghost i: nat) returns (more: bool)
      requires Readable()
      modifies this`current, this`restartIndex, this`key, this`valueStart, this`valueLength, this`ok, this`pos
      ensures OfBlock() && old(ReadyFor(i)) ==> Ok() && pos == i && more == (i < |pairs|) && ok == old(ok)
      ensures !ok && old(ok) ==> !more && current == restarts
      ensures more ==>
        old(valueStart + valueLength) < restarts && old(valueStart + valueLength) < valueStart + valueLength
    {
      hide Layout, RestartsAt, Holds, DecodeEntry, Entry, Head;
      ghost var sound := OfBlock() && ReadyFor(i);
      if sound {
        LayoutParts(contents[..restarts], pairs, offs, shared);
      }
      current := valueStart + valueLength;
      pos := i;
      if current >= restarts {
        if sound {
          EndOfBlock(i);
        }
        current, restartIndex := restarts, numRestarts;
        return false;
      }
      if sound {
        EntryHere(i);
      }
      var h := DecodeEntry(contents[current..restarts]);
      if h.None? || |key| < h.value.shared || |contents| < current + h.value.size + h.value.nonShared {
        current, restartIndex, key, valueStart, valueLength, ok := restarts, numRestarts, [], 0, 0, false;
        return false;
      }
      var at := current + h.value.size;
      var kept := key[..h.value.shared];
      key := kept + contents[at..at + h.value.nonShared];
      if sound {
        assert pairs[i].key == pairs[i].key[..shared[i]] + pairs[i].key[shared[i]..];
      }
      valueStart, valueLength := at + h.value.nonShared, h.value.valueLength;
      AdvanceIndex();
      return true;
    }

    // To the last restart point before the current entry, at least.
    method AdvanceIndex()
      requires Readable()
      modifies this`restartIndex
      ensures old(restartIndex) < |points| && points[old(restartIndex)] <= current ==>
        restartIndex < |points| && points[restartIndex] <= current
        && (restartIndex + 1 < |points| ==> points[restartIndex + 1] >= current)
    {
      hide Holds;
      while restartIndex + 1 < numRestarts
        invariant old(restartIndex) < |points| && points[old(restartIndex)] <= current ==>
          restartIndex < |points| && points[restartIndex] <= current
        decreases |points| - restartIndex
      {
        var next := GetRestartPoint(restartIndex + 1);
        if next >= current {
          break;
        }
        restartIndex := restartIndex + 1;
      }
    }

    lemma EndOfBlock(i: nat)
      requires OfBlock() && i < |offs| && offs[i] >= restarts
      ensures i == |pairs|
    {
      if i < |pairs| {
        OffsAscend(contents[..restarts], pairs, offs, shared, i, |pairs|);
      }
    }

    lemma EntryHere(i: nat)
      requires OfBlock() && i < |offs| == |pairs| + 1 && offs[i] < restarts
      ensures i < |pairs| == |shared| && shared[i] <= |pairs[i].key| && offs[i] <= offs[i + 1] <= restarts
      ensures var h := Header(shared[i], |pairs[i].key| - shared[i], |pairs[i].value|, |Head(shared[i], pairs[i])|);
        var at := offs[i] + h.size;
        && DecodeEntry(contents[offs[i]..restarts]) == Some(h)
        && at + h.nonShared + h.valueLength == offs[i + 1]
        && contents[at..at + h.nonShared] == pairs[i].key[shared[i]..]
        && contents[at + h.nonShared..offs[i + 1]] == pairs[i].value
    {
      hide DecodeEntry, Entry, Head, RestartsAt, Holds;
      assert i < |pairs| && EntryAt(contents[..restarts], offs[i], offs[i + 1], shared[i], pairs[i]);
      EntryInPlace(contents, restarts, offs[i], offs[i + 1], shared[i], pairs[i]);
    }

    lemma ReadyBehind()
      requires Ok() && pos < |pairs|
      ensures ReadyFor(pos + 1)
    {
      var data := contents[..restarts];
      OffsAscend(data, pairs, offs, shared, pos, pos + 1);
      if pos + 1 < |pairs| {
        assert EntryAt(data, offs[pos + 1], offs[pos + 1 + 1], shared[pos + 1], pairs[pos + 1]);
        assert SharesWith(pairs, pos + 1, shared[pos + 1]);
      }
    }

    /** To the next pair. */
    method Next()
      requires Ok() && Valid()
      modifies this`current, this`restartIndex, this`key, this`valueStart, this`valueLength, this`ok, this`pos
      ensures Ok() && pos == old(pos) + 1 && ok == old(ok)
    {
      Shows();
      ReadyBehind();
      hide Layout, RestartsAt, Holds;
      var more := ParseNextKey(pos + 1);
    }

    method SeekToFirst()
      requires Ok()
      modifies this`current, this`restartIndex, this`key, this`valueStart, this`valueLength, this`ok, this`pos
      ensures Ok() && pos == 0 && ok == old(ok)
    {
      assert rs[0] == 0;
      SeekToRestartPoint(0);
      var more := ParseNextKey(0);
    }

    // The position of an offset, and the other way round.
    lemma OffsOrder(i: nat, j: nat)
      requires OfBlock() && i <= |pairs| && j <= |pairs|
      ensures |offs| == |pairs| + 1 && (offs[i] < offs[j] <==> i < j)
    {
      hide Holds, RestartsAt;
      if i < j {
        OffsAscend(contents[..restarts], pairs, offs, shared, i, j);
      } else {
        OffsAscend(contents[..restarts], pairs, offs, shared, j, i);
      }
    }

    // Parses on until the entry before position `i`, or finds the end at once.
    method ParseUntil(ghost j: nat, original: nat, ghost i: nat)
      requires OfBlock() && ReadyFor(j) && j <= i <= |pairs| && (j == i ==> i == |pairs|)
      requires |offs| == |pairs| + 1 && original == offs[i]
      modifies this`current, this`restartIndex, this`key, this`valueStart, this`valueLength, this`ok, this`pos
      ensures Ok() && pos == (if j == i then i else i - 1) && ok == old(ok)
    {
      hide Layout, RestartsAt, Holds;
      var more := ParseNextKey(j);
      ghost var k := j;
      while more && valueStart + valueLength < original
        invariant Ok() && pos == k && ok == old(ok) && more == (j < i) && (more ==> k < i)
        decreases i - k
      {
        OffsOrder(k + 1, i);
        ReadyBehind();
        k := k + 1;
        more := ParseNextKey(k);
      }
      if j < i {
        OffsOrder(k + 1, i);
      }
    }

    /** To the pair before; not valid behind the first one. */
    method Prev()
      requires Ok() && Valid()
      modifies this`current, this`restartIndex, this`key, this`valueStart, this`valueLength, this`ok, this`pos
      ensures Ok() && pos == (if old(pos) == 0 then |pairs| else old(pos) - 1) && ok == old(ok)
    {
      Shows();
      var original := current;
      ghost var i := pos;
      assert points[0] == offs[rs[0]] == 0;
      hide Layout, RestartsAt, Holds;
      var point := GetRestartPoint(restartIndex);
      while point >= original
        invariant restartIndex < |points| && point == points[restartIndex] && ok == old(ok)
        decreases restartIndex
      {
        if restartIndex == 0 {
          OffsOrder(0, i);
          current, restartIndex, pos := restarts, numRestarts, |pairs|;
          return;
        }
        restartIndex := restartIndex - 1;
        point := GetRestartPoint(restartIndex);
      }
      ghost var k := restartIndex;
      RestartPlace(k);
      OffsOrder(rs[k], i);
      SeekToRestartPoint(restartIndex);
      ParseUntil(rs[k], original, i);
    }

    lemma RestartPlace(k: nat)
      requires OfBlock() && k < |points|
      ensures |rs| == |points| && rs[k] <= |pairs| && |offs| == |pairs| + 1 && points[k] == offs[rs[k]]
      ensures k > 0 ==> rs[k] < |pairs|
      ensures rs[0] == 0 && forall j :: 0 <= j < |rs| && j > k ==> rs[k] < rs[j]
    {
      hide Holds;
    }

    /** To the last pair. */
    method SeekToLast()
      requires Ok()
      modifies this`current, this`restartIndex, this`key, this`valueStart, this`valueLength, this`ok, this`pos
      ensures Ok() && pos == (if |pairs| == 0 then 0 else |pairs| - 1) && ok == old(ok)
    {
      assert |points| > 0 && offs[|pairs|] == restarts;
      hide Layout, RestartsAt, Holds;
      RestartPlace(numRestarts - 1);
      SeekToRestartPoint(numRestarts - 1);
      ParseUntil(rs[numRestarts - 1], restarts, |pairs|);
    }

    // Everything up to the restart point `left` is before the target.
    ghost predicate Narrowed(target: Bytes, left: nat)
      requires |rs| == |points|
    {
      left < |points| && (left > 0 ==> rs[left] < |pairs| && less(pairs[rs[left]].key, target))
    }

    /** The whole key at a restart point, or nothing if the entry there is malformed. */
    method KeyAtRestart(k: nat) returns (found: bool, midKey: Bytes)
      requires Readable() && k < numRestarts
      ensures OfBlock() && rs[k] < |pairs| ==> found && midKey == pairs[rs[k]].key
    {
      hide Layout, RestartsAt, Holds, DecodeEntry, Entry, Head;
      var offset := GetRestartPoint(k);
      if OfBlock() {
        RestartPlace(k);
        if rs[k] < |pairs| {
          RestartWhole(k);
        }
      }
      if offset > restarts {
        return false, [];
      }
      var h := DecodeEntry(contents[offset..restarts]);
      if h.None? || h.value.shared != 0 || |contents| < offset + h.value.size + h.value.nonShared {
        return false, [];
      }
      var at := offset + h.value.size;
      return true, contents[at..at + h.value.nonShared];
    }

    lemma RestartWhole(k: nat)
      requires OfBlock() && k < |points| && |rs| == |points| && rs[k] < |pairs|
      ensures points[k] <= restarts
      ensures var p := pairs[rs[k]];
        var h := Header(0, |p.key|, |p.value|, |Head(0, p)|);
        && DecodeEntry(contents[points[k]..restarts]) == Some(h)
        && points[k] + h.size + h.nonShared <= |contents|
        && contents[points[k] + h.size..points[k] + h.size + h.nonShared] == p.key
    {
      hide DecodeEntry, Entry, Head, Holds;
      RestartReady(pairs, offs, shared, points, rs, contents[..restarts], k);
      OffsAscend(contents[..restarts], pairs, offs, shared, rs[k], rs[k] + 1);
      OffsAscend(contents[..restarts], pairs, offs, shared, rs[k] + 1, |pairs|);
      EntryHere(rs[k]);
      assert pairs[rs[k]].key[0..] == pairs[rs[k]].key;
    }

    /** To the first pair not before the target. */
    method Seek(target: Bytes)
      requires Readable() && numRestarts > 0
      modifies this`current, this`restartIndex, this`key, this`valueStart, this`valueLength, this`ok, this`pos
      ensures old(Ok()) && TotalOrder(less) && Increasing(less, pairs) ==>
        Ok() && ok == old(ok) && FirstNotBefore(target, pos)
    {
      hide Layout, RestartsAt, Holds, TotalOrder, Increasing;
      ghost var sound := Ok() && TotalOrder(less) && Increasing(less, pairs);
      var left, right := 0, numRestarts - 1;
      if sound {
        RestartPlace(0);
      }
      while left < right
        invariant 0 <= left <= right < numRestarts && ok == old(ok)
        invariant sound ==> |rs| == |points| && Narrowed(target, left)
        decreases right - left
      {
        var mid := (left + right + 1) / 2;
        if sound {
          RestartPlace(mid);
        }
        var found, midKey := KeyAtRestart(mid);
        if !found {
          current, restartIndex, key, valueStart, valueLength, ok := restarts, numRestarts, [], 0, 0, false;
          return;
        }
        if less(midKey, target) {
          left := mid;
        } else {
          right := mid - 1;
        }
      }
      ghost var j: nat := 0;
      if sound {
        RestartPlace(left);
        j := rs[left];
        BeforeRestart(target, left);
      }
      SeekToRestartPoint(left);
      while true
        invariant sound ==> j <= |pairs| && ReadyFor(j) && AllBefore(target, j) && ok == old(ok)
        decreases restarts - valueStart - valueLength
      {
        var more := ParseNextKey(j);
        if !more || !less(key, target) {
          return;
        }
        if sound {
          MoreBefore(target, j);
          ReadyBehind();
        }
        j := j + 1;
      }
    }

    ghost predicate AllBefore(target: Bytes, n: nat) {
      n <= |pairs| && forall j :: 0 <= j < n ==> less(pairs[j].key, target)
    }

    ghost predicate FirstNotBefore(target: Bytes, n: nat) {
      AllBefore(target, n) && (n < |pairs| ==> !less(pairs[n].key, target))
    }

    lemma MoreBefore(target: Bytes, j: nat)
      requires AllBefore(target, j) && j < |pairs| && less(pairs[j].key, target)
      ensures AllBefore(target, j + 1)
    {
    }

    lemma BeforeRestart(target: Bytes, left: nat)
      requires TotalOrder(less) && Increasing(less, pairs)
      requires |rs| == |points| && left < |points| && Narrowed(target, left) && rs[left] <= |pairs| && rs[0] == 0
      ensures AllBefore(target, rs[left])
    {
      forall j | 0 <= j < rs[left] ensures less(pairs[j].key, target) {
        assert less(pairs[j].key, pairs[rs[left]].key);
      }
    }
  }

  lemma RestartReady(pairs: seq<Pair>, offs: seq<nat>, shared: seq<nat>, points: seq<nat>, rs: seq<nat>, data: Bytes,
    k: nat)
    requires Layout(data, pairs, offs, shared) && RestartsAt(points, rs, offs, shared) && k < |points|
    ensures rs[k] <= |pairs| && points[k] == offs[rs[k]]
    ensures rs[k] < |pairs| ==> shared[rs[k]] == 0
  {
  }

  lemma SmallPoints(data: Bytes, pairs: seq<Pair>, offs: seq<nat>, shared: seq<nat>, points: seq<nat>, rs: seq<nat>)
    requires Layout(data, pairs, offs, shared) && RestartsAt(points, rs, offs, shared)
    ensures forall p :: p in points ==> p <= |data|
    ensures |data| <= |Contents(data, points)|
  {
    hide Fixed, Words;
    forall p | p in points ensures p <= |data| {
      var k :| 0 <= k < |points| && points[k] == p;
      OffsAscend(data, pairs, offs, shared, rs[k], |pairs|);
    }
  }

  /** From the first pair to the last. */
  method Scan(iter: Iter) returns (back: seq<Pair>)
    requires iter.Ok()
    modifies iter
    ensures back == iter.pairs
  {
    hide Iter.OfBlock, Iter.IndexFor;
    back := [];
    iter.SeekToFirst();
    iter.Shows();
    while iter.Valid()
      invariant iter.Ok() && iter.pos <= |iter.pairs| && back == iter.pairs[..iter.pos]
      decreases |iter.pairs| - iter.pos
    {
      iter.Shows();
      back := back + [Pair(iter.key, iter.Value())];
      iter.Next();
    }
    iter.Shows();
  }

  /** A block built from any pairs that fit into one, read from its start to its end, gives the pairs back. */
  method BuildAndScan(less: Order, pairs: seq<Pair>, restartInterval: nat) returns (size: nat, back: seq<Pair>)
    requires restartInterval > 0 && forall p :: p in pairs ==> Fits(p)
    ensures size < WORD ==> back == pairs
  {
    hide Layout, RestartsAt, Fits, Contents, Iter.Ok;
    var builder := new BlockBuilder(restartInterval);
    for i := 0 to |pairs|
      invariant fresh(builder) && builder.Valid() && !builder.finished && builder.pairs == pairs[..i]
    {
      builder.Add(pairs[i].key, pairs[i].value);
      assert pairs[..i + 1] == pairs[..i] + [pairs[i]];
    }
    assert pairs[..|pairs|] == pairs;
    ghost var data := builder.buffer;
    var contents := builder.Finish();
    size, back := |contents|, [];
    if size < WORD {
      var iter := new Iter(less, contents, data, pairs, builder.offs, builder.shared, builder.restarts, builder.rs);
      back := Scan(iter);
    }
  }
}
