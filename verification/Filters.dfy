/** Bloom filters, and the block of a table that holds one for every two kilobytes of data. */
module Filters {
  import opened Coding
  import opened Blocks

  type Hash = Bytes -> Word32

  // ---------- bits ----------

  /** Bit `i`, counted from the least significant one. */
  predicate TestBit(b: nat, i: nat) {
    if i == 0 then b % 2 == 1 else TestBit(b / 2, i - 1)
  }

  /** The number with bit `i` set. */
  function SetBit(b: nat, i: nat): nat {
    if i == 0 then b + 1 - b % 2 else 2 * SetBit(b / 2, i - 1) + b % 2
  }

  lemma {:induction false} SetBitIs(b: nat, i: nat, j: nat)
    ensures TestBit(SetBit(b, i), j) <==> i == j || TestBit(b, j)
  {
    if i > 0 && j > 0 {
      SetBitIs(b / 2, i - 1, j - 1);
      assert SetBit(b, i) / 2 == SetBit(b / 2, i - 1);
    } else if i > 0 {
      assert SetBit(b, i) % 2 == b % 2;
    } else if j > 0 {
      assert SetBit(b, 0) / 2 == b / 2;
    }
  }

  function Pow2(n: nat): nat {
    if n == 0 then 1 else 2 * Pow2(n - 1)
  }

  lemma {:induction false} SetBitSmall(b: nat, i: nat, n: nat)
    requires b < Pow2(n) && i < n
    ensures SetBit(b, i) < Pow2(n)
  {
    var p := Pow2(n - 1);
    assert Pow2(n) == 2 * p;
    if i > 0 {
      SetBitSmall(b / 2, i - 1, n - 1);
      var s := SetBit(b / 2, i - 1);
      assert s + 1 <= p && SetBit(b, i) == 2 * s + b % 2;
    }
  }

  function SetInByte(b: Byte, i: nat): Byte
    requires i < 8
  {
    assert Pow2(4) == 16 && Pow2(8) == 256;
    SetBitSmall(b, i, 8);
    SetBit(b, i)
  }

  // ---------- one filter ----------

  /** The position of the next probe. */
  function Step(h: Word32, delta: Word32): Word32 {
    (h + delta) % WORD
  }

  function Delta(h: Word32): Word32 {
    (h / 0x2_0000 + h % 0x2_0000 * 0x8000) % WORD
  }

  predicate IsSet(bytes: Bytes, h: Word32)
    requires |bytes| > 0
  {
    var pos := h % (8 * |bytes|);
    TestBit(bytes[pos / 8], pos % 8)
  }

  /** All of the next `k` probes find their bits set. */
  predicate AllSet(bytes: Bytes, h: Word32, delta: Word32, k: nat)
    requires |bytes| > 0
    decreases k
  {
    k == 0 || (IsSet(bytes, h) && AllSet(bytes, Step(h, delta), delta, k - 1))
  }

  /** At least the bits of the other are set. */
  ghost predicate Covers(more: Bytes, bytes: Bytes) {
    |more| == |bytes| && forall i, j :: 0 <= i < |bytes| && 0 <= j && TestBit(bytes[i], j) ==> TestBit(more[i], j)
  }

  lemma {:induction false} CoversAllSet(more: Bytes, bytes: Bytes, h: Word32, delta: Word32, k: nat)
    requires |bytes| > 0 && Covers(more, bytes) && AllSet(bytes, h, delta, k)
    ensures AllSet(more, h, delta, k)
    decreases k
  {
    hide TestBit;
    if k > 0 {
      CoversAllSet(more, bytes, Step(h, delta), delta, k - 1);
    }
  }

  function Marked(bytes: Bytes, h: Word32): (r: Bytes)
    requires |bytes| > 0
    ensures |r| == |bytes|
  {
    var pos := h % (8 * |bytes|);
    bytes[pos / 8 := SetInByte(bytes[pos / 8], pos % 8)]
  }

  lemma MarkedIs(bytes: Bytes, h: Word32)
    requires |bytes| > 0
    ensures Covers(Marked(bytes, h), bytes) && IsSet(Marked(bytes, h), h)
  {
    hide TestBit, SetBit;
    var pos, more := h % (8 * |bytes|), Marked(bytes, h);
    SetBitIs(bytes[pos / 8], pos % 8, pos % 8);
    forall i, j | 0 <= i < |bytes| && 0 <= j && TestBit(bytes[i], j) ensures TestBit(more[i], j) {
      SetBitIs(bytes[pos / 8], pos % 8, j);
    }
  }

  /** The answer of a filter: its last byte tells the number of probes. */
  predicate MayMatch(hash: Hash, key: Bytes, filter: Bytes) {
    |filter| >= 2 &&
    var k := filter[|filter| - 1];
    k > 30 || AllSet(filter[..|filter| - 1], hash(key), Delta(hash(key)), k)
  }

  /** No key that was put into a filter is denied. */
  ghost predicate Matches(hash: Hash, keys: seq<Bytes>, filter: Bytes) {
    forall key :: key in keys ==> MayMatch(hash, key, filter)
  }

  // Sets the bits of all probes of one key.
  method Mark(bytes: Bytes, h0: Word32, k: nat) returns (r: Bytes)
    requires |bytes| > 0
    ensures Covers(r, bytes) && AllSet(r, h0, Delta(h0), k)
  {
    hide TestBit, Marked;
    var h, delta := h0, Delta(h0);
    r := bytes;
    for j := 0 to k
      invariant Covers(r, bytes)
      invariant Done(r, h0, delta, j) && h == Nth(h0, delta, j)
    {
      ghost var before := r;
      MarkedIs(r, h);
      r := Marked(r, h);
      DoneMore(before, r, h0, delta, j);
      h := Step(h, delta);
    }
    DoneIsAllSet(r, h0, delta, k);
  }

  function Nth(h: Word32, delta: Word32, j: nat): Word32 {
    if j == 0 then h else Step(Nth(h, delta, j - 1), delta)
  }

  ghost predicate Done(bytes: Bytes, h: Word32, delta: Word32, j: nat) {
    |bytes| > 0 && forall i :: 0 <= i < j ==> IsSet(bytes, Nth(h, delta, i))
  }

  lemma DoneMore(bytes: Bytes, more: Bytes, h: Word32, delta: Word32, j: nat)
    requires Done(bytes, h, delta, j) && Covers(more, bytes) && IsSet(more, Nth(h, delta, j))
    ensures Done(more, h, delta, j + 1)
  {
    hide TestBit, Nth;
    forall i | 0 <= i < j + 1 ensures IsSet(more, Nth(h, delta, i)) {
      if i < j {
        assert IsSet(bytes, Nth(h, delta, i));
      }
    }
  }

  lemma {:induction false} NthShift(h: Word32, delta: Word32, j: nat)
    ensures Nth(Step(h, delta), delta, j) == Nth(h, delta, j + 1)
  {
    hide Step;
    if j > 0 {
      NthShift(h, delta, j - 1);
    }
  }

  lemma {:induction false} DoneIsAllSet(bytes: Bytes, h: Word32, delta: Word32, k: nat)
    requires Done(bytes, h, delta, k)
    ensures AllSet(bytes, h, delta, k)
    decreases k
  {
    hide IsSet, Step;
    if k > 0 {
      assert Nth(h, delta, 0) == h;
      forall i | 0 <= i < k - 1 ensures IsSet(bytes, Nth(Step(h, delta), delta, i)) {
        NthShift(h, delta, i);
      }
      DoneIsAllSet(bytes, Step(h, delta), delta, k - 1);
    }
  }

  /** A filter for the keys, appended to `dst`. `k` probes are made, as many as `bitsPerKey` is worth. */
  method CreateFilter(hash: Hash, keys: seq<Bytes>, bitsPerKey: nat, k: nat, dst: Bytes) returns (r: Bytes)
    requires 1 <= k <= 30
    ensures dst <= r && Matches(hash, keys, r[|dst|..])
  {
    hide TestBit, AllSet, Covers;
    var bits := |keys| * bitsPerKey;
    if bits < 64 {
      bits := 64;
    }
    var bytes: Bytes := seq((bits + 7) / 8, _ => 0);
    for i := 0 to |keys|
      invariant |bytes| == (bits + 7) / 8
      invariant forall j :: 0 <= j < i ==> AllSet(bytes, hash(keys[j]), Delta(hash(keys[j])), k)
    {
      ghost var before := bytes;
      bytes := Mark(bytes, hash(keys[i]), k);
      SameLength(bytes, before);
      forall j | 0 <= j < i ensures AllSet(bytes, hash(keys[j]), Delta(hash(keys[j])), k) {
        CoversAllSet(bytes, before, hash(keys[j]), Delta(hash(keys[j])), k);
      }
    }
    r := dst + (bytes + [k]);
    AllMatch(hash, keys, bytes, k);
    assert r[|dst|..] == bytes + [k];
  }

  lemma SameLength(more: Bytes, bytes: Bytes)
    requires Covers(more, bytes)
    ensures |more| == |bytes|
  {
  }

  lemma AllMatch(hash: Hash, keys: seq<Bytes>, bytes: Bytes, k: nat)
    requires |bytes| >= 1 && k <= 30
    requires forall j :: 0 <= j < |keys| ==> AllSet(bytes, hash(keys[j]), Delta(hash(keys[j])), k)
    ensures Matches(hash, keys, bytes + [k])
  {
    assert (bytes + [k])[..|bytes|] == bytes;
    forall key | key in keys ensures MayMatch(hash, key, bytes + [k]) {
      var j :| 0 <= j < |keys| && keys[j] == key;
    }
  }

  // ---------- the block of filters ----------

  const BASE_LG: nat := 11

  const FILTER_BASE: nat := 2048

  function Shifted(n: nat, lg: nat): nat {
    if lg == 0 then n else Shifted(n / 2, lg - 1)
  }

  lemma ShiftedByBase(n: nat)
    ensures Shifted(n, BASE_LG) == n / FILTER_BASE
  {
    assert Shifted(n / 1, 11) == Shifted(n / 2, 10);
    assert Shifted(n / 2, 10) == Shifted(n / 4, 9);
    assert Shifted(n / 4, 9) == Shifted(n / 8, 8);
    assert Shifted(n / 8, 8) == Shifted(n / 16, 7);
    assert Shifted(n / 16, 7) == Shifted(n / 32, 6);
    assert Shifted(n / 32, 6) == Shifted(n / 64, 5);
    assert Shifted(n / 64, 5) == Shifted(n / 128, 4);
    assert Shifted(n / 128, 4) == Shifted(n / 256, 3);
    assert Shifted(n / 256, 3) == Shifted(n / 512, 2);
    assert Shifted(n / 512, 2) == Shifted(n / 1024, 1);
    assert Shifted(n / 1024, 1) == Shifted(n / 2048, 0);
  }

  /** Filters one after another. */
  function Flat(filters: seq<Bytes>): Bytes {
    if filters == [] then [] else Flat(filters[..|filters| - 1]) + filters[|filters| - 1]
  }

  function Offsets(filters: seq<Bytes>): (r: seq<nat>)
    ensures |r| == |filters|
  {
    seq(|filters|, i requires 0 <= i < |filters| => |Flat(filters[..i])|)
  }

  lemma {:induction false} FlatPart(filters: seq<Bytes>, i: nat)
    requires i < |filters|
    ensures |Flat(filters[..i])| <= |Flat(filters[..i + 1])| <= |Flat(filters)|
    ensures Flat(filters)[|Flat(filters[..i])|..|Flat(filters[..i + 1])|] == filters[i]
  {
    var m := |filters| - 1;
    assert filters[..|filters|] == filters;
    assert filters[..i + 1][..i] == filters[..i];
    if i < m {
      FlatPart(filters[..m], i);
      assert filters[..m][..i] == filters[..i] && filters[..m][..i + 1] == filters[..i + 1];
    }
  }

  lemma FlatSnoc(filters: seq<Bytes>, f: Bytes)
    ensures Flat(filters + [f]) == Flat(filters) + f
    ensures Offsets(filters + [f]) == Offsets(filters) + [|Flat(filters)|]
  {
    var more := filters + [f];
    assert more[..|filters|] == filters;
    forall i | 0 <= i < |filters| ensures more[..i] == filters[..i] {
    }
  }

  /** A key that was added while the block at `offset` was being written. */
  datatype Added = Added(offset: nat, key: Bytes)

  /** Every key added is in the filter of its block, or waits for it to be made. */
  ghost predicate Covered(hash: Hash, added: seq<Added>, filters: seq<Bytes>, waiting: seq<Bytes>) {
    forall a :: a in added ==>
      var i := a.offset / FILTER_BASE;
      if i < |filters| then MayMatch(hash, a.key, filters[i]) else i == |filters| && a.key in waiting
  }

  class FilterBlockBuilder {
    const hash: Hash
    const bitsPerKey: nat
    const k: nat
    var keys: seq<Bytes>
    var result: Bytes
    var filterOffsets: seq<nat>
    ghost var filters: seq<Bytes>
    ghost var added: seq<Added>
    ghost var at: nat

    ghost predicate Valid()
      reads this
    {
      && 1 <= k <= 30
      && result == Flat(filters) && filterOffsets == Offsets(filters)
      && Covered(hash, added, filters, keys)
      && at / FILTER_BASE == |filters|
    }

    constructor (hash: Hash, bitsPerKey: nat, k: nat)
      requires 1 <= k <= 30
      ensures Valid() && added == [] && at == 0 && this.hash == hash
    {
      this.hash, this.bitsPerKey, this.k := hash, bitsPerKey, k;
      keys, result, filterOffsets := [], [], [];
      filters, added, at := [], [], 0;
    }

    method AddKey(key: Bytes)
      requires Valid()
      modifies this
      ensures Valid() && at == old(at) && added == old(added) + [Added(at, key)]
    {
      hide Flat, Offsets, MayMatch;
      keys := keys + [key];
      added := added + [Added(at, key)];
    }

    // The filter for the keys that wait, or an empty one.
    method GenerateFilter()
      requires result == Flat(filters) && filterOffsets == Offsets(filters) && 1 <= k <= 30
      requires Covered(hash, added, filters, keys)
      modifies this`keys, this`result, this`filterOffsets, this`filters
      ensures result == Flat(filters) && filterOffsets == Offsets(filters)
      ensures Covered(hash, added, filters, keys) && keys == [] && |filters| == |old(filters)| + 1
    {
      hide Flat, Offsets, MayMatch;
      filterOffsets := filterOffsets + [|result|];
      if keys == [] {
        FlatSnoc(filters, []);
        assert result + [] == result;
        filters := filters + [[]];
        return;
      }
      ghost var before := result;
      result := CreateFilter(hash, keys, bitsPerKey, k, result);
      ghost var f := result[|before|..];
      assert result == before + f;
      FlatSnoc(filters, f);
      filters := filters + [f];
      keys := [];
    }

    /** The block at this offset is next. */
    method StartBlock(blockOffset: nat)
      requires Valid() && blockOffset >= at
      modifies this
      ensures Valid() && at == blockOffset && added == old(added)
    {
      hide Flat, Offsets, MayMatch, Covered;
      var filterIndex := blockOffset / FILTER_BASE;
      while filterIndex > |filterOffsets|
        invariant result == Flat(filters) && filterOffsets == Offsets(filters) && Covered(hash, added, filters, keys)
        invariant |filters| <= filterIndex && added == old(added)
        decreases filterIndex - |filterOffsets|
      {
        GenerateFilter();
      }
      at := blockOffset;
    }

    method Finish() returns (contents: Bytes)
      requires Valid()
      modifies this`keys, this`result, this`filterOffsets, this`filters
      ensures contents == Finished(filters) && Covered(hash, added, filters, [])
    {
      hide Flat, Offsets, MayMatch, Covered, Words, Fixed;
      if keys != [] {
        GenerateFilter();
      }
      contents := AppendWords(result, filterOffsets);
      contents := contents + Fixed(|result|, 4) + [BASE_LG];
    }
  }

  method AppendWords(data: Bytes, words: seq<nat>) returns (r: Bytes)
    ensures r == data + Words(words)
  {
    hide Words, Fixed;
    r := data;
    assert words[..0] == [];
    WordsNone();
    assert data + [] == data;
    for i := 0 to |words|
      invariant r == data + Words(words[..i])
    {
      WordsSnoc(words, i);
      Assoc(data, Words(words[..i]), Fixed(words[i], 4));
      r := r + Fixed(words[i], 4);
    }
    assert words[..|words|] == words;
  }

  /** The finished block: filters, their offsets, the offset of that array, and the size of a range. */
  function Finished(filters: seq<Bytes>): Bytes {
    Flat(filters) + Words(Offsets(filters)) + Fixed(|Flat(filters)|, 4) + [BASE_LG]
  }

  // ---------- the reader ----------

  /** Where the filters of a block are, and how many; none if it is too short. */
  datatype FilterBlock = FilterBlock(offset: nat, num: nat, baseLg: nat)

  function OpenFilters(contents: Bytes): (r: FilterBlock)
    ensures r.offset + 4 * r.num <= |contents| && (r.num > 0 ==> r.offset + 4 * r.num + 5 <= |contents|)
  {
    var n := |contents|;
    if n < 5 then FilterBlock(0, 0, 0)
    else
      var lastWord := DecodeFixed(contents[n - 5..n - 1]);
      if lastWord > n - 5 then FilterBlock(0, 0, contents[n - 1])
      else FilterBlock(lastWord, (n - 5 - lastWord) / 4, contents[n - 1])
  }

  /** False only if the filter for the block at this offset denies the key. */
  function KeyMayMatch(hash: Hash, contents: Bytes, blockOffset: nat, key: Bytes): bool {
    var b := OpenFilters(contents);
    var index := Shifted(blockOffset, b.baseLg);
    if index < b.num then
      var start := DecodeFixed(contents[b.offset + 4 * index..b.offset + 4 * index + 4]);
      var limit := DecodeFixed(contents[b.offset + 4 * index + 4..b.offset + 4 * index + 8]);
      if start <= limit && limit <= b.offset then MayMatch(hash, key, contents[start..limit])
      else start != limit
    else true
  }

  /** The array of offsets of a finished block, its own offset behind it, is read back word by word. */
  lemma WordAt(filters: seq<Bytes>, i: nat)
    requires i <= |filters| && |Finished(filters)| < WORD
    ensures var all, flat := Finished(filters), |Flat(filters)|;
      && flat + 4 * i + 4 <= |all| && |all| == flat + 4 * |filters| + 5
      && DecodeFixed(all[flat + 4 * i..flat + 4 * i + 4]) == |Flat(filters[..i])|
  {
    hide Finished, Flat, Fixed, DecodeFixed, Pow256;
    WordBytes(filters, i);
    Pow256Values();
    FixedRoundTrip(|Flat(filters[..i])|, 4);
  }

  lemma WordBytes(filters: seq<Bytes>, i: nat)
    requires i <= |filters|
    ensures var all, flat := Finished(filters), |Flat(filters)|;
      && flat + 4 * i + 4 <= |all| && |all| == flat + 4 * |filters| + 5
      && all[flat + 4 * i..flat + 4 * i + 4] == Fixed(|Flat(filters[..i])|, 4) && |Flat(filters[..i])| <= flat
  {
    hide Flat, Fixed, Words;
    var data, offsets := Flat(filters), Offsets(filters);
    Inside(data, Words(offsets), Fixed(|data|, 4), [BASE_LG], 4 * i);
    if i < |filters| {
      FlatPart(filters, i);
      WordsAt(offsets, i);
    } else {
      assert filters[..i] == filters;
    }
  }

  lemma Inside(a: Bytes, words: Bytes, word: Bytes, b: Bytes, k: nat)
    requires |word| == 4 && (k + 4 <= |words| || k == |words|)
    ensures (a + words + word + b)[|a| + k..|a| + k + 4] == if k < |words| then words[k..k + 4] else word
  {
    var part := (a + words + word + b)[|a| + k..|a| + k + 4];
    assert k < |words| ==> part == words[k..k + 4];
    assert k == |words| ==> part == word;
  }

  /** No key that was added for a block is denied when the block is asked for. */
  lemma NoFalseNegative(hash: Hash, added: seq<Added>, filters: seq<Bytes>, a: Added)
    requires Covered(hash, added, filters, []) && a in added && |Finished(filters)| < WORD
    ensures KeyMayMatch(hash, Finished(filters), a.offset, a.key)
  {
    hide Flat, DecodeFixed, MayMatch, Finished;
    var i, all, flat := a.offset / FILTER_BASE, Finished(filters), Flat(filters);
    ShiftedByBase(a.offset);
    WordAt(filters, |filters|);
    LastByte(filters);
    assert filters[..|filters|] == filters;
    assert i < |filters|;
    WordAt(filters, i);
    WordAt(filters, i + 1);
    FlatPart(filters, i);
    Prefix(filters);
    var start, limit := |Flat(filters[..i])|, |Flat(filters[..i + 1])|;
    assert all[start..limit] == all[..|flat|][start..limit];
  }

  lemma LastByte(filters: seq<Bytes>)
    ensures var all := Finished(filters); |all| > 0 && all[|all| - 1] == BASE_LG
  {
    hide Flat, Fixed, Words;
  }

  lemma Prefix(filters: seq<Bytes>)
    ensures |Flat(filters)| <= |Finished(filters)| && Finished(filters)[..|Flat(filters)|] == Flat(filters)
  {
    hide Flat, Fixed, Words;
  }
}
