/** Write batches: the bytes that a group of updates takes in the log and hands to the memtable. */
module Batches {
  import opened Coding

  datatype Op = Put(key: Bytes, value: Bytes) | Delete(key: Bytes)

  predicate Fits(ops: seq<Op>) {
    |ops| < 0x8000_0000 && forall op :: op in ops ==> OpFits(op)
  }

  predicate OpFits(op: Op) {
    |op.key| < MAX_LENGTH && (op.Put? ==> |op.value| < MAX_LENGTH)
  }

  // ---------- the format ----------

  const HEADER: nat := 12
  const TAG_DELETION: Byte := 0
  const TAG_VALUE: Byte := 1

  function EncodeOp(op: Op): Bytes {
    match op
    case Put(k, v) => [TAG_VALUE] + LengthPrefixed(k) + LengthPrefixed(v)
    case Delete(k) => [TAG_DELETION] + LengthPrefixed(k)
  }

  function Body(ops: seq<Op>): Bytes {
    if ops == [] then [] else Body(ops[..|ops| - 1]) + EncodeOp(ops[|ops| - 1])
  }

  /** The batch of `ops` whose first update has sequence number `num`. */
  function Rep(num: nat, ops: seq<Op>): Bytes {
    Parts(Fixed(num, 8), |ops|, Body(ops))
  }

  function Parts(number: Bytes, count: nat, body: Bytes): Bytes {
    number + Fixed(count, 4) + body
  }

  function CountOf(rep: Bytes): nat
    requires |rep| >= HEADER
  {
    DecodeFixed(rep[8..HEADER])
  }

  // As a signed integer.
  function SignedCount(rep: Bytes): int
    requires |rep| >= HEADER
  {
    if CountOf(rep) < 0x8000_0000 then CountOf(rep) else CountOf(rep) - 0x1_0000_0000
  }

  function SequenceOf(rep: Bytes): nat
    requires |rep| >= HEADER
  {
    DecodeFixed(rep[..8])
  }

  function WithCount(rep: Bytes, n: nat): Bytes
    requires |rep| >= HEADER
  {
    Parts(NumberOf(rep), n, DataOf(rep))
  }

  function NumberOf(rep: Bytes): Bytes
    requires |rep| >= HEADER
  {
    rep[..8]
  }

  /** `n` more updates, encoded in `data`. */
  function Extended(rep: Bytes, n: nat, data: Bytes): Bytes
    requires |rep| >= HEADER
  {
    WithCount(rep, CountOf(rep) + n) + data
  }

  function DataOf(rep: Bytes): Bytes
    requires |rep| >= HEADER
  {
    rep[HEADER..]
  }

  /** The updates found in a body, up to the first malformed one. */
  datatype Parse = Parse(ops: seq<Op>, ok: bool)

  function ParseOp(b: Bytes): (r: Parsed<Op>)
    requires b != []
    ensures r.Ok? ==> |r.rest| < |b|
  {
    if b[0] == TAG_VALUE then
      match ParseLengthPrefixed(b[1..])
      case Bad => Bad
      case Ok(k, rest) =>
        match ParseLengthPrefixed(rest)
        case Bad => Bad
        case Ok(v, rest2) => Ok(Put(k, v), rest2)
    else if b[0] == TAG_DELETION then
      match ParseLengthPrefixed(b[1..])
      case Bad => Bad
      case Ok(k, rest) => Ok(Delete(k), rest)
    else Bad
  }

  function ParseBody(b: Bytes): Parse
    decreases |b|
  {
    if b == [] then Parse([], true)
    else
      match ParseOp(b)
      case Bad => Parse([], false)
      case Ok(op, rest) => var p := ParseBody(rest); Parse([op] + p.ops, p.ok)
  }

  lemma OpRoundTrip(op: Op, rest: Bytes)
    requires OpFits(op)
    ensures ParseOp(EncodeOp(op) + rest) == Ok(op, rest)
  {
    hide LengthPrefixed, ParseLengthPrefixed;
    var b := EncodeOp(op) + rest;
    match op
    case Put(k, v) =>
      assert b[1..] == LengthPrefixed(k) + (LengthPrefixed(v) + rest);
      LengthPrefixedRoundTrip(k, LengthPrefixed(v) + rest);
      LengthPrefixedRoundTrip(v, rest);
    case Delete(k) =>
      assert b[1..] == LengthPrefixed(k) + rest;
      LengthPrefixedRoundTrip(k, rest);
  }

  lemma {:induction false} BodyCons(op: Op, ops: seq<Op>)
    ensures Body([op] + ops) == EncodeOp(op) + Body(ops)
  {
    hide EncodeOp;
    var m := |ops| - 1;
    if m < 0 {
      assert [op] + ops == [op] && [op][..0] == [];
      assert Body([op]) == [] + EncodeOp(op);
    } else {
      BodyCons(op, ops[..m]);
      assert ([op] + ops)[..m + 1] == [op] + ops[..m] && ([op] + ops)[m + 1] == ops[m];
      Assoc(EncodeOp(op), Body(ops[..m]), EncodeOp(ops[m]));
    }
  }

  /** Reading back a body gives the updates that were put into it. */
  lemma {:induction false} BodyRoundTrip(ops: seq<Op>)
    requires forall op :: op in ops ==> OpFits(op)
    ensures ParseBody(Body(ops)) == Parse(ops, true)
  {
    if ops != [] {
      assert ops == [ops[0]] + ops[1..];
      BodyCons(ops[0], ops[1..]);
      OpRoundTrip(ops[0], Body(ops[1..]));
      BodyRoundTrip(ops[1..]);
    }
  }

  lemma {:induction false} BodyAppend(a: seq<Op>, b: seq<Op>)
    ensures Body(a + b) == Body(a) + Body(b)
  {
    hide EncodeOp;
    var m := |b| - 1;
    if m < 0 {
      assert a + b == a && Body(a) + [] == Body(a);
    } else {
      BodyAppend(a, b[..m]);
      assert (a + b)[..|a| + m] == a + b[..m] && (a + b)[|a| + m] == b[m];
      Assoc(Body(a), Body(b[..m]), EncodeOp(b[m]));
    }
  }

  lemma RepRoundTrip(num: nat, ops: seq<Op>)
    requires Fits(ops) && num < 0x1_0000_0000_0000_0000
    ensures |Rep(num, ops)| >= HEADER && SequenceOf(Rep(num, ops)) == num && SignedCount(Rep(num, ops)) == |ops|
    ensures ParseBody(Rep(num, ops)[HEADER..]) == Parse(ops, true)
  {
    Pow256Values();
    FixedRoundTrip(num, 8);
    FixedRoundTrip(|ops|, 4);
    var rep := Rep(num, ops);
    assert rep[..8] == Fixed(num, 8) && rep[8..HEADER] == Fixed(|ops|, 4) && rep[HEADER..] == Body(ops);
    BodyRoundTrip(ops);
  }

  // ---------- the batch ----------

  ghost predicate Holds(rep: Bytes, num: nat, ops: seq<Op>) {
    rep == Rep(num, ops) && num < 0x1_0000_0000_0000_0000
  }

  class WriteBatch {
    var rep: Bytes
    ghost var num: nat
    ghost var ops: seq<Op>

    ghost predicate Valid()
      reads this
    {
      Holds(rep, num, ops)
    }

    constructor ()
      ensures Valid() && num == 0 && ops == []
    {
      new;
      Clear();
    }

    method Clear()
      modifies this
      ensures Valid() && num == 0 && ops == []
    {
      ZeroHeader();
      rep := seq(HEADER, _ => 0);
      num, ops := 0, [];
    }

    method SetCount(n: nat)
      requires |rep| >= HEADER
      modifies this`rep
      ensures rep == WithCount(old(rep), n)
    {
      rep := Parts(NumberOf(rep), n, DataOf(rep));
    }

    method Extend(n: nat, data: Bytes)
      requires |rep| >= HEADER
      modifies this`rep
      ensures rep == Extended(old(rep), n, data)
    {
      hide WithCount, CountOf;
      SetCount(CountOf(rep) + n);
      rep := rep + data;
    }

    method SetSequence(n: nat)
      requires Valid() && n < 0x1_0000_0000_0000_0000
      modifies this
      ensures Valid() && num == n && ops == old(ops)
    {
      hide Holds, Fixed;
      Renumbered(rep, num, ops, n);
      rep := Fixed(n, 8) + rep[8..];
      num := n;
    }

    method Put(key: Bytes, value: Bytes)
      requires Valid() && |ops| + 1 < 0x8000_0000
      modifies this
      ensures Valid() && num == old(num) && ops == old(ops) + [Op.Put(key, value)]
    {
      hide Holds, Extended, EncodeOp;
      var op := Op.Put(key, value);
      GrownByOp(rep, num, ops, op);
      Extend(1, EncodeOp(op));
      ops := ops + [op];
    }

    method Delete(key: Bytes)
      requires Valid() && |ops| + 1 < 0x8000_0000
      modifies this
      ensures Valid() && num == old(num) && ops == old(ops) + [Op.Delete(key)]
    {
      hide Holds, Extended, EncodeOp;
      var op := Op.Delete(key);
      GrownByOp(rep, num, ops, op);
      Extend(1, EncodeOp(op));
      ops := ops + [op];
    }

    method Append(source: WriteBatch)
      requires Valid() && source.Valid() && |ops| + |source.ops| < 0x8000_0000
      modifies this
      ensures Valid() && num == old(num) && ops == old(ops) + old(source.ops)
    {
      hide Holds, Extended, CountOf, DataOf;
      GrownByBatch(rep, num, ops, source.rep, source.num, source.ops);
      ghost var more := source.ops;
      Extend(CountOf(source.rep), DataOf(source.rep));
      ops := ops + more;
    }
  }

  // What the steps of the three methods make of the bytes.
  lemma ExtendedIs(num: nat, ops: seq<Op>, n: nat, data: Bytes)
    requires |ops| < 0x8000_0000
    ensures |Rep(num, ops)| >= HEADER
    ensures Extended(Rep(num, ops), n, data) == Parts(Fixed(num, 8), |ops| + n, Body(ops)) + data
  {
    hide CountOf, Fixed, Body, Rep, Parts, WithCount;
    CountIs(num, ops);
    Recounted(num, ops, n);
  }

  lemma Recounted(num: nat, ops: seq<Op>, n: nat)
    requires |ops| < 0x8000_0000 && |Rep(num, ops)| >= HEADER
    ensures WithCount(Rep(num, ops), CountOf(Rep(num, ops)) + n) == Parts(Fixed(num, 8), |ops| + n, Body(ops))
  {
    hide CountOf, Fixed, Body, Rep, NumberOf, DataOf, Parts;
    CountIs(num, ops);
  }

  lemma Renumbered(rep: Bytes, num: nat, ops: seq<Op>, n: nat)
    requires Holds(rep, num, ops) && n < 0x1_0000_0000_0000_0000
    ensures |rep| >= HEADER && Holds(Fixed(n, 8) + rep[8..], n, ops)
  {
    hide Fixed, Body;
    assert rep[8..] == Fixed(|ops|, 4) + Body(ops);
    Assoc(Fixed(n, 8), Fixed(|ops|, 4), Body(ops));
  }

  lemma RepIs(num: nat, ops: seq<Op>)
    ensures Rep(num, ops) == Parts(Fixed(num, 8), |ops|, Body(ops))
  {
    hide Fixed, Body, Parts;
  }

  lemma PartsGrow(number: Bytes, count: nat, body: Bytes, data: Bytes)
    ensures Parts(number, count, body) + data == Parts(number, count, body + data)
  {
    hide Fixed;
    Assoc(number + Fixed(count, 4), body, data);
  }

  lemma Grown(num: nat, ops: seq<Op>, more: seq<Op>)
    requires |ops| + |more| < 0x8000_0000
    ensures |Rep(num, ops)| >= HEADER && Extended(Rep(num, ops), |more|, Body(more)) == Rep(num, ops + more)
  {
    hide Extended, Fixed, Body, Parts, Rep;
    ExtendedIs(num, ops, |more|, Body(more));
    BodyAppend(ops, more);
    RepIs(num, ops + more);
    PartsGrow(Fixed(num, 8), |ops| + |more|, Body(ops), Body(more));
  }

  lemma GrownByOp(rep: Bytes, num: nat, ops: seq<Op>, op: Op)
    requires Holds(rep, num, ops) && |ops| + 1 < 0x8000_0000
    ensures |rep| >= HEADER && Holds(Extended(rep, 1, EncodeOp(op)), num, ops + [op])
  {
    hide Extended, EncodeOp, Rep, Body;
    Grown(num, ops, [op]);
    BodyOne(op);
  }

  lemma GrownByBatch(rep: Bytes, num: nat, ops: seq<Op>, rep2: Bytes, num2: nat, more: seq<Op>)
    requires Holds(rep, num, ops) && Holds(rep2, num2, more) && |ops| + |more| < 0x8000_0000
    ensures |rep| >= HEADER && |rep2| >= HEADER
      && Holds(Extended(rep, CountOf(rep2), DataOf(rep2)), num, ops + more)
  {
    hide Extended, CountOf, Body, Holds, DataOf;
    HeldParts(rep2, num2, more);
    GrownByData(rep, num, ops, more, DataOf(rep2), CountOf(rep2));
  }

  lemma BodyOne(op: Op)
    ensures Body([op]) == EncodeOp(op)
  {
    hide EncodeOp;
    assert Body([op][..0]) == [];
  }

  lemma HeldParts(rep: Bytes, num: nat, ops: seq<Op>)
    requires Holds(rep, num, ops) && |ops| < 0x8000_0000
    ensures |rep| >= HEADER && CountOf(rep) == |ops| && DataOf(rep) == Body(ops)
  {
    hide Rep, CountOf, Body;
    CountIs(num, ops);
  }

  lemma GrownByData(rep: Bytes, num: nat, ops: seq<Op>, more: seq<Op>, data: Bytes, n: nat)
    requires Holds(rep, num, ops) && data == Body(more) && n == |more| && |ops| + n < 0x8000_0000
    ensures |rep| >= HEADER && Holds(Extended(rep, n, data), num, ops + more)
  {
    hide Extended, Rep, Body;
    Grown(num, ops, more);
  }

  lemma ZeroHeader()
    ensures seq(HEADER, _ => 0) == Rep(0, [])
  {
    assert Fixed(0, 4) == [0, 0, 0, 0];
    assert Fixed(0, 8) == [0, 0, 0, 0] + Fixed(0, 4);
  }

  lemma CountIs(num: nat, ops: seq<Op>)
    requires |ops| < 0x8000_0000
    ensures |Rep(num, ops)| >= HEADER && CountOf(Rep(num, ops)) == |ops|
    ensures NumberOf(Rep(num, ops)) == Fixed(num, 8) && DataOf(Rep(num, ops)) == Body(ops)
  {
    Pow256Values();
    FixedRoundTrip(|ops|, 4);
    assert Rep(num, ops)[8..HEADER] == Fixed(|ops|, 4);
  }

  // ---------- into the memtable ----------

  datatype Added = Added(num: nat, op: Op)

  /** Consecutive sequence numbers from `num`. */
  function Numbered(num: nat, ops: seq<Op>): (r: seq<Added>)
    ensures |r| == |ops| && forall i :: 0 <= i < |ops| ==> r[i] == Added(num + i, ops[i])
  {
    seq(|ops|, i requires 0 <= i < |ops| => Added(num + i, ops[i]))
  }

  /** The memtable, in the order of arrival. */
  class MemTable {
    var entries: seq<Added>

    constructor ()
      ensures entries == []
    {
      entries := [];
    }

    method Add(num: nat, op: Op)
      modifies this
      ensures entries == old(entries) + [Added(num, op)]
    {
      entries := entries + [Added(num, op)];
    }
  }

  lemma Numbering(num: nat, done: seq<Op>, op: Op, before: seq<Added>)
    ensures before + Numbered(num, done) + [Added(num + |done|, op)] == before + Numbered(num, done + [op])
  {
    assert Numbered(num, done + [op]) == Numbered(num, done) + [Added(num + |done|, op)];
  }

  // The updates `done` of a batch are in the memtable, those of `input` are to come.
  ghost predicate Inserting(whole: Parse, start: nat, before: seq<Added>, input: Bytes, done: seq<Op>,
    entries: seq<Added>, sequence: nat, found: nat)
  {
    && whole == Parse(done + ParseBody(input).ops, ParseBody(input).ok)
    && found == |done| && sequence == start + |done|
    && entries == before + Numbered(start, done)
  }

  lemma InsertingStart(input: Bytes, start: nat, before: seq<Added>)
    ensures Inserting(ParseBody(input), start, before, input, [], before, start, 0)
  {
    hide ParseBody;
    var p := ParseBody(input);
    assert [] + p.ops == p.ops;
  }

  lemma InsertingStep(whole: Parse, start: nat, before: seq<Added>, input: Bytes, done: seq<Op>,
    entries: seq<Added>, sequence: nat, found: nat)
    requires Inserting(whole, start, before, input, done, entries, sequence, found)
    ensures input == [] || ParseOp(input).Bad? ==>
      entries == before + Numbered(start, whole.ops) && whole.ok == (input == []) && found == |whole.ops|
    ensures input != [] && ParseOp(input).Ok? ==>
      var op := ParseOp(input).value;
      Inserting(whole, start, before, ParseOp(input).rest, done + [op], entries + [Added(sequence, op)],
        sequence + 1, found + 1)
  {
    hide ParseOp;
    if input == [] || ParseOp(input).Bad? {
      assert done + [] == done;
    } else {
      var op, rest := ParseOp(input).value, ParseBody(ParseOp(input).rest).ops;
      assert done + ([op] + rest) == (done + [op]) + rest;
      Numbering(start, done, op, before);
    }
  }

  /** Adds the updates of a batch; those before a malformed one stay in. */
  method InsertInto(rep: Bytes, mem: MemTable) returns (ok: bool)
    modifies mem
    ensures |rep| < HEADER ==> !ok && mem.entries == old(mem.entries)
    ensures |rep| >= HEADER ==>
      var p := ParseBody(rep[HEADER..]);
      mem.entries == old(mem.entries) + Numbered(SequenceOf(rep), p.ops)
      && ok == (p.ok && |p.ops| == SignedCount(rep))
  {
    if |rep| < HEADER {
      return false;
    }
    hide ParseOp, DecodeFixed, SequenceOf, SignedCount, Numbered, ParseBody, Inserting;
    var sequence, found := SequenceOf(rep), 0;
    var input := rep[HEADER..];
    ghost var done: seq<Op>, start, whole := [], sequence, ParseBody(input);
    InsertingStart(input, start, mem.entries);
    while input != []
      invariant Inserting(whole, start, old(mem.entries), input, done, mem.entries, sequence, found)
      decreases |input|
    {
      InsertingStep(whole, start, old(mem.entries), input, done, mem.entries, sequence, found);
      match ParseOp(input) {
        case Bad =>
          return false;
        case Ok(op, rest) =>
          found := found + 1;
          mem.Add(sequence, op);
          sequence := sequence + 1;
          done := done + [op];
          input := rest;
      }
    }
    InsertingStep(whole, start, old(mem.entries), input, done, mem.entries, sequence, found);
    return found == SignedCount(rep);
  }
}
