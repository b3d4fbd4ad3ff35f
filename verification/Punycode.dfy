/** The Punycode encoder for the labels of a host name, and its inverse. */
module Punycode {
  import opened Options
  import opened PunycodeDecoder

  const INVALID: nat := 0xFFFF_FFFF        // an undecodable byte sequence in the label
  const MAX_POINT: nat := 0x10_FFFF
  const TOP: nat := 0xFFFF_FFFF            // the largest 32-bit integer

  datatype Status = Ok | Invalid | TooBig

  ghost predicate Points(cps: Text) {
    forall i :: 0 <= i < |cps| ==> cps[i] <= MAX_POINT
  }

  // ---------- the code points below a bound ----------

  function Below(cps: Text, n: nat): (r: Text)
    ensures |r| <= |cps|
  {
    if cps == [] then []
    else
      var m := |cps| - 1;
      Below(cps[..m], n) + if cps[m] < n then [cps[m]] else []
  }

  lemma {:induction false} BelowAppend(a: Text, b: Text, n: nat)
    ensures Below(a + b, n) == Below(a, n) + Below(b, n)
  {
    if b == [] {
      assert a + b == a;
    } else {
      var m := |b| - 1;
      BelowAppend(a, b[..m], n);
      assert (a + b)[..|a| + m] == a + b[..m] && (a + b)[|a| + m] == b[m];
      Reassociate(Below(a, n), Below(b[..m], n), if b[m] < n then [b[m]] else []);
    }
  }

  lemma Reassociate(a: Text, b: Text, c: Text)
    ensures (a + b) + c == a + (b + c)
  {
  }

  lemma BelowOne(c: nat, n: nat)
    ensures Below([c], n) == if c < n then [c] else []
  {
    assert [c][..0] == [];
  }

  lemma {:induction false} BelowAll(cps: Text, n: nat)
    ensures |Below(cps, n)| == |cps| ==> Below(cps, n) == cps && forall i :: 0 <= i < |cps| ==> cps[i] < n
    ensures (forall i :: 0 <= i < |cps| ==> cps[i] < n) ==> Below(cps, n) == cps
  {
    if cps != [] {
      var m := |cps| - 1;
      BelowAll(cps[..m], n);
      assert cps == cps[..m] + [cps[m]];
    }
  }

  // No code point between the bounds.
  lemma {:induction false} BelowJump(cps: Text, n: nat, m: nat)
    requires n <= m && forall i :: 0 <= i < |cps| ==> cps[i] < n || m <= cps[i]
    ensures Below(cps, m) == Below(cps, n)
  {
    if cps != [] {
      BelowJump(cps[..|cps| - 1], n, m);
    }
  }

  /** What the decoder has put together when the encoder, at bound `n`, has come to position `p`. */
  function Partial(cps: Text, n: nat, p: nat): Text
    requires p <= |cps|
  {
    Below(cps[..p], n + 1) + Below(cps[p..], n)
  }

  /** Going one position on inserts the code point there, if it is the one at the bound. */
  lemma PartialStep(cps: Text, n: nat, p: nat)
    requires p < |cps|
    ensures var at, now := |Below(cps[..p], n + 1)|, Partial(cps, n, p);
      && at <= |now|
      && Partial(cps, n, p + 1) == (if cps[p] == n then now[..at] + [n] + now[at..] else now)
      && |Below(cps[..p + 1], n + 1)| == (if cps[p] <= n then at + 1 else at)
  {
    hide Below;
    BelowParts(cps, n, p);
    Moved(Below(cps[..p], n + 1), cps[p], n, Below(cps[p + 1..], n));
  }

  lemma BelowParts(cps: Text, n: nat, p: nat)
    requires p < |cps|
    ensures Below(cps[..p + 1], n + 1) == Below(cps[..p], n + 1) + if cps[p] <= n then [cps[p]] else []
    ensures Below(cps[p..], n) == (if cps[p] < n then [cps[p]] else []) + Below(cps[p + 1..], n)
  {
    hide Below;
    var c := cps[p];
    assert cps[..p + 1] == cps[..p] + [c] && cps[p..] == [c] + cps[p + 1..];
    BelowAppend(cps[..p], [c], n + 1);
    BelowAppend([c], cps[p + 1..], n);
    BelowOne(c, n);
    BelowOne(c, n + 1);
  }

  lemma Moved(front: Text, c: nat, n: nat, back: Text)
    ensures var now := front + ((if c < n then [c] else []) + back);
      var then_ := (front + if c <= n then [c] else []) + back;
      then_ == if c == n then now[..|front|] + [n] + now[|front|..] else now
  {
    if c == n {
      var now := front + ([] + back);
      assert now[..|front|] == front && now[|front|..] == back;
    }
  }

  // ---------- output ----------

  /** What is left of a text in a buffer of limited room. */
  function Cut(full: Text, room: nat): (r: Text)
    ensures |r| <= room && (|full| <= room ==> r == full)
  {
    if |full| <= room then full else full[..room]
  }

  function Put(output: Text, c: nat, room: nat): Text {
    if |output| < room then output + [c] else output
  }

  lemma PutCut(full: Text, c: nat, room: nat)
    ensures Put(Cut(full, room), c, room) == Cut(full + [c], room)
  {
  }

  // ---------- numbers ----------

  /** A character of the alphabet. */
  function Letter(d: nat): nat
    requires d < BASE
  {
    if d < 26 then 'a' as nat + d else '0' as nat + (d - 26)
  }

  ghost predicate NoDelimiter(text: Text) {
    forall i :: 0 <= i < |text| ==> text[i] != DELIMITER
  }

  /** Reading `digits` takes the decoder to the digit of weight `w`, with `a` added. */
  ghost predicate ReadsTo(digits: Text, i: nat, bias: nat, a: nat, w: nat, k: nat) {
    forall rest :: ReadNumber(digits + rest, i, 1, BASE, bias) == ReadNumber(rest, i + a, w, k, bias)
  }

  /** `digits` are the number `delta`. */
  ghost predicate Spells(digits: Text, i: nat, bias: nat, delta: nat) {
    forall rest :: ReadNumber(digits + rest, i, 1, BASE, bias) == Some(Number(i + delta, rest))
  }

  lemma ReadsStart(i: nat, bias: nat)
    ensures ReadsTo([], i, bias, 0, 1, BASE)
  {
    forall rest ensures ReadNumber([] + rest, i, 1, BASE, bias) == ReadNumber(rest, i + 0, 1, BASE, bias) {
      assert [] + rest == rest;
    }
  }

  lemma ReadLetter(d: nat, rest: Text, i: nat, w: nat, k: nat, bias: nat)
    requires d < BASE
    ensures ReadNumber([Letter(d)] + rest, i, w, k, bias) ==
      if d < Threshold(k, bias) then Some(Number(i + d * w, rest))
      else ReadNumber(rest, i + d * w, w * (BASE - Threshold(k, bias)), k + BASE, bias)
  {
    assert Digit(Letter(d)) == Some(d);
    assert ([Letter(d)] + rest)[1..] == rest;
  }

  // `a2` and `w2` are the value and the weight after one digit more.
  lemma ReadsMore(digits: Text, i: nat, bias: nat, a: nat, w: nat, k: nat, d: nat, a2: nat, w2: nat)
    requires ReadsTo(digits, i, bias, a, w, k) && Threshold(k, bias) <= d < BASE
    requires a2 == a + d * w && w2 == w * (BASE - Threshold(k, bias))
    ensures ReadsTo(digits + [Letter(d)], i, bias, a2, w2, k + BASE)
  {
    hide Threshold;
    forall rest
      ensures ReadNumber(digits + [Letter(d)] + rest, i, 1, BASE, bias) == ReadNumber(rest, i + a2, w2, k + BASE, bias)
    {
      ReadLetter(d, rest, i + a, w, k, bias);
      assert digits + [Letter(d)] + rest == digits + ([Letter(d)] + rest);
    }
  }

  lemma ReadsLast(digits: Text, i: nat, bias: nat, a: nat, w: nat, k: nat, d: nat)
    requires ReadsTo(digits, i, bias, a, w, k) && d < Threshold(k, bias)
    ensures Spells(digits + [Letter(d)], i, bias, a + d * w)
  {
    forall rest
      ensures ReadNumber(digits + [Letter(d)] + rest, i, 1, BASE, bias) == Some(Number(i + (a + d * w), rest))
    {
      ReadLetter(d, rest, i + a, w, k, bias);
      assert digits + [Letter(d)] + rest == digits + ([Letter(d)] + rest);
    }
  }

  // The weights add up: `q` is the rest of the number in units of `w`.
  lemma Weights(a: nat, w: nat, q: nat, t: nat)
    requires T_MIN <= t <= T_MAX && t <= q
    ensures var x, y := q - t, BASE - t;
      && 0 <= x % y && t + x % y < BASE && 0 <= x / y < q && w * y >= 0 && (t + x % y) * w >= 0
      && (a + (t + x % y) * w) + (w * y) * (x / y) == a + w * q
  {
    var x, y := q - t, BASE - t;
    var d, r := x / y, x % y;
    Quotients(x, y);
    Regroup(w, y, d, t + r);
    assert t + r + y * d == q;
  }

  lemma Regroup(w: nat, y: nat, d: nat, b: nat)
    ensures b * w + (w * y) * d == w * (b + y * d)
  {
    assert (w * y) * d == w * (y * d);
    Distribute(w, b, y * d);
  }

  lemma Distribute(w: nat, a: nat, b: nat)
    ensures a * w + w * b == w * (a + b)
  {
  }

  /** Writes a number as a generalized variable-length integer. */
  method EncodeNumber(delta: nat, bias: nat, output: Text, room: nat, ghost full: Text, ghost i: nat)
    returns (output': Text, ghost digits: Text)
    requires output == Cut(full, room)
    ensures output' == Cut(full + digits, room)
    ensures Spells(digits, i, bias, delta) && NoDelimiter(digits) && digits != []
  {
    hide ReadsTo, Spells, Cut, Put;
    output' := output;
    digits := [];
    var k: nat, q: nat := BASE, delta;
    ghost var a: nat, w: nat := 0, 1;
    ReadsStart(i, bias);
    assert full + [] == full;
    while true
      invariant output' == Cut(full + digits, room)
      invariant ReadsTo(digits, i, bias, a, w, k) && a + w * q == delta && NoDelimiter(digits)
      decreases q
    {
      var t: nat := 1;
      if k > bias {
        t := k - bias;
      }
      if t > 26 {
        t := 26;
      }
      assert t == Threshold(k, bias);
      if q < t {
        break;
      }
      Weights(a, w, q, t);
      var x, y := q - t, BASE - t;
      q := x / y;
      t := t + x % y;
      ReadsMore(digits, i, bias, a, w, k, t, a + t * w, w * y);
      PutCut(full + digits, Letter(t), room);
      assert full + digits + [Letter(t)] == full + (digits + [Letter(t)]);
      output' := Put(output', Letter(t), room);
      digits := digits + [Letter(t)];
      a, w := a + t * w, w * y;
      k := k + BASE;
    }
    ReadsLast(digits, i, bias, a, w, k, q);
    PutCut(full + digits, Letter(q), room);
    assert full + digits + [Letter(q)] == full + (digits + [Letter(q)]);
    output' := Put(output', Letter(q), room);
    digits := digits + [Letter(q)];
  }

  // ---------- the bias ----------

  lemma HalvedTwice(d: nat)
    ensures d / 2 / 350 == d / DAMP
  {
  }

  /** The new bias after a number, for the label of `points` code points so far. */
  method AdaptBias(number: nat, points: nat, first: bool) returns (bias: nat)
    requires points > 0
    ensures bias == Adapt(number, points, first)
  {
    hide AdaptLoop;
    HalvedTwice(number);
    var delta: nat := number / 2;
    if first {
      delta := delta / 350;
    }
    Quotients(delta, points);
    delta := delta + delta / points;
    ghost var scaled := delta;
    bias := 0;
    assert AdaptLoop(scaled, 0) == AdaptLoop(delta, bias);
    while delta > 35 * 26 / 2
      invariant AdaptLoop(scaled, 0) == AdaptLoop(delta, bias)
      decreases delta
    {
      AdaptUnfold(delta, bias);
      delta := delta / 35;
      bias := bias + 36;
    }
    AdaptUnfold(delta, bias);
    Quotients(36 * delta, delta + 38);
    bias := bias + 36 * delta / (delta + 38);
  }

  lemma AdaptUnfold(delta: nat, k: nat)
    ensures AdaptLoop(delta, k)
         == if delta > 455 then AdaptLoop(delta / 35, k + 36) else k + Div(36 * delta, delta + 38)
  {
  }

  // ---------- encoder and decoder in step ----------

  /** Decoding `digits` takes the decoder from one state to another. */
  ghost predicate Leads(digits: Text, s: State, s2: State) {
    forall rest :: DecodeFrom(digits + rest, s) == DecodeFrom(rest, s2)
  }

  lemma LeadsStart(s: State)
    ensures Leads([], s, s)
  {
    forall rest ensures DecodeFrom([] + rest, s) == DecodeFrom(rest, s) {
      assert [] + rest == rest;
    }
  }

  lemma LeadsMore(digits: Text, s: State, s2: State, more: Text, delta: nat)
    requires Leads(digits, s, s2) && more != [] && Spells(more, s2.i, s2.bias, delta)
    ensures Leads(digits + more, s, Insert(s2, s2.i + delta))
  {
    hide Insert, ReadNumber;
    forall rest ensures DecodeFrom(digits + more + rest, s) == DecodeFrom(rest, Insert(s2, s2.i + delta)) {
      assert digits + more + rest == digits + (more + rest);
      assert ReadNumber(more + rest, s2.i, 1, BASE, s2.bias) == Some(Number(s2.i + delta, rest));
    }
  }

  /** The decoder stands at state `s` when the encoder is at position `p` of bound `n`: `delta` insertion points
      further. */
  ghost predicate InStep(cps: Text, n: nat, p: nat, delta: nat, s: State) {
    && p <= |cps|
    && s.output == Partial(cps, n, p)
    && s.n <= n && s.i <= |s.output|
    && delta == (n - s.n) * (|s.output| + 1) + |Below(cps[..p], n + 1)| - s.i
  }

  lemma StepOver(cps: Text, n: nat, p: nat, delta: nat, s: State)
    requires InStep(cps, n, p, delta, s) && p < |cps| && cps[p] != n
    ensures InStep(cps, n, p + 1, if cps[p] < n then delta + 1 else delta, s)
  {
    hide Below, Partial;
    PartialStep(cps, n, p);
  }

  lemma StepHit(cps: Text, n: nat, p: nat, delta: nat, s: State)
    requires InStep(cps, n, p, delta, s) && p < |cps| && cps[p] == n
    ensures var s2 := Insert(s, s.i + delta);
      && InStep(cps, n, p + 1, 0, s2) && s2.n == n && s2.i > 0
      && |s2.output| == |s.output| + 1
      && s2.bias == Adapt(delta, |s.output| + 1, s.i == 0)
  {
    hide Below, Partial, Adapt;
    PartialStep(cps, n, p);
    Located(n - s.n, |s.output| + 1, |Below(cps[..p], n + 1)|);
  }

  lemma Located(d: nat, y: nat, at: nat)
    requires at < y
    ensures d * y >= 0 && (d * y + at) / y == d && (d * y + at) % y == at
  {
    var x := d * y + at;
    Quotients(x, y);
    var e := x / y;
    assert (d - e) * y == d * y - e * y && (e - d) * y == e * y - d * y;
    if e < d {
      More(d - e, y);
    } else if e > d {
      More(e - d, y);
    }
  }

  lemma More(d: nat, y: nat)
    requires d >= 1
    ensures d * y >= y
  {
  }

  lemma NextBound(cps: Text, n: nat, delta: nat, s: State)
    requires InStep(cps, n, |cps|, delta, s)
    ensures InStep(cps, n + 1, 0, delta + 1, s)
  {
    hide Below;
    EmptyParts(cps, n);
    var y := |s.output| + 1;
    assert (n + 1 - s.n) * y == (n - s.n) * y + y;
  }

  lemma EmptyParts(cps: Text, n: nat)
    ensures Partial(cps, n, |cps|) == Below(cps, n + 1) && Below(cps[..|cps|], n + 1) == Below(cps, n + 1)
    ensures Partial(cps, n, 0) == Below(cps, n) && Below(cps[..0], n + 1) == []
    ensures Partial(cps, n + 1, 0) == Below(cps, n + 1) && Below(cps[..0], n + 2) == []
  {
    assert cps[..|cps|] == cps && cps[|cps|..] == [] && cps[0..] == cps && cps[..0] == [];
    assert Below([], n) == [] && Below([], n + 1) == [] && Below([], n + 2) == [];
    hide Below;
  }

  lemma JumpTo(cps: Text, n: nat, m: nat, delta: nat, s: State)
    requires InStep(cps, n, 0, delta, s) && n <= m
    requires forall i :: 0 <= i < |cps| ==> cps[i] < n || m <= cps[i]
    ensures (m - n) * (|s.output| + 1) >= 0 && InStep(cps, m, 0, delta + (m - n) * (|s.output| + 1), s)
  {
    hide Below;
    BelowJump(cps, n, m);
    EmptyParts(cps, n);
    EmptyParts(cps, m);
    var y := |s.output| + 1;
    assert (m - s.n) * y == (n - s.n) * y + (m - n) * y;
    More(m - n + 1, y);
    assert (m - n + 1) * y == (m - n) * y + y;
  }

  // How far the decoder can be behind.
  lemma Bounded(cps: Text, n: nat, p: nat, delta: nat, s: State)
    requires InStep(cps, n, p, delta, s) && n <= MAX_POINT
    ensures delta + 1 <= 0x11_0000 * (|cps| + 1)
  {
    hide Below;
    PartialSize(cps, n, p);
    Monotone(n - s.n, MAX_POINT, |s.output| + 1, |cps| + 1);
  }

  lemma PartialSize(cps: Text, n: nat, p: nat)
    requires p <= |cps|
    ensures |Below(cps[..p], n + 1)| <= |Partial(cps, n, p)| <= |cps|
  {
  }

  lemma Monotone(a: nat, b: nat, c: nat, d: nat)
    requires a <= b && c <= d
    ensures a * c <= b * d
  {
    assert b * d - a * c == (b - a) * d + a * (d - c);
  }

  // ---------- the encoder ----------

  /** The least code point not below `n`. */
  method Least(cps: Text, n: nat) returns (m: nat)
    requires Points(cps)
    ensures (m == TOP && forall i :: 0 <= i < |cps| ==> cps[i] < n)
      || (n <= m <= MAX_POINT && m in cps && forall i :: 0 <= i < |cps| ==> cps[i] < n || m <= cps[i])
  {
    m := TOP;
    for p := 0 to |cps|
      invariant (m == TOP && forall i :: 0 <= i < p ==> cps[i] < n)
        || (n <= m <= MAX_POINT && m in cps && forall i :: 0 <= i < p ==> cps[i] < n || m <= cps[i])
    {
      if cps[p] >= n && cps[p] < m {
        m := cps[p];
      }
    }
  }

  // Encoder and decoder in step, with the variables of the encoder.
  ghost predicate Coding(cps: Text, n: nat, p: nat, delta: nat, h: nat, bias: nat, first: bool, digits: Text,
                         s: State)
  {
    && InStep(cps, n, p, delta, s)
    && h == |s.output| && bias == s.bias && first == (s.i == 0)
    && Leads(digits, Start(Below(cps, INITIAL_N)), s) && NoDelimiter(digits)
  }

  lemma CodingStart(cps: Text)
    ensures Coding(cps, INITIAL_N, 0, 0, |Below(cps, INITIAL_N)|, INITIAL_BIAS, true, [], Start(Below(cps, INITIAL_N)))
  {
    EmptyParts(cps, INITIAL_N);
    LeadsStart(Start(Below(cps, INITIAL_N)));
    hide Below, Partial, Leads;
  }

  lemma CodingHit(cps: Text, n: nat, p: nat, delta: nat, h: nat, bias: nat, first: bool, digits: Text, s: State,
                  more: Text)
    requires Coding(cps, n, p, delta, h, bias, first, digits, s) && p < |cps| && cps[p] == n
    requires more != [] && NoDelimiter(more) && Spells(more, s.i, bias, delta)
    ensures Coding(cps, n, p + 1, 0, h + 1, Adapt(delta, h + 1, first), false, digits + more, Insert(s, s.i + delta))
    ensures Insert(s, s.i + delta).n == n && h < |cps|
  {
    hide InStep, Leads, Spells, Insert, Adapt;
    StepHit(cps, n, p, delta, s);
    LeadsMore(digits, Start(Below(cps, INITIAL_N)), s, more, delta);
    Room(cps, n, p, delta, s);
  }

  // There is room for one code point more.
  lemma Room(cps: Text, n: nat, p: nat, delta: nat, s: State)
    requires InStep(cps, n, p, delta, s) && p < |cps| && cps[p] == n
    ensures |s.output| < |cps|
  {
    hide Below, Partial, Adapt;
    PartialStep(cps, n, p);
    PartialSize(cps, n, p + 1);
  }

  // Points are left while there is work to do.
  lemma Remaining(cps: Text, n: nat, delta: nat, h: nat, bias: nat, first: bool, digits: Text, s: State)
    requires Coding(cps, n, 0, delta, h, bias, first, digits, s) && h < |cps|
    ensures exists i :: 0 <= i < |cps| && cps[i] >= n
  {
    EmptyParts(cps, n);
    BelowAll(cps, n);
  }

  lemma CodingJump(cps: Text, n: nat, m: nat, delta: nat, h: nat, bias: nat, first: bool, digits: Text, s: State)
    requires Coding(cps, n, 0, delta, h, bias, first, digits, s) && n <= m <= MAX_POINT
    requires forall i :: 0 <= i < |cps| ==> cps[i] < n || m <= cps[i]
    ensures (m - n) * (h + 1) >= 0 && Coding(cps, m, 0, delta + (m - n) * (h + 1), h, bias, first, digits, s)
    ensures delta + (m - n) * (h + 1) + 1 <= 0x11_0000 * (|cps| + 1)
  {
    hide InStep, Leads;
    JumpTo(cps, n, m, delta, s);
    Bounded(cps, m, 0, delta + (m - n) * (|s.output| + 1), s);
  }

  lemma Quotient(x: nat, y: nat, r: nat)
    requires y > 0
    ensures x > r / y <==> x * y > r
  {
    var q := r / y;
    Quotients(r, y);
    if x > q {
      Monotone(q + 1, x, y, y);
      assert (q + 1) * y == q * y + y;
    } else {
      Monotone(x, q, y, y);
    }
  }

  lemma CodingOver(cps: Text, n: nat, p: nat, delta: nat, h: nat, bias: nat, first: bool, digits: Text, s: State)
    requires Coding(cps, n, p, delta, h, bias, first, digits, s) && p < |cps| && cps[p] != n && n <= MAX_POINT
    ensures Coding(cps, n, p + 1, if cps[p] < n then delta + 1 else delta, h, bias, first, digits, s)
    ensures delta + 1 <= 0x11_0000 * (|cps| + 1)
  {
    hide InStep, Leads;
    StepOver(cps, n, p, delta, s);
    Bounded(cps, n, p, delta, s);
  }

  lemma CodingNext(cps: Text, n: nat, delta: nat, h: nat, bias: nat, first: bool, digits: Text, s: State)
    requires Coding(cps, n, |cps|, delta, h, bias, first, digits, s) && s.n == n
    ensures Coding(cps, n + 1, 0, delta + 1, h, bias, first, digits, s) && delta <= |cps|
  {
    hide Leads, Below;
    NextBound(cps, n, delta, s);
    PartialSize(cps, n, |cps|);
  }

  lemma CodingEnd(cps: Text, n: nat, delta: nat, h: nat, bias: nat, first: bool, digits: Text, s: State)
    requires Coding(cps, n, 0, delta, h, bias, first, digits, s) && h == |cps|
    ensures DecodeFrom(digits, Start(Below(cps, INITIAL_N))) == Some(cps) && NoDelimiter(digits)
  {
    EmptyParts(cps, n);
    BelowAll(cps, n);
    assert digits + [] == digits;
    assert DecodeFrom(digits + [], Start(Below(cps, INITIAL_N))) == DecodeFrom([], s);
  }

  /** All numbers of a label with `todo` code points that are not basic. */
  method EncodeNumbers(cps: Text, basic: nat, output: Text, room: nat, ghost full: Text)
    returns (ok: bool, output': Text, ghost digits: Text)
    requires Points(cps) && |cps| < TOP && basic == |Below(cps, INITIAL_N)| && output == Cut(full, room)
    ensures ok ==> output' == Cut(full + digits, room) && NoDelimiter(digits)
    ensures ok ==> DecodeFrom(digits, Start(Below(cps, INITIAL_N))) == Some(cps)
    ensures !ok ==> 0x11_0000 * (|cps| + 1) > TOP
  {
    hide Below, Coding, Cut;
    output', digits := output, [];
    var n: nat, bias: nat, delta: nat, first, h := INITIAL_N, INITIAL_BIAS, 0, true, basic;
    var todo := |cps| - h;
    ghost var s := Start(Below(cps, INITIAL_N));
    CodingStart(cps);
    assert full + [] == full;
    while todo > 0
      invariant Coding(cps, n, 0, delta, h, bias, first, digits, s) && todo == |cps| - h >= 0
      invariant output' == Cut(full + digits, room) && delta <= TOP
      decreases todo
    {
      var m := Least(cps, n);
      Remaining(cps, n, delta, h, bias, first, digits, s);
      var x, y := m - n, h + 1;
      CodingJump(cps, n, m, delta, h, bias, first, digits, s);
      Quotient(x, y, TOP - delta);
      if x > (TOP - delta) / y {
        return false, output', digits;
      }
      delta := delta + x * y;
      n := m;
      var p := 0;
      ghost var before, at :| 0 <= at < |cps| && cps[at] == m && before == h;
      while p < |cps|
        invariant 0 <= p <= |cps|
        invariant Coding(cps, n, p, delta, h, bias, first, digits, s) && todo == |cps| - h >= 0 && n <= MAX_POINT
        invariant output' == Cut(full + digits, room) && delta <= TOP && before <= h
        invariant p > at ==> s.n == n && before < h
      {
        var c := cps[p];
        if c < n {
          CodingOver(cps, n, p, delta, h, bias, first, digits, s);
          if delta == TOP {
            return false, output', digits;
          }
          delta := delta + 1;
        } else if c > n {
          CodingOver(cps, n, p, delta, h, bias, first, digits, s);
        } else {
          ghost var more;
          output', more := EncodeNumber(delta, bias, output', room, full + digits, s.i);
          CodingHit(cps, n, p, delta, h, bias, first, digits, s, more);
          assert full + digits + more == full + (digits + more);
          digits := digits + more;
          h := h + 1;
          s := Insert(s, s.i + delta);
          bias := AdaptBias(delta, h, first);
          first := false;
          delta := 0;
          todo := todo - 1;
        }
        p := p + 1;
      }
      CodingNext(cps, n, delta, h, bias, first, digits, s);
      delta := delta + 1;
      n := n + 1;
    }
    CodingEnd(cps, n, delta, h, bias, first, digits, s);
    ok := true;
  }

  // ---------- labels ----------

  const ACE: Text := ['x' as nat, 'n' as nat, DELIMITER, DELIMITER]

  ghost predicate Ascii(cps: Text) {
    forall i :: 0 <= i < |cps| ==> cps[i] < INITIAL_N
  }

  /** The text behind the prefix: basic code points, a delimiter if there are any, numbers. */
  lemma DecodeParts(basic: Text, digits: Text)
    requires Ascii(basic) && NoDelimiter(digits)
    ensures Decode(basic + (if |basic| > 0 then [DELIMITER] else []) + digits) == DecodeFrom(digits, Start(basic))
  {
    hide DecodeFrom;
    if basic == [] {
      NoneAfter([], digits);
      assert [] + [] + digits == digits;
    } else {
      var front := basic + [DELIMITER];
      NoneAfter(front, digits);
      assert AfterDelimiter(front) == |front|;
      var text, p := front + digits, |front|;
      assert text[p..] == digits && text[..p - 1] == basic;
      assert forall j :: 0 <= j < p - 1 ==> text[j] == basic[j];
    }
  }

  lemma {:induction false} NoneAfter(front: Text, digits: Text)
    requires NoDelimiter(digits)
    ensures AfterDelimiter(front + digits) == AfterDelimiter(front)
  {
    if digits == [] {
      assert front + digits == front;
    } else {
      var m := |digits| - 1;
      NoneAfter(front, digits[..m]);
      assert (front + digits)[..|front| + m] == front + digits[..m];
      assert (front + digits)[|front| + m] == digits[m] != DELIMITER;
    }
  }

  lemma {:induction false} BelowAscii(cps: Text)
    ensures Ascii(Below(cps, INITIAL_N))
  {
    if cps != [] {
      BelowAscii(cps[..|cps| - 1]);
    }
  }

  // Numbers of code points of either kind.
  method CountPoints(cps: Text) returns (ok: bool, h: nat, todo: nat)
    requires forall i :: 0 <= i < |cps| ==> cps[i] <= MAX_POINT || cps[i] == INVALID
    ensures ok <==> INVALID !in cps
    ensures ok ==> h == |Below(cps, INITIAL_N)| && h + todo == |cps|
  {
    h, todo := 0, 0;
    for p := 0 to |cps|
      invariant INVALID !in cps[..p] && h == |Below(cps[..p], INITIAL_N)| && h + todo == p
    {
      assert cps[..p + 1] == cps[..p] + [cps[p]];
      assert cps[..p + 1][..p] == cps[..p];
      if cps[p] < 128 {
        h := h + 1;
      } else if cps[p] == INVALID {
        return false, h, todo;
      } else {
        todo := todo + 1;
      }
    }
    assert cps[..|cps|] == cps;
    ok := true;
  }

  /** The basic code points in order; stops early when all are there. */
  method CopyBasic(cps: Text, h: nat, output: Text, room: nat, ghost full: Text) returns (output': Text)
    requires output == Cut(full, room) && h == |Below(cps, INITIAL_N)|
    ensures output' == Cut(full + Below(cps, INITIAL_N), room)
  {
    hide Cut, Put;
    output' := output;
    var x, p := 0, 0;
    assert Below([], INITIAL_N) == [] && full + [] == full && cps[..0] == [];
    while p < |cps|
      invariant 0 <= p <= |cps|
      invariant output' == Cut(full + Below(cps[..p], INITIAL_N), room) && x == |Below(cps[..p], INITIAL_N)|
    {
      BelowSnoc(cps, p);
      if cps[p] <= 127 {
        ghost var now := full + Below(cps[..p], INITIAL_N);
        PutCut(now, cps[p], room);
        assert now + [cps[p]] == full + (Below(cps[..p], INITIAL_N) + [cps[p]]);
        output' := Put(output', cps[p], room);
        x := x + 1;
        if x == h {
          BelowRest(cps, p + 1);
          return;
        }
      } else {
        assert Below(cps[..p], INITIAL_N) + [] == Below(cps[..p], INITIAL_N);
      }
      p := p + 1;
    }
    assert cps[..|cps|] == cps;
  }

  lemma BelowSnoc(cps: Text, p: nat)
    requires p < |cps|
    ensures Below(cps[..p + 1], INITIAL_N) == Below(cps[..p], INITIAL_N) + if cps[p] < INITIAL_N then [cps[p]] else []
  {
    assert cps[..p + 1][..p] == cps[..p];
  }

  lemma BelowRest(cps: Text, p: nat)
    requires p <= |cps| && |Below(cps[..p], INITIAL_N)| == |Below(cps, INITIAL_N)|
    ensures Below(cps[..p], INITIAL_N) == Below(cps, INITIAL_N)
  {
    BelowAppend(cps[..p], cps[p..], INITIAL_N);
    assert cps == cps[..p] + cps[p..];
    hide Below;
    assert Below(cps[..p], INITIAL_N) + [] == Below(cps[..p], INITIAL_N);
  }

  lemma Separated(basic: Text)
    ensures ACE + basic == ACE + (basic + []) && ACE + basic + [DELIMITER] == ACE + (basic + [DELIMITER])
  {
  }

  lemma Uncut(output: Text, front: Text, digits: Text, room: nat)
    requires output == Cut(ACE + front + digits, room) && |output| < room
    ensures |output| >= |ACE| && output[..|ACE|] == ACE && output[|ACE|..] == front + digits
  {
    assert ACE + front + digits == ACE + (front + digits);
  }

  /** A label with `todo` code points that are not basic, all decodable. */
  method EncodeLabel(cps: Text, h: nat, room: nat) returns (ok: bool, output: Text)
    requires Points(cps) && |cps| < TOP && h == |Below(cps, INITIAL_N)|
    ensures !ok ==> 0x11_0000 * (|cps| + 1) > TOP
    ensures ok && |output| < room ==>
      |output| >= |ACE| && output[..|ACE|] == ACE && Decode(output[|ACE|..]) == Some(cps)
  {
    hide Below, Decode, DecodeFrom, Cut, Put;
    output := Put(Put(Put(Put([], ACE[0], room), ACE[1], room), ACE[2], room), ACE[3], room);
    PrefixCut(room);
    output := CopyBasic(cps, h, output, room, ACE);
    ghost var basic := Below(cps, INITIAL_N);
    ghost var front := basic + if h > 0 then [DELIMITER] else [];
    Separated(basic);
    if h > 0 {
      PutCut(ACE + basic, DELIMITER, room);
      output := Put(output, DELIMITER, room);
    }
    ghost var digits;
    ok, output, digits := EncodeNumbers(cps, h, output, room, ACE + front);
    if ok {
      BelowAscii(cps);
      DecodeParts(basic, digits);
      if |output| < room {
        Uncut(output, front, digits, room);
      }
    }
  }

  /** One label of a host name. With room to spare, the text behind the prefix decodes to the label. */
  method ToAsciiLabel(cps: Text, room: nat) returns (status: Status, output: Text)
    requires |cps| < TOP && forall i :: 0 <= i < |cps| ==> cps[i] <= MAX_POINT || cps[i] == INVALID
    ensures status == Invalid <==> INVALID in cps
    ensures status == TooBig ==> 0x11_0000 * (|cps| + 1) > TOP
    ensures Ascii(cps) ==> status == Ok && output == Cut(cps, room)
    ensures status == Ok && !Ascii(cps) && |output| < room ==>
      |output| >= |ACE| && output[..|ACE|] == ACE && Decode(output[|ACE|..]) == Some(cps)
  {
    hide Below, Decode, DecodeFrom, Cut;
    var ok, h, todo := CountPoints(cps);
    if !ok {
      return Invalid, [];
    }
    BelowAll(cps, INITIAL_N);
    if todo == 0 {
      assert [] + cps == cps && [] == Cut([], room);
      output := CopyBasic(cps, h, [], room, []);
      return Ok, output;
    }
    ok, output := EncodeLabel(cps, h, room);
    status := if ok then Ok else TooBig;
  }

  lemma PrefixCut(room: nat)
    ensures Put(Put(Put(Put([], ACE[0], room), ACE[1], room), ACE[2], room), ACE[3], room) == Cut(ACE, room)
  {
    assert ACE == [] + [ACE[0]] + [ACE[1]] + [ACE[2]] + [ACE[3]];
  }
}
