/** The decoder of RFC 3492, section 6.2, with the bias adaptation of section 6.1. */
module PunycodeDecoder {
  import opened Options

  // Parameters of section 5.
  const BASE: nat := 36
  const T_MIN: nat := 1
  const T_MAX: nat := 26
  const SKEW: nat := 38
  const DAMP: nat := 700
  const INITIAL_BIAS: nat := 72
  const INITIAL_N: nat := 128
  const DELIMITER: nat := '-' as nat

  type Text = seq<nat>

  function Threshold(k: nat, bias: nat): (t: nat)
    ensures T_MIN <= t <= T_MAX
  {
    if k <= bias + T_MIN then T_MIN else if k >= bias + T_MAX then T_MAX else k - bias
  }

  lemma Quotients(a: nat, b: nat)
    requires b > 0
    ensures a == b * (a / b) + a % b && 0 <= a / b <= a && 0 <= a % b < b
  {
    var q := a / b;
    assert a == b * q + a % b;
    if q > 0 {
      AtLeast(q, b);
    }
  }

  lemma AtLeast(a: nat, b: nat)
    requires a >= 1 && b >= 1
    ensures a * b >= a && a * b >= b
  {
    assert a * b == (a - 1) * b + b == (b - 1) * a + a;
  }

  function Div(a: nat, b: nat): nat
    requires b > 0
  {
    Quotients(a, b);
    a / b
  }

  function AdaptLoop(delta: nat, k: nat): nat {
    if delta > (BASE - T_MIN) * T_MAX / 2 then AdaptLoop(delta / (BASE - T_MIN), k + BASE)
    else k + Div((BASE - T_MIN + 1) * delta, delta + SKEW)
  }

  function Adapt(delta: nat, points: nat, first: bool): nat
    requires points > 0
  {
    var d := if first then delta / DAMP else delta / 2;
    AdaptLoop(d + Div(d, points), 0)
  }

  /** The value of a character as a digit: letters in either case, then decimal digits. */
  function Digit(c: nat): Option<nat> {
    if 'a' as nat <= c <= 'z' as nat then Some(c - 'a' as nat)
    else if 'A' as nat <= c <= 'Z' as nat then Some(c - 'A' as nat)
    else if '0' as nat <= c <= '9' as nat then Some(c - '0' as nat + 26)
    else None
  }

  datatype Number = Number(value: nat, rest: Text)

  /** A generalized variable-length integer, added to `i`. */
  function ReadNumber(text: Text, i: nat, w: nat, k: nat, bias: nat): (r: Option<Number>)
    ensures r.Some? ==> |r.value.rest| < |text| && r.value.value >= i
    decreases |text|
  {
    if text == [] || Digit(text[0]).None? then None
    else
      var digit, t := Digit(text[0]).value, Threshold(k, bias);
      if digit < t then Some(Number(i + digit * w, text[1..]))
      else ReadNumber(text[1..], i + digit * w, w * (BASE - t), k + BASE, bias)
  }

  /** The decoder between two insertions. */
  datatype State = State(n: nat, i: nat, bias: nat, output: Text)

  function Insert(s: State, i: nat): State
    requires s.i <= i
  {
    var length := |s.output| + 1;
    Quotients(i, length);
    var n, at := s.n + i / length, i % length;
    State(n, at + 1, Adapt(i - s.i, length, s.i == 0), s.output[..at] + [n] + s.output[at..])
  }

  function DecodeFrom(text: Text, s: State): Option<Text>
    decreases |text|
  {
    if text == [] then Some(s.output)
    else
      match ReadNumber(text, s.i, 1, BASE, s.bias)
      case None => None
      case Some(number) => DecodeFrom(number.rest, Insert(s, number.value))
  }

  // One past the last delimiter, or 0.
  function AfterDelimiter(text: Text): (r: nat)
    ensures r <= |text|
  {
    if text == [] then 0
    else if text[|text| - 1] == DELIMITER then |text|
    else AfterDelimiter(text[..|text| - 1])
  }

  function Start(basic: Text): State {
    State(INITIAL_N, 0, INITIAL_BIAS, basic)
  }

  /** The code points that a text stands for, if it is well-formed. */
  function Decode(text: Text): Option<Text> {
    var p := AfterDelimiter(text);
    if p <= 1 then DecodeFrom(text, Start([]))
    else if exists j :: 0 <= j < p - 1 && text[j] >= INITIAL_N then None
    else DecodeFrom(text[p..], Start(text[..p - 1]))
  }
}
