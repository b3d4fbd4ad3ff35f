/** Integers and byte strings as LevelDB stores them. */
module Coding {

  type Byte = b: int | 0 <= b < 256
  type Bytes = seq<Byte>
  type Word32 = w: int | 0 <= w < 0x1_0000_0000

  lemma Assoc(a: Bytes, b: Bytes, c: Bytes)
    ensures (a + b) + c == a + (b + c)
  {
  }

  // ---------- fixed width, least significant byte first ----------

  function Fixed(n: nat, width: nat): (r: Bytes)
    ensures |r| == width
  {
    if width == 0 then [] else [n % 256] + Fixed(n / 256, width - 1)
  }

  function DecodeFixed(b: Bytes): nat {
    if b == [] then 0 else b[0] + 256 * DecodeFixed(b[1..])
  }

  function Pow256(width: nat): nat {
    if width == 0 then 1 else 256 * Pow256(width - 1)
  }

  lemma {:induction false} FixedRoundTrip(n: nat, width: nat)
    requires n < Pow256(width)
    ensures DecodeFixed(Fixed(n, width)) == n
  {
    if width > 0 {
      FixedRoundTrip(n / 256, width - 1);
      assert Fixed(n, width)[1..] == Fixed(n / 256, width - 1);
    }
  }

  lemma {:induction false} FixedOfDecoded(b: Bytes)
    ensures DecodeFixed(b) < Pow256(|b|) && Fixed(DecodeFixed(b), |b|) == b
  {
    if b != [] {
      FixedOfDecoded(b[1..]);
      var d := DecodeFixed(b[1..]);
      assert (b[0] + 256 * d) / 256 == d && (b[0] + 256 * d) % 256 == b[0];
    }
  }

  lemma Pow256Values()
    ensures Pow256(2) == 0x1_0000 && Pow256(4) == 0x1_0000_0000 && Pow256(8) == 0x1_0000_0000_0000_0000
  {
    assert Pow256(4) == 0x1_0000_0000;
    assert Pow256(6) == 0x1_0000_0000_0000;
  }

  // ---------- masked checksums ----------

  const MASK_DELTA: nat := 0xa282ead8

  /** The form in which checksums are stored: the low 15 bits change places with the others, and then an offset. */
  function Mask(crc: Word32): Word32 {
    (crc / 0x8000 + (crc % 0x8000) * 0x2_0000 + MASK_DELTA) % 0x1_0000_0000
  }

  function Unmask(masked: Word32): Word32 {
    var rot := (masked - MASK_DELTA) % 0x1_0000_0000;
    rot / 0x2_0000 + (rot % 0x2_0000) * 0x8000
  }

  lemma UnmaskMask(crc: Word32)
    ensures Unmask(Mask(crc)) == crc
  {
    var hi, lo := crc / 0x8000, crc % 0x8000;
    var rot := hi + lo * 0x2_0000;
    assert hi < 0x2_0000;
    assert (Mask(crc) - MASK_DELTA) % 0x1_0000_0000 == rot;
    assert rot / 0x2_0000 == lo && rot % 0x2_0000 == hi;
  }

  lemma MaskUnmask(masked: Word32)
    ensures 0 <= Unmask(masked) < 0x1_0000_0000 && Mask(Unmask(masked)) == masked
  {
    var rot := (masked - MASK_DELTA) % 0x1_0000_0000;
    var hi, lo := rot / 0x2_0000, rot % 0x2_0000;
    assert hi < 0x8000;
    assert Unmask(masked) / 0x8000 == lo && Unmask(masked) % 0x8000 == hi;
    assert (rot + MASK_DELTA) % 0x1_0000_0000 == masked;
  }

  // ---------- variable width ----------

  /** Seven bits a byte, the high bit set on all but the last. */
  function Varint(n: nat): (r: Bytes)
    ensures r != []
  {
    if n < 128 then [n] else [n % 128 + 128] + Varint(n / 128)
  }

  datatype Parsed<T> = Bad | Ok(value: T, rest: Bytes)

  /** At most `limit` bytes are read. */
  function ParseVarint(b: Bytes, limit: nat): (r: Parsed<nat>)
    ensures r.Ok? ==> |r.rest| < |b|
  {
    if b == [] || limit == 0 then Bad
    else if b[0] < 128 then Ok(b[0], b[1..])
    else
      match ParseVarint(b[1..], limit - 1)
      case Bad => Bad
      case Ok(n, rest) => Ok(b[0] - 128 + 128 * n, rest)
  }

  function Pow128(width: nat): nat {
    if width == 0 then 1 else 128 * Pow128(width - 1)
  }

  lemma {:induction false} VarintRoundTrip(n: nat, limit: nat, rest: Bytes)
    requires limit >= 1 && n < Pow128(limit)
    ensures ParseVarint(Varint(n) + rest, limit) == Ok(n, rest)
    decreases n
  {
    if n < 128 {
      assert (Varint(n) + rest)[1..] == rest;
    } else {
      assert Pow128(1) == 128;
      VarintRoundTrip(n / 128, limit - 1, rest);
      assert (Varint(n) + rest)[1..] == Varint(n / 128) + rest;
    }
  }

  // Length-prefixed byte strings; the length is a varint of at most five bytes, below 2^32.
  const MAX_LENGTH: nat := 0x1_0000_0000

  function LengthPrefixed(s: Bytes): Bytes {
    Varint(|s| % MAX_LENGTH) + s
  }

  function ParseLengthPrefixed(b: Bytes): (r: Parsed<Bytes>)
    ensures r.Ok? ==> |r.rest| < |b|
  {
    match ParseVarint(b, 5)
    case Bad => Bad
    case Ok(n, rest) =>
      var len := n % MAX_LENGTH;  // five bytes hold 35 bits, the top three of which are lost
      if len <= |rest| then Ok(rest[..len], rest[len..]) else Bad
  }

  lemma LengthPrefixedRoundTrip(s: Bytes, rest: Bytes)
    requires |s| < MAX_LENGTH
    ensures ParseLengthPrefixed(LengthPrefixed(s) + rest) == Ok(s, rest)
  {
    assert Pow128(5) == 0x8_0000_0000 by { assert Pow128(3) == 0x20_0000; }
    assert LengthPrefixed(s) + rest == Varint(|s|) + (s + rest);
    VarintRoundTrip(|s|, 5, s + rest);
    assert (s + rest)[..|s|] == s && (s + rest)[|s|..] == rest;
  }
}
