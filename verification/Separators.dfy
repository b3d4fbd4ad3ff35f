/** Short keys between two others: what the index of a table is made of. */
module Separators {
  import opened Coding

  /** Byte by byte, a prefix before what it is a prefix of. */
  predicate Less(a: Bytes, b: Bytes) {
    if b == [] then false
    else if a == [] then true
    else a[0] < b[0] || (a[0] == b[0] && Less(a[1..], b[1..]))
  }

  lemma {:induction false} LessAsymmetric(a: Bytes, b: Bytes)
    ensures !(Less(a, b) && Less(b, a))
    ensures !Less(a, b) && !Less(b, a) ==> a == b
  {
    if a != [] && b != [] {
      LessAsymmetric(a[1..], b[1..]);
      assert a == [a[0]] + a[1..] && b == [b[0]] + b[1..];
    }
  }

  lemma {:induction false} LessTransitive(a: Bytes, b: Bytes, c: Bytes)
    requires Less(a, b) && Less(b, c)
    ensures Less(a, c)
  {
    if a != [] && b != [] && c != [] {
      if a[0] == b[0] == c[0] {
        LessTransitive(a[1..], b[1..], c[1..]);
      }
    }
  }

  /** The first byte that differs decides. */
  lemma {:induction false} FirstDifference(a: Bytes, b: Bytes, d: nat)
    requires d < |a| && d < |b| && a[..d] == b[..d] && a[d] != b[d]
    ensures Less(a, b) <==> a[d] < b[d]
  {
    if d > 0 {
      assert a[0] == a[..d][0] == b[..d][0] == b[0];
      assert a[1..][..d - 1] == a[..d][1..] && b[1..][..d - 1] == b[..d][1..];
      FirstDifference(a[1..], b[1..], d - 1);
    }
  }

  /** `start` itself, or something shorter or equally long strictly between it and the limit. */
  method FindShortestSeparator(start: Bytes, limit: Bytes) returns (r: Bytes)
    ensures r == start || (Less(start, r) && Less(r, limit) && |r| <= |start|)
  {
    var minLength := if |start| < |limit| then |start| else |limit|;
    var diff := 0;
    while diff < minLength && start[diff] == limit[diff]
      invariant diff <= minLength && start[..diff] == limit[..diff]
    {
      assert start[..diff + 1] == start[..diff] + [start[diff]] && limit[..diff + 1] == limit[..diff] + [limit[diff]];
      diff := diff + 1;
    }
    r := start;
    if diff < minLength {
      var diffByte := start[diff];
      if diffByte < 0xff && diffByte + 1 < limit[diff] {
        r := start[..diff] + [diffByte + 1];
        assert r[..diff] == start[..diff];
        FirstDifference(start, r, diff);
        FirstDifference(r, limit, diff);
      }
    }
  }

  /** `key` itself, or something shorter or equally long behind it. */
  method FindShortSuccessor(key: Bytes) returns (r: Bytes)
    ensures r == key || (Less(key, r) && |r| <= |key|)
  {
    for i := 0 to |key| {
      var byte := key[i];
      if byte != 0xff {
        r := key[..i] + [byte + 1];
        assert r[..i] == key[..i];
        FirstDifference(key, r, i);
        return;
      }
    }
    r := key;
  }

  // ---------- internal keys ----------

  /** A user key and the tag that holds sequence number and type. */
  datatype InternalKey = InternalKey(user: Bytes, tag: nat)

  // The tag that comes first: the largest sequence number, and the type to seek with.
  const MAX_TAG: nat := 0xFF_FFFF_FFFF_FFFF * 256 + 1

  predicate Before(a: InternalKey, b: InternalKey) {
    Less(a.user, b.user) || (a.user == b.user && a.tag > b.tag)
  }

  /** A key that keeps to the user key of `start`, or lies strictly between the two user keys. */
  ghost predicate Separates(start: InternalKey, r: InternalKey, limit: InternalKey) {
    r == start || (Less(start.user, r.user) && Less(r.user, limit.user))
  }

  ghost predicate Succeeds(start: InternalKey, r: InternalKey) {
    r == start || Less(start.user, r.user)
  }

  method FindInternalSeparator(start: InternalKey, limit: InternalKey) returns (r: InternalKey)
    ensures Separates(start, r, limit)
  {
    var tmp := FindShortestSeparator(start.user, limit.user);
    r := start;
    if |tmp| < |start.user| && Less(start.user, tmp) {
      r := InternalKey(tmp, MAX_TAG);
    }
  }

  method FindInternalSuccessor(key: InternalKey) returns (r: InternalKey)
    ensures Succeeds(key, r)
  {
    var tmp := FindShortSuccessor(key.user);
    r := key;
    if |tmp| < |key.user| && Less(key.user, tmp) {
      r := InternalKey(tmp, MAX_TAG);
    }
  }
}
