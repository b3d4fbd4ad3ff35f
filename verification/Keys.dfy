/** Internal keys: a user key, the sequence number of the write, and the kind of write.

    The storage engine looks at user keys through the configured comparator only, and every countable total
    order embeds in the rationals, so a user key is represented by its rank, a `real` compared with `<`. */
module Keys {

  type UserKey = real

  // The largest sequence number: 56 bits, because the low 8 bits of a tag hold the type.
  const MAX_SEQUENCE: nat := 0xFF_FFFF_FFFF_FFFF

  datatype ValueType = TypeDeletion | TypeValue

  datatype InternalKey = InternalKey(user: UserKey, num: nat, kind: ValueType)

  datatype Entry = Entry(key: InternalKey, value: string)

  /** What a reader learns about a user key. */
  datatype ReadResult = NotFound | Found(value: string)

  function Tag(k: InternalKey): nat {
    k.num * 256 + (if k.kind.TypeValue? then 1 else 0)
  }

  /** Increasing user key, then decreasing tag. */
  predicate Less(a: InternalKey, b: InternalKey) {
    a.user < b.user || (a.user == b.user && Tag(a) > Tag(b))
  }

  /** The key a reader at snapshot `s` seeks to. */
  function LookupKey(u: UserKey, s: nat): InternalKey {
    InternalKey(u, s, TypeValue)
  }

  ghost predicate Sorted(es: seq<Entry>) {
    forall i, j :: 0 <= i < j < |es| ==> Less(es[i].key, es[j].key)
  }

  function ResultOf(e: Entry): ReadResult {
    if e.key.kind.TypeValue? then Found(e.value) else NotFound
  }
}
