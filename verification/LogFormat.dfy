/** The write-ahead log: records cut into fragments that do not cross block boundaries, and the reader that puts them
    together again, also after a crash has cut the file short. */
module LogFormat {
  import opened Coding

  const BLOCK: nat := 32768
  const HEADER: nat := 7

  // Types of physical records.
  const ZERO: Byte := 0
  const FULL: Byte := 1
  const FIRST: Byte := 2
  const MIDDLE: Byte := 3
  const LAST: Byte := 4

  type Crc = Bytes -> Word32

  /** A physical record: masked checksum of type and payload, length, type, payload. */
  function Physical(crc: Crc, kind: Byte, payload: Bytes): (r: Bytes)
    requires |payload| < 0x1_0000
    ensures |r| == HEADER + |payload|
  {
    Fixed(Mask(crc([kind] + payload)), 4) + [|payload| % 256, |payload| / 256] + [kind] + payload
  }

  lemma PhysicalParts(crc: Crc, kind: Byte, payload: Bytes)
    requires |payload| < 0x1_0000
    ensures Physical(crc, kind, payload)
         == (Fixed(Mask(crc([kind] + payload)), 4) + [|payload| % 256, |payload| / 256] + [kind]) + payload
  {
  }

  function FragmentType(begin: bool, end: bool): Byte {
    if begin && end then FULL else if begin then FIRST else if end then LAST else MIDDLE
  }

  function Zeros(n: nat): (r: Bytes)
    ensures |r| == n
  {
    seq(n, _ => 0)
  }

  // Bytes left in the block of file position `p`; a whole block at a boundary.
  function Leftover(p: nat): (r: nat)
    ensures 1 <= r <= BLOCK
  {
    BLOCK - p % BLOCK
  }

  // Filler at `p`: a header must not cross a block boundary.
  function Filler(p: nat): nat {
    if Leftover(p) < HEADER then Leftover(p) else 0
  }

  /** How many bytes of `data` go into the fragment that starts at `p`. */
  function FragmentLength(p: nat, data: Bytes): (n: nat)
    ensures n <= |data| && n < 0x1_0000
  {
    var avail := Leftover(p + Filler(p)) - HEADER;
    if |data| < avail then |data| else avail
  }

  /** The first fragment of a record, or of the rest of one, written at file position `p`. */
  function FirstFragment(crc: Crc, p: nat, data: Bytes, begin: bool): (r: Bytes)
    ensures |r| == Filler(p) + HEADER + FragmentLength(p, data)
  {
    var n := FragmentLength(p, data);
    Zeros(Filler(p)) + Physical(crc, FragmentType(begin, n == |data|), data[..n])
  }

  /** All its fragments. */
  function Fragments(crc: Crc, p: nat, data: Bytes, begin: bool): Bytes
    decreases |data|, if FragmentLength(p, data) == 0 then 1 else 0, 1
  {
    FirstFragment(crc, p, data, begin) + Rest(crc, p, data)
  }

  // The fragments after the first.
  function Rest(crc: Crc, p: nat, data: Bytes): Bytes
    decreases |data|, if FragmentLength(p, data) == 0 then 1 else 0, 0
  {
    var n := FragmentLength(p, data);
    if n == |data| then [] else Fragments(crc, p + Filler(p) + HEADER + n, data[n..], false)
  }

  /** The file that holds the given records. */
  function LogFile(crc: Crc, p: nat, records: seq<Bytes>): Bytes
    decreases |records|
  {
    if records == [] then []
    else
      var first := Fragments(crc, p, records[0], true);
      first + LogFile(crc, p + |first|, records[1..])
  }

  // ---------- the writer ----------

  lemma SameOffset(a: nat, b: nat, n: nat)
    requires a % BLOCK == b % BLOCK
    ensures (a + n) % BLOCK == (b + n) % BLOCK
  {
  }

  class Writer {
    const crc: Crc
    var dest: Bytes
    var blockOffset: nat

    ghost predicate Ok()
      reads this
    {
      blockOffset <= BLOCK && blockOffset % BLOCK == |dest| % BLOCK
    }

    /** Appends to a file that holds `contents` already. */
    constructor (crc: Crc, contents: Bytes)
      ensures Ok() && this.crc == crc && dest == contents
    {
      this.crc, dest := crc, contents;
      blockOffset := |contents| % BLOCK;
    }

    method EmitPhysicalRecord(kind: Byte, payload: Bytes)
      requires Ok() && blockOffset + HEADER + |payload| <= BLOCK
      modifies this
      ensures Ok() && dest == old(dest) + Physical(crc, kind, payload)
    {
      hide Physical, Fixed, Mask;
      var length := |payload|;
      var header := Fixed(Mask(crc([kind] + payload)), 4) + [length % 256, length / 256] + [kind];
      dest := dest + header;
      dest := dest + payload;
      PhysicalParts(crc, kind, payload);
      Assoc(old(dest), header, payload);
      SameOffset(blockOffset, |old(dest)|, HEADER + length);
      blockOffset := blockOffset + HEADER + length;
    }

    // Fills up the block when no header fits in it.
    method SwitchBlock()
      requires Ok()
      modifies this
      ensures Ok() && dest == old(dest) + Zeros(Filler(|old(dest)|))
      ensures BLOCK - blockOffset == Leftover(|dest|) >= HEADER
    {
      var leftover := BLOCK - blockOffset;
      if leftover < HEADER {
        if leftover > 0 {
          dest := dest + Zeros(leftover);
        }
        blockOffset := 0;
      }
    }

    /** Appends one record, cut at block boundaries. */
    method AddRecord(slice: Bytes)
      requires Ok()
      modifies this
      ensures Ok() && dest == old(dest) + Fragments(crc, |old(dest)|, slice, true)
    {
      hide Physical, Zeros;
      var left := slice;
      var begin := true;
      ghost var all := old(dest) + Fragments(crc, |old(dest)|, slice, true);
      while begin || left != []
        invariant Ok()
        invariant all == if begin || left != [] then dest + Fragments(crc, |dest|, left, begin) else dest
        invariant !begin && left != [] ==> |dest| % BLOCK == 0
        decreases begin, |left|
      {
        ghost var p, data, first, before := |dest|, left, begin, dest;
        SwitchBlock();
        var avail := BLOCK - blockOffset - HEADER;
        var length := if |left| < avail then |left| else avail;
        assert length == FragmentLength(p, data);
        var end := |left| == length;
        var kind: Byte;
        if begin && end {
          kind := FULL;
        } else if begin {
          kind := FIRST;
        } else if end {
          kind := LAST;
        } else {
          kind := MIDDLE;
        }
        EmitPhysicalRecord(kind, left[..length]);
        Regroup(before, Zeros(Filler(p)), Physical(crc, kind, left[..length]), Rest(crc, p, data));
        assert dest + [] == dest;
        FragmentProgress(p, data);
        left := left[length..];
        begin := false;
      }
    }
  }

  // A fragment that does not end its record fills up the block.
  lemma FragmentProgress(p: nat, data: Bytes)
    ensures FragmentLength(p, data) < |data| ==> (p + Filler(p) + HEADER + FragmentLength(p, data)) % BLOCK == 0
    ensures p % BLOCK == 0 && data != [] ==> FragmentLength(p, data) > 0
  {
    var q := p + Filler(p);
    assert q + Leftover(q) == (q / BLOCK + 1) * BLOCK;
  }

  lemma Regroup(a: Bytes, b: Bytes, c: Bytes, d: Bytes)
    ensures a + (b + c + d) == (a + b + c) + d
  {
  }
}
