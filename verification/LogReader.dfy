/** Reading a log back: also one that a crash has cut off at any byte. */
module LogReader {
  import opened Coding
  import opened LogFormat

  // Beyond the types of the format.
  const EOF: nat := 5
  const BAD: nat := 6

  function LengthField(header: Bytes): nat
    requires |header| >= HEADER
  {
    var low: nat, high: nat := header[4], header[5];
    low + 256 * high
  }

  function StoredCrc(header: Bytes): int
    requires |header| >= HEADER
  {
    FixedOfDecoded(header[..4]);
    Pow256Values();
    Unmask(DecodeFixed(header[..4]))
  }

  class Reader {
    const crc: Crc
    const checksum: bool
    const size: nat         // of the file
    var unread: Bytes       // what the file has not handed over yet
    var buffer: Bytes
    var eof: bool
    var endOfBufferOffset: nat
    var lastRecordOffset: nat
    var reports: seq<nat>   // sizes of the drops reported as corruption

    ghost predicate Ok()
      reads this`buffer, this`unread, this`eof, this`endOfBufferOffset
    {
      && |buffer| <= endOfBufferOffset
      && endOfBufferOffset + |unread| == size
      && (eof ==> unread == [])
      && (!eof ==> endOfBufferOffset % BLOCK == 0)
      && (buffer != [] ==> |buffer| <= Leftover(At()))
      && (!eof && buffer != [] ==> |buffer| == Leftover(At()))
    }

    /** The position in the file, and what lies beyond it. */
    ghost function At(): nat
      requires |buffer| <= endOfBufferOffset
      reads this`buffer, this`endOfBufferOffset
    {
      endOfBufferOffset - |buffer|
    }

    ghost function Stream(): Bytes
      reads this`buffer, this`unread
    {
      buffer + unread
    }

    constructor (crc: Crc, checksum: bool, file: Bytes)
      ensures Ok() && this.crc == crc && At() == 0 && Stream() == file && reports == []
    {
      this.crc, this.checksum, size := crc, checksum, |file|;
      unread, buffer, eof, endOfBufferOffset, lastRecordOffset, reports := file, [], false, 0, 0, [];
    }

    method ReportCorruption(bytes: nat)
      modifies this`reports
      ensures old(Ok()) ==> Ok()
      ensures reports == old(reports) + [bytes]
    {
      reports := reports + [bytes];
    }

    method RemovePrefix(n: nat)
      requires Ok() && n <= |buffer|
      modifies this`buffer
      ensures Ok() && At() == old(At()) + n && n <= At()
      ensures buffer == old(buffer)[n..]
      ensures old(Stream()) == old(buffer)[..n] + Stream()
    {
      hide Leftover;
      LeftoverAfter(At(), n, |buffer|);
      CutBehind(buffer, n, unread);
      buffer := buffer[n..];
    }

    // The next read of the file.
    method Fill()
      requires Ok() && !eof && |buffer| < HEADER
      modifies this`unread, this`buffer, this`eof, this`endOfBufferOffset
      ensures Ok() && Stream() == old(Stream())[|old(buffer)|..] && At() == old(At()) + |old(buffer)|
      ensures eof || |buffer| == BLOCK
      ensures |unread| <= |old(unread)| && (!eof ==> |unread| < |old(unread)|)
    {
      assert (buffer + unread)[|buffer|..] == unread;
      var k := if |unread| < BLOCK then |unread| else BLOCK;
      buffer := unread[..k];
      unread := unread[k..];
      endOfBufferOffset := endOfBufferOffset + k;
      if k < BLOCK {
        eof := true;
      }
    }

    /** Makes a header available, past the trailer of a block; false at the end of the file. */
    method SkipTrailer() returns (ready: bool)
      requires Ok()
      modifies this`unread, this`buffer, this`eof, this`endOfBufferOffset
      ensures Ok()
      ensures ready == (|old(Stream())| >= Filler(old(At())) + HEADER)
      ensures ready ==> |buffer| >= HEADER && Stream() == old(Stream())[Filler(old(At()))..]
      ensures ready ==> At() == old(At()) + Filler(old(At())) && Filler(At()) == 0
      ensures !ready ==> Stream() == []
    {
      assert old(Stream())[0..] == old(Stream());
      while |buffer| < HEADER
        invariant Ok()
        invariant (Stream() == old(Stream()) && At() == old(At()) && eof == old(eof) && buffer == old(buffer))
          || (|old(buffer)| < HEADER && |old(Stream())| >= Filler(old(At())) && At() == old(At()) + Filler(old(At()))
              && Stream() == old(Stream())[Filler(old(At()))..] && (eof || |buffer| == BLOCK))
        decreases |unread|, !eof
      {
        if !eof {
          TrailerIsFiller(At(), |buffer|);
          Fill();
        } else {
          buffer := [];
          return false;
        }
      }
      return true;
    }

    /** Whether the record whose header is next in the buffer is whole and sound; if not, what to make of it. */
    method CheckHeader(ghost kind: Byte, ghost payload: Bytes, ghost rest: Bytes)
      returns (accept: bool, length: nat, verdict: nat, report: bool)
      requires Ok() && |buffer| >= HEADER
      ensures length == LengthField(buffer)
      ensures accept ==> HEADER + length <= |buffer| && verdict == buffer[6]
      ensures accept && checksum ==> StoredCrc(buffer) == crc(buffer[6..HEADER + length])
      ensures !accept ==> verdict == EOF || verdict == BAD
      ensures Comes(crc, Stream(), At(), kind, payload, rest) ==>
        !report && accept == (HEADER + |payload| <= |Stream()|) && (!accept ==> verdict == EOF)
    {
      var header := buffer;
      if Comes(crc, Stream(), At(), kind, payload, rest) {
        HeaderComes(crc, header, unread, At(), kind, payload, rest);
        assert eof || HEADER + |payload| <= |header|;
        assert eof ==> Stream() == header;
      }
      hide Physical, Leftover, StoredCrc, LengthField, Comes, Ok;
      length := LengthField(header);
      accept, verdict, report := true, header[6], false;
      if HEADER + length > |header| {
        accept, verdict, report := false, if eof then EOF else BAD, !eof;
      } else if verdict == ZERO && length == 0 {
        accept, verdict := false, BAD;
      } else if checksum {
        var expected := StoredCrc(header);
        var actual := crc(header[6..HEADER + length]);
        if actual != expected {
          accept, verdict, report := false, BAD, true;
        }
      }
    }

    /** The fragment whose header is next in the buffer; a bad record takes the rest of the buffer with it. */
    method TakeFragment(ghost kind: Byte, ghost payload: Bytes, ghost rest: Bytes)
      returns (type_: nat, fragment: Bytes)
      requires Ok() && |buffer| >= HEADER
      modifies this`buffer, this`reports
      ensures Ok() && |Stream()| < |old(Stream())|
      ensures type_ < EOF ==> HEADER + |fragment| <= At()
      ensures type_ < EOF && checksum ==> Holds(crc, old(Stream()), type_, fragment, Stream())
      ensures At() + |Stream()| == old(At()) + |old(Stream())|
      ensures Comes(crc, old(Stream()), old(At()), kind, payload, rest) ==>
        Outcome(HEADER + |payload|, old(Stream()), kind, payload, rest, type_, fragment, Stream())
      ensures Comes(crc, old(Stream()), old(At()), kind, payload, rest) ==> reports == old(reports)
    {
      hide Physical, Leftover, StoredCrc, LengthField, Comes;
      var header := buffer;
      var accept, length, verdict, report := CheckHeader(kind, payload, rest);
      if Comes(crc, Stream(), At(), kind, payload, rest) {
        HeaderComes(crc, header, unread, At(), kind, payload, rest);
      }
      if accept && checksum {
        Checked(crc, header, length);
      }
      type_ := verdict;
      if accept {
        RemovePrefix(HEADER + length);
        fragment := header[HEADER..HEADER + length];
        assert old(Stream()) == [] + header[..HEADER + length] + Stream();
      } else {
        RemovePrefix(|header|);
        if report {
          ReportCorruption(|header|);
        }
        fragment := [];
      }
    }

    /** The next fragment and its type. */
    method ReadPhysicalRecord(ghost kind: Byte, ghost payload: Bytes, ghost rest: Bytes)
      returns (type_: nat, fragment: Bytes)
      requires Ok()
      modifies this`unread, this`buffer, this`eof, this`endOfBufferOffset, this`reports
      ensures Ok()
      ensures type_ != EOF ==> |Stream()| < |old(Stream())|
      ensures type_ < EOF ==> HEADER + |fragment| <= At()
      ensures At() + |Stream()| == old(At()) + |old(Stream())|
      // whatever the file holds: a fragment is part of it, with its own checksum
      ensures type_ < EOF && checksum ==> Holds(crc, old(Stream()), type_, fragment, Stream())
      // at a fragment of the writer's: that fragment if it is complete, nothing if it is cut off
      ensures AtFragment(crc, old(Stream()), old(At()), kind, payload, rest) ==>
        Outcome(Filler(old(At())) + HEADER + |payload|, old(Stream()), kind, payload, rest, type_, fragment, Stream())
      ensures AtFragment(crc, old(Stream()), old(At()), kind, payload, rest) ==> reports == old(reports)
      ensures old(Stream()) == [] ==> type_ == EOF && reports == old(reports)
    {
      hide Physical, Leftover, Filler, Zeros;
      var ready := SkipTrailer();
      if !ready {
        return EOF, [];
      }
      ghost var stream, skipped := Stream(), old(Stream())[..Filler(old(At()))];
      if AtFragment(crc, old(Stream()), old(At()), kind, payload, rest) {
        DropFiller(stream, old(Stream()), Zeros(Filler(old(At()))), Physical(crc, kind, payload), rest);
      }
      type_, fragment := TakeFragment(kind, payload, rest);
      if type_ < EOF && checksum {
        HoldsLater(crc, old(Stream()), skipped, stream, type_, fragment, Stream());
      }
    }

    /** One fragment more: `scratch` holds what is read of a record. */
    method Assemble(type_: nat, fragment: Bytes, scratch: Bytes, inFragment: bool, prospective: nat)
      returns (done: bool, ok: bool, record: Bytes, scratch': Bytes, inFragment': bool, prospective': nat)
      requires Ok() && (type_ < EOF ==> HEADER + |fragment| <= At())
      modifies this`reports, this`lastRecordOffset
      ensures Assembled(type_, fragment, scratch, inFragment, prospective, At() - HEADER - |fragment|,
        done, ok, record, lastRecordOffset, scratch', inFragment', prospective')
      ensures (if type_ == FULL || type_ == FIRST then !inFragment
               else type_ == EOF || (ZERO < type_ < EOF && inFragment)) ==>
        reports == old(reports)
    {
      done, ok, record, scratch', inFragment', prospective' := false, false, [], scratch, inFragment, prospective;
      if type_ == EOF {
        done := true;
      } else if type_ == FULL || type_ == FIRST {
        if inFragment && scratch != [] {
          ReportCorruption(|scratch|);
        }
        prospective' := endOfBufferOffset - |buffer| - HEADER - |fragment|;
        if type_ == FULL {
          lastRecordOffset := prospective';
          done, ok, record := true, true, fragment;
        } else {
          scratch', inFragment' := fragment, true;
        }
      } else if type_ == MIDDLE || type_ == LAST {
        if !inFragment {
          ReportCorruption(|fragment|);
        } else if type_ == MIDDLE {
          scratch' := scratch + fragment;
        } else {
          lastRecordOffset := prospective;
          done, ok, record := true, true, scratch + fragment;
        }
      } else {
        if type_ != BAD {
          ReportCorruption(|fragment| + if inFragment then |scratch| else 0);
        } else if inFragment {
          ReportCorruption(|scratch|);
        }
        scratch', inFragment' := [], false;
      }
    }

    // One turn of the loop below.
    method ReadFragment(scratch: Bytes, inFragment: bool, prospective: nat,
      ghost stream: Bytes, ghost p: nat, ghost records: seq<Bytes>, ghost left: Bytes)
      returns (done: bool, ok: bool, record: Bytes, scratch': Bytes, inFragment': bool, prospective': nat)
      requires Ok()
      modifies this
      ensures Ok()
      ensures !(done && !ok) ==> |Stream()| < |old(Stream())|
      ensures old(Reading(crc, stream, p, records, scratch, !inFragment, left, prospective, Stream(), At())) ==>
        ReadingGoesOn(crc, stream, p, records, done, ok, record, lastRecordOffset, scratch', inFragment',
          left[FragmentLength(old(At()), left)..], prospective', Stream(), At())
      ensures old(Reading(crc, stream, p, records, scratch, !inFragment, left, prospective, Stream(), At())) ==>
        reports == old(reports)
    {
      hide Fragments, Rest, FragmentLength, LogFile, Filler, Leftover, AtFragment, Holds, Remaining;
      hide Reading, Finished, FirstComplete, Outcome, FragmentType, Physical, ReadingGoesOn, Assembled;
      ghost var at, before := At(), Stream();
      ghost var n := FragmentLength(at, left);
      ghost var kind := FragmentType(!inFragment, n == |left|);
      ghost var rest := if records == [] then [] else Rest(crc, at, left) + Remaining(crc, p, records);
      ghost var clean := Reading(crc, stream, p, records, scratch, !inFragment, left, prospective, before, at);
      if clean {
        ReadingAtFragment(crc, stream, p, records, scratch, !inFragment, left, prospective, before, at);
      }
      var type_, fragment := ReadPhysicalRecord(kind, left[..n], rest);
      ghost var after, end := Stream(), At();
      if clean {
        ReadingStep(crc, stream, p, records, scratch, !inFragment, left, prospective, before, at,
          type_, fragment, after, end);
      }
      done, ok, record, scratch', inFragment', prospective' :=
        Assemble(type_, fragment, scratch, inFragment, prospective);
      if clean {
        GoesOn(crc, stream, p, records, scratch, inFragment, left[n..], prospective, type_, fragment, after, end,
          done, ok, record, lastRecordOffset, scratch', inFragment', prospective');
      }
    }

    /** The next record, put together from its fragments. */
    method ReadRecord(ghost records: seq<Bytes>) returns (ok: bool, record: Bytes)
      requires Ok()
      modifies this
      ensures Ok()
      ensures ok ==> |Stream()| < |old(Stream())|
      // in a file of the writer's, cut off or not: the first record if all of it is there
      ensures old(Stream()) <= LogFile(crc, old(At()), records) && ok ==>
        Finished(crc, old(Stream()), old(At()), records, record, lastRecordOffset, Stream(), At())
      ensures old(Stream()) <= LogFile(crc, old(At()), records) && !ok ==>
        !FirstComplete(crc, old(At()), records, |old(Stream())|)
      ensures old(Stream()) <= LogFile(crc, old(At()), records) ==> reports == old(reports)
    {
      hide Fragments, FragmentLength, LogFile, Filler, Leftover, Reading, Finished, FirstComplete;
      var scratch: Bytes := [];
      var inFragmentedRecord := false;
      var prospectiveRecordOffset: nat := 0;
      ghost var stream, p := Stream(), At();
      ghost var clean := Stream() <= LogFile(crc, p, records);
      ghost var left: Bytes := if records == [] then [] else records[0];
      if clean {
        ReadingStart(crc, stream, p, records);
      }
      while true
        invariant Ok() && |Stream()| <= |stream|
        invariant clean ==> reports == old(reports) && Reading(crc, stream, p, records, scratch, !inFragmentedRecord,
          left, prospectiveRecordOffset, Stream(), At())
        decreases |Stream()|
      {
        ghost var n := FragmentLength(At(), left);
        var done;
        done, ok, record, scratch, inFragmentedRecord, prospectiveRecordOffset :=
          ReadFragment(scratch, inFragmentedRecord, prospectiveRecordOffset, stream, p, records, left);
        left := left[n..];
        if done {
          break;
        }
      }
    }
  }

  /** What a fragment that starts at `start` adds to what is read of a record. */
  ghost predicate Assembled(type_: nat, fragment: Bytes, scratch: Bytes, inFragment: bool, prospective: nat, start: int,
    done: bool, ok: bool, record: Bytes, offset: nat, scratch': Bytes, inFragment': bool, prospective': nat)
  {
    && done == (type_ == FULL || type_ == EOF || (type_ == LAST && inFragment))
    && (done ==> ok == (type_ != EOF))
    && (type_ == FULL ==> record == fragment && offset == start)
    && (type_ == LAST && inFragment ==> record == scratch + fragment && offset == prospective)
    && (type_ == FIRST ==> inFragment' && scratch' == fragment && prospective' == start)
    && (type_ == MIDDLE && inFragment ==> inFragment' && scratch' == scratch + fragment && prospective' == prospective)
    && (type_ > EOF ==> !inFragment' && scratch' == [])
  }

  // What the file holds behind the first record.
  ghost function Remaining(crc: Crc, p: nat, records: seq<Bytes>): Bytes
    requires records != []
  {
    LogFile(crc, p + |Fragments(crc, p, records[0], true)|, records[1..])
  }

  /** Part of the first record, which starts at `p`, has been read: `scratch` without `left`. */
  ghost predicate Mid(crc: Crc, stream: Bytes, at: nat, p: nat, records: seq<Bytes>, scratch: Bytes, begin: bool,
    left: Bytes)
    requires records != []
  {
    && stream <= Fragments(crc, at, left, begin) + Remaining(crc, p, records)
    && at + |Fragments(crc, at, left, begin)| == p + |Fragments(crc, p, records[0], true)|
    && scratch + left == records[0]
    && (begin ==> scratch == [] && at == p)
  }

  lemma MidAtFragment(crc: Crc, stream: Bytes, at: nat, p: nat, records: seq<Bytes>, scratch: Bytes, begin: bool,
    left: Bytes)
    requires records != [] && Mid(crc, stream, at, p, records, scratch, begin, left)
    ensures var n := FragmentLength(at, left);
      AtFragment(crc, stream, at, FragmentType(begin, n == |left|), left[..n],
        Rest(crc, at, left) + Remaining(crc, p, records))
  {
    hide Zeros, Physical, Remaining, Rest;
    var n := FragmentLength(at, left);
    var more, rest := Remaining(crc, p, records), Rest(crc, at, left);
    Assoc(FirstFragment(crc, at, left, begin), rest, more);
    assert FirstFragment(crc, at, left, begin) + (rest + more)
      == Zeros(Filler(at)) + Physical(crc, FragmentType(begin, n == |left|), left[..n]) + (rest + more);
  }

  lemma FragmentsLength(crc: Crc, at: nat, data: Bytes, begin: bool)
    ensures |Fragments(crc, at, data, begin)|
      == Filler(at) + HEADER + FragmentLength(at, data) + |Rest(crc, at, data)|
  {
    hide FirstFragment, Rest;
  }

  // Where the fragment ends, and what then remains.
  lemma MidStep(crc: Crc, stream: Bytes, at: nat, p: nat, records: seq<Bytes>, scratch: Bytes, begin: bool,
    left: Bytes, after: Bytes)
    requires records != [] && Mid(crc, stream, at, p, records, scratch, begin, left)
    ensures var n := FragmentLength(at, left);
      var end, finish := at + Filler(at) + HEADER + n, p + |Fragments(crc, p, records[0], true)|;
      && (begin ==> at == p && scratch == [])
      && end <= finish
      && (n == |left| ==> scratch + left[..n] == records[0] && end == finish)
    ensures var n := FragmentLength(at, left);
      var end := at + Filler(at) + HEADER + n;
      after <= Rest(crc, at, left) + Remaining(crc, p, records) ==>
        if n == |left| then after <= LogFile(crc, end, records[1..])
        else Mid(crc, after, end, p, records, scratch + left[..n], false, left[n..])
  {
    hide LogFile, Physical, Zeros, FirstFragment, Filler, FragmentLength, Fragments;
    var n := FragmentLength(at, left);
    FragmentsLength(crc, at, left, begin);
    assert left[..n] + left[n..] == left;
    Assoc(scratch, left[..n], left[n..]);
    assert [] + Remaining(crc, p, records) == Remaining(crc, p, records);
  }

  /** The first record of a file cut off `length` bytes behind position `p` is still there. */
  ghost predicate FirstComplete(crc: Crc, p: nat, records: seq<Bytes>, length: nat) {
    records != [] && |Fragments(crc, p, records[0], true)| <= length
  }

  /** The first record has been read; the others follow. */
  ghost predicate Finished(crc: Crc, stream: Bytes, p: nat, records: seq<Bytes>, record: Bytes, offset: nat,
    now: Bytes, at: nat)
  {
    && FirstComplete(crc, p, records, |stream|)
    && record == records[0]
    && offset == p + Filler(p)
    && at == p + |Fragments(crc, p, records[0], true)|
    && at + |now| == p + |stream|
    && now <= LogFile(crc, at, records[1..])
  }

  /** The state of the reader between two fragments. */
  ghost predicate Reading(crc: Crc, stream: Bytes, p: nat, records: seq<Bytes>, scratch: Bytes, begin: bool,
    left: Bytes, offset: nat, now: Bytes, at: nat)
  {
    && at + |now| == p + |stream|
    && if records == [] then now == []
       else Mid(crc, now, at, p, records, scratch, begin, left) && (begin || offset == p + Filler(p))
  }

  /** The same after one fragment more. */
  ghost predicate ReadingGoesOn(crc: Crc, stream: Bytes, p: nat, records: seq<Bytes>, done: bool, ok: bool,
    record: Bytes, recordOffset: nat, scratch: Bytes, inFragment: bool, left: Bytes, offset: nat, now: Bytes, at: nat)
  {
    if !done then Reading(crc, stream, p, records, scratch, !inFragment, left, offset, now, at)
    else if ok then Finished(crc, stream, p, records, record, recordOffset, now, at)
    else !FirstComplete(crc, p, records, |stream|)
  }

  lemma ReadingStart(crc: Crc, stream: Bytes, p: nat, records: seq<Bytes>)
    requires stream <= LogFile(crc, p, records)
    ensures Reading(crc, stream, p, records, [], true, if records == [] then [] else records[0], 0, stream, p)
  {
    hide Fragments, Filler;
  }

  lemma ReadingAtFragment(crc: Crc, stream: Bytes, p: nat, records: seq<Bytes>, scratch: Bytes, begin: bool,
    left: Bytes, offset: nat, now: Bytes, at: nat)
    requires Reading(crc, stream, p, records, scratch, begin, left, offset, now, at)
    ensures records == [] ==> now == []
    ensures var n := FragmentLength(at, left);
      records != [] ==> AtFragment(crc, now, at, FragmentType(begin, n == |left|), left[..n],
        Rest(crc, at, left) + Remaining(crc, p, records))
  {
    hide Mid, AtFragment, Rest, Remaining, FragmentType;
    if records != [] {
      MidAtFragment(crc, now, at, p, records, scratch, begin, left);
    }
  }

  /** What the next fragment means, type by type. */
  ghost predicate Understood(crc: Crc, stream: Bytes, p: nat, records: seq<Bytes>, scratch: Bytes, begin: bool,
    left: Bytes, offset: nat, type_: nat, fragment: Bytes, after: Bytes, end: nat)
  {
    && FULL <= type_ <= EOF
    && (type_ < EOF ==> end >= HEADER + |fragment|)
    && (type_ == FULL ==>
      begin && Finished(crc, stream, p, records, fragment, end - HEADER - |fragment|, after, end))
    && (type_ == FIRST ==>
      begin && Reading(crc, stream, p, records, fragment, false, left, end - HEADER - |fragment|, after, end))
    && (type_ == MIDDLE ==>
          !begin && Reading(crc, stream, p, records, scratch + fragment, false, left, offset, after, end))
    && (type_ == LAST ==> !begin && Finished(crc, stream, p, records, scratch + fragment, offset, after, end))
    && (type_ == EOF ==> !FirstComplete(crc, p, records, |stream|))
  }

  lemma GoesOn(crc: Crc, stream: Bytes, p: nat, records: seq<Bytes>, scratch: Bytes, inFragment: bool,
    left: Bytes, prospective: nat, type_: nat, fragment: Bytes, after: Bytes, end: nat,
    done: bool, ok: bool, record: Bytes, recordOffset: nat, scratch': Bytes, inFragment': bool, prospective': nat)
    requires Understood(crc, stream, p, records, scratch, !inFragment, left, prospective, type_, fragment, after, end)
    requires Assembled(type_, fragment, scratch, inFragment, prospective, end - HEADER - |fragment|,
      done, ok, record, recordOffset, scratch', inFragment', prospective')
    ensures ReadingGoesOn(crc, stream, p, records, done, ok, record, recordOffset, scratch', inFragment', left,
      prospective', after, end)
  {
    hide Reading, Finished, FirstComplete;
  }

  lemma ReadingStep(crc: Crc, stream: Bytes, p: nat, records: seq<Bytes>, scratch: Bytes, begin: bool,
    left: Bytes, offset: nat, now: Bytes, at: nat, type_: nat, fragment: Bytes, after: Bytes, end: nat)
    requires Reading(crc, stream, p, records, scratch, begin, left, offset, now, at)
    requires now == [] ==> type_ == EOF
    requires end + |after| == at + |now| && (type_ < EOF ==> end >= HEADER + |fragment|)
    requires var n := FragmentLength(at, left);
      records != [] ==> Outcome(Filler(at) + HEADER + n, now, FragmentType(begin, n == |left|), left[..n],
        Rest(crc, at, left) + Remaining(crc, p, records), type_, fragment, after)
    ensures Understood(crc, stream, p, records, scratch, begin, left[FragmentLength(at, left)..], offset,
      type_, fragment, after, end)
  {
    hide Mid, LogFile, Rest, Remaining, FragmentLength, Filler, Fragments;
    if records != [] {
      MidStep(crc, now, at, p, records, scratch, begin, left, after);
      var n := FragmentLength(at, left);
      if type_ != EOF {
        assert |fragment| == n && end == at + Filler(at) + HEADER + n;
        assert begin ==> scratch == [];
        assert begin ==> scratch + fragment == fragment;
      }
    }
  }

  /** `stream` holds a physical record, and then `rest`. */
  ghost predicate Holds(crc: Crc, stream: Bytes, kind: Byte, payload: Bytes, rest: Bytes) {
    |payload| < 0x1_0000 && exists skip :: stream == skip + Physical(crc, kind, payload) + rest
  }

  lemma HoldsLater(crc: Crc, whole: Bytes, skipped: Bytes, stream: Bytes, kind: Byte, payload: Bytes, rest: Bytes)
    requires Holds(crc, stream, kind, payload, rest) && whole == skipped + stream
    ensures Holds(crc, whole, kind, payload, rest)
  {
    var skip :| stream == skip + Physical(crc, kind, payload) + rest;
    assert whole == (skipped + skip) + Physical(crc, kind, payload) + rest;
  }

  lemma CutBehind(a: Bytes, n: nat, b: Bytes)
    requires n <= |a|
    ensures a + b == a[..n] + (a[n..] + b)
  {
  }

  lemma LeftoverAfter(p: nat, n: nat, b: nat)
    requires n <= b <= Leftover(p)
    ensures n < b ==> Leftover(p + n) == Leftover(p) - n
  {
    if n < b {
      assert (p + n) % BLOCK == p % BLOCK + n;
    }
  }

  lemma TrailerIsFiller(p: nat, left: nat)
    requires left < HEADER && ((left == 0 && p % BLOCK == 0) || left == Leftover(p))
    ensures left == Filler(p) && (p + left) % BLOCK == 0
  {
    assert p + Leftover(p) == (p / BLOCK + 1) * BLOCK;
  }

  /** `stream` is at position `p` of a file that goes on with a fragment and then `rest`, unless cut off. */
  ghost predicate AtFragment(crc: Crc, stream: Bytes, p: nat, kind: Byte, payload: Bytes, rest: Bytes) {
    && |payload| < 0x1_0000
    && HEADER + |payload| <= Leftover(p + Filler(p))
    && ZERO < kind <= LAST
    && stream <= Zeros(Filler(p)) + Physical(crc, kind, payload) + rest
  }

  /** Behind such a reading: the fragment, if it was complete. */
  ghost predicate Outcome(length: nat, stream: Bytes, kind: Byte, payload: Bytes, rest: Bytes,
    type_: nat, fragment: Bytes, after: Bytes)
  {
    if |stream| < length then type_ == EOF
    else type_ == kind && fragment == payload && |after| == |stream| - length && after <= rest
  }

  // The same without filler.
  ghost predicate Comes(crc: Crc, stream: Bytes, p: nat, kind: Byte, payload: Bytes, rest: Bytes) {
    && |payload| < 0x1_0000
    && HEADER + |payload| <= Leftover(p)
    && ZERO < kind <= LAST
    && stream <= Physical(crc, kind, payload) + rest
  }

  lemma DropFiller(stream: Bytes, before: Bytes, zeros: Bytes, physical: Bytes, rest: Bytes)
    requires before <= zeros + physical + rest && |before| >= |zeros| && stream == before[|zeros|..]
    ensures stream <= physical + rest
  {
    assert (zeros + physical + rest)[|zeros|..] == physical + rest;
  }

  // The fields of a header depend on its own bytes only.
  lemma HeaderInBuffer(header: Bytes, rest: Bytes)
    requires |header| >= HEADER
    ensures LengthField(header + rest) == LengthField(header) && StoredCrc(header + rest) == StoredCrc(header)
  {
    assert (header + rest)[..4] == header[..4];
  }

  lemma HeaderComes(crc: Crc, header: Bytes, unread: Bytes, p: nat, kind: Byte, payload: Bytes, rest: Bytes)
    requires |header| >= HEADER && Comes(crc, header + unread, p, kind, payload, rest)
    ensures LengthField(header) == |payload| && header[6] == kind && ZERO < kind <= LAST
    ensures StoredCrc(header) == crc([kind] + payload) && HEADER + |payload| <= Leftover(p)
    ensures var n := HEADER + |payload|; n <= |header| ==>
      header[6..n] == [kind] + payload && header[HEADER..n] == payload && header[n..] + unread <= rest
  {
    ParseHeader(crc, header + unread, kind, payload, rest);
    HeaderInBuffer(header, unread);
    var n := HEADER + |payload|;
    if n <= |header| {
      assert (header + unread)[6..n] == header[6..n];
      assert (header + unread)[HEADER..n] == header[HEADER..n];
      assert (header + unread)[n..] == header[n..] + unread;
    }
  }

  // The fields of a header that the writer has written.
  lemma ParseHeader(crc: Crc, stream: Bytes, kind: Byte, payload: Bytes, rest: Bytes)
    requires |payload| < 0x1_0000
    requires stream <= Physical(crc, kind, payload) + rest && |stream| >= HEADER
    ensures LengthField(stream) == |payload| && stream[6] == kind
    ensures StoredCrc(stream) == crc([kind] + payload)
    ensures var n := HEADER + |payload|; |stream| >= n ==>
      stream[6..n] == [kind] + payload && stream[HEADER..n] == payload && stream[n..] <= rest
  {
    var sum := Mask(crc([kind] + payload));
    var all := Physical(crc, kind, payload) + rest;
    assert all == Fixed(sum, 4) + [|payload| % 256, |payload| / 256, kind] + payload + rest;
    assert stream[..4] == all[..4] == Fixed(sum, 4);
    Pow256Values();
    FixedRoundTrip(sum, 4);
    UnmaskMask(crc([kind] + payload));
    var n := HEADER + |payload|;
    if |stream| >= n {
      assert all[6..n] == [kind] + payload && all[HEADER..n] == payload && all[n..] == rest;
      assert stream == all[..|stream|];
    }
  }

  // A header that passes the checks is one the writer would write.
  lemma Checked(crc: Crc, b: Bytes, length: nat)
    requires HEADER + length <= |b| && length == LengthField(b)
    requires StoredCrc(b) == crc(b[6..HEADER + length])
    ensures length < 0x1_0000 && b[..HEADER + length] == Physical(crc, b[6], b[HEADER..HEADER + length])
  {
    var sum, payload := DecodeFixed(b[..4]), b[HEADER..HEADER + length];
    FixedOfDecoded(b[..4]);
    Pow256Values();
    MaskUnmask(sum);
    assert [b[6]] + payload == b[6..HEADER + length];
    assert length % 256 == b[4] && length / 256 == b[5];
    assert b[..HEADER + length] == b[..4] + [b[4], b[5]] + [b[6]] + payload;
  }
}

