/** log::Reader with initial offset 0: block-buffered physical reads and record reassembly. */
module LogReader {
  import opened Basics
  import opened History
  import opened Coding
  import opened LogFormat

  const EOF_CODE: nat := 5
  const BAD_RECORD: nat := 6

  /** The outcome of one physical read: a type code or one of the two special values, the fragment,
      the file offset behind what was consumed, and the number of bytes reported as dropped. */
  datatype Physical = Physical(code: nat, fragment: Bytes, next: nat, dropped: nat)

  /** A header byte read through a signed char becomes a huge code when its top bit is set. */
  function Code(b: Byte): nat {
    if b < 128 then b else TWO_32 - 256 + b
  }

  function BufferEnd(file: Bytes, off: nat): nat {
    if BlockEnd(off) <= |file| then BlockEnd(off) else |file|
  }

  predicate ChecksumMatches(crc: Crc, buffer: Bytes, length: nat)
    requires HEADER_SIZE + length <= |buffer|
  {
    Unmask(DecodeFixed(buffer[0..4]) % TWO_32) == crc(buffer[6..HEADER_SIZE + length])
  }

  function LengthField(buffer: Bytes): nat
    requires HEADER_SIZE <= |buffer|
  {
    var low: nat, high: nat := buffer[4], buffer[5];
    low + 256 * high
  }

  /** Parsing at the start of the unread part of a block.  `next` counts from the start of the buffer. */
  function ParseBuffer(crc: Crc, buffer: Bytes, atEof: bool): (p: Physical)
    requires HEADER_SIZE <= |buffer|
    ensures 0 < p.next <= |buffer|
    ensures p.dropped > 0 ==> p.code == BAD_RECORD
  {
    var length := LengthField(buffer);
    if HEADER_SIZE + length > |buffer| then
      if atEof then Physical(EOF_CODE, [], |buffer|, 0) else Physical(BAD_RECORD, [], |buffer|, |buffer|)
    else if buffer[6] == 0 && length == 0 then
      Physical(BAD_RECORD, [], |buffer|, 0)
    else if !ChecksumMatches(crc, buffer, length) then
      Physical(BAD_RECORD, [], |buffer|, |buffer|)
    else
      Physical(Code(buffer[6]), buffer[HEADER_SIZE..HEADER_SIZE + length], HEADER_SIZE + length, 0)
  }

  /** What a reader at file offset `off` finds, stated without any reader state. */
  function ReadPhysical(crc: Crc, file: Bytes, off: nat): (p: Physical)
    requires off <= |file|
    ensures p.next <= |file| && (off < p.next || p.code == EOF_CODE)
    ensures p.dropped > 0 ==> p.code == BAD_RECORD
    decreases |file| - off
  {
    var end := BufferEnd(file, off);
    if end - off >= HEADER_SIZE then
      var p := ParseBuffer(crc, file[off..end], BlockEnd(off) > |file|);
      p.(next := off + p.next)
    else if BlockEnd(off) <= |file| then
      ReadPhysical(crc, file, BlockEnd(off))
    else
      Physical(EOF_CODE, [], |file|, 0)
  }

  /** What one physical read does to a record under assembly. */
  datatype Assembly = Pending(inFragment: bool, scratch: Bytes, reports: seq<nat>)
                    | Complete(record: Bytes, reports: seq<nat>)
                    | Finished

  function Report(cond: bool, bytes: nat): seq<nat> {
    if cond then [bytes] else []
  }

  function Assemble(p: Physical, inFragment: bool, scratch: Bytes): Assembly {
    var drop := Report(p.dropped > 0, p.dropped);
    var partial := Report(inFragment && scratch != [], |scratch|);
    match p.code
    case 1 => Complete(p.fragment, partial)
    case 2 => Pending(true, p.fragment, partial)
    case 3 => if inFragment then Pending(true, scratch + p.fragment, []) else Pending(false, scratch, [|p.fragment|])
    case 4 => if inFragment then Complete(scratch + p.fragment, []) else Pending(false, scratch, [|p.fragment|])
    case 5 => Finished
    case 6 => if inFragment then Pending(false, [], drop + [|scratch|]) else Pending(false, scratch, drop)
    case _ => Pending(false, [], [|p.fragment| + if inFragment then |scratch| else 0])
  }

  /** The reports of an assembly step beyond the one the physical read made. */
  function ReportedHere(p: Physical, reports: seq<nat>): seq<nat> {
    if p.dropped > 0 && reports != [] then reports[1..] else reports
  }

  lemma AssemblyAtEof(p: Physical, inFragment: bool, scratch: Bytes)
    ensures p.code == EOF_CODE <==> Assemble(p, inFragment, scratch).Finished?
  {
  }

  datatype Replayed = Replayed(records: seq<Bytes>, reports: seq<nat>)

  /** Everything a reader returns and reports from `off` to the end of the file. */
  function Replay(crc: Crc, file: Bytes, off: nat, inFragment: bool, scratch: Bytes): Replayed
    requires off <= |file|
    decreases |file| - off
  {
    var p := ReadPhysical(crc, file, off);
    match Assemble(p, inFragment, scratch)
    case Finished => Replayed([], [])
    case Pending(f, s, reports) =>
      var rest := Replay(crc, file, p.next, f, s);
      Replayed(rest.records, reports + rest.reports)
    case Complete(record, reports) =>
      var rest := Replay(crc, file, p.next, false, []);
      Replayed([record] + rest.records, reports + rest.reports)
  }

  /** One step of the replay, with the reports made so far carried along. */
  lemma ReplayStep(crc: Crc, file: Bytes, off: nat, inFragment: bool, scratch: Bytes,
                   all: Replayed, before: seq<nat>, reports: seq<nat>)
    requires off <= |file|
    requires var rest := Replay(crc, file, off, inFragment, scratch);
             all.records == rest.records && before + all.reports == reports + rest.reports
    ensures var p := ReadPhysical(crc, file, off);
            match Assemble(p, inFragment, scratch)
            case Finished => all.records == [] && before + all.reports == reports
            case Pending(f, s, r) =>
              var rest := Replay(crc, file, p.next, f, s);
              all.records == rest.records && before + all.reports == (reports + r) + rest.reports
            case Complete(record, r) =>
              var rest := Replay(crc, file, p.next, false, []);
              all.records == [record] + rest.records && before + all.reports == (reports + r) + rest.reports
  {
    hide ReadPhysical, Assemble;
    match Assemble(ReadPhysical(crc, file, off), inFragment, scratch) {
      case Finished =>
      case Pending(f, s, r) =>
        Regroup(reports, r, Replay(crc, file, ReadPhysical(crc, file, off).next, f, s).reports);
      case Complete(record, r) =>
        Regroup(reports, r, Replay(crc, file, ReadPhysical(crc, file, off).next, false, []).reports);
    }
  }

  /** Consuming the front of the buffer stays in the same block. */
  lemma BufferSuffix(file: Bytes, off: nat, end: nat, n: nat)
    requires off + n <= end <= |file| && end == BufferEnd(file, off)
    ensures file[off..end][n..] == file[off + n..end]
    ensures off + n < end ==> BlockEnd(off + n) == BlockEnd(off) && end == BufferEnd(file, off + n)
  {
    SliceOfSlice(file, off, end, n, end - off);
  }

  class Reader {
    const crc: Crc
    const file: Bytes
    var filePos: nat
    var buffer: Bytes
    var eof: bool
    var endOfBufferOffset: nat
    var reports: seq<nat>
    ghost var failed: bool  // a read of the file has failed

    ghost function Offset(): int
      reads this
    {
      endOfBufferOffset - |buffer|
    }

    /** The buffer is the unread part of the block that was read last. */
    ghost predicate Valid()
      reads this
    {
      && endOfBufferOffset == filePos <= |file|
      && |buffer| <= filePos
      && buffer == file[filePos - |buffer|..filePos]
      && (failed ==> eof && buffer == [])
      && (eof && !failed ==> filePos == |file|)
      && (!eof ==> filePos % BLOCK_SIZE == 0)
      && (buffer != [] ==> filePos == BufferEnd(file, Offset()) && (eof <==> BlockEnd(Offset()) > |file|))
    }

    constructor (crc: Crc, file: Bytes)
      ensures Valid() && Offset() == 0 && reports == [] && !failed
      ensures this.crc == crc && this.file == file
    {
      this.crc, this.file := crc, file;
      filePos, buffer, eof, endOfBufferOffset, reports, failed := 0, [], false, 0, [], false;
    }

    /** SequentialFile::Read of one block, and the bookkeeping around it.  A read that fails counts as a dropped
        block and as the end of the file. */
    method ReadBlock() returns (ok: bool)
      requires Valid() && !eof
      modifies this
      ensures Valid() && Offset() == old(filePos) && failed == !ok
      ensures ok ==> reports == old(reports) && (eof || |buffer| == BLOCK_SIZE)
      ensures !ok ==> reports == old(reports) + [BLOCK_SIZE]
    {
      ok := *;
      if !ok {
        buffer := [];
        reports := reports + [BLOCK_SIZE];
        eof, failed := true, true;
        return;
      }
      var n := if |file| - filePos < BLOCK_SIZE then |file| - filePos else BLOCK_SIZE;
      buffer := file[filePos..filePos + n];
      filePos := filePos + n;
      endOfBufferOffset := endOfBufferOffset + |buffer|;
      if |buffer| < BLOCK_SIZE {
        eof := true;
      }
    }

    /** A short remainder of a full block is a trailer: reading on from the next block is the same. */
    lemma TrailerIsSkipped()
      requires Valid() && |buffer| < HEADER_SIZE
      ensures 0 <= Offset() <= |file|
      ensures !eof ==> ReadPhysical(crc, file, Offset()) == ReadPhysical(crc, file, filePos)
      ensures eof && !failed ==> ReadPhysical(crc, file, Offset()) == Physical(EOF_CODE, [], |file|, 0)
    {
    }

    lemma FullBufferIsParsed()
      requires Valid() && HEADER_SIZE <= |buffer|
      ensures 0 <= Offset() <= |file|
      ensures var parsed := ParseBuffer(crc, buffer, eof);
              ReadPhysical(crc, file, Offset()) == parsed.(next := Offset() + parsed.next)
    {
      hide ParseBuffer;
    }

    /** The buffered read agrees with the reading of the file at the reader's offset, or a read has failed. */
    method ReadPhysicalRecord() returns (code: nat, fragment: Bytes)
      requires Valid()
      modifies this
      ensures Valid() && 0 <= old(Offset()) <= |file| && (old(failed) ==> failed)
      ensures failed ==> code == EOF_CODE && old(Offset()) <= Offset() <= |file|
                         && reports == old(reports) + Report(!old(failed), BLOCK_SIZE)
      ensures var p := ReadPhysical(crc, file, old(Offset()));
              !failed ==>
              && code == p.code && Offset() == p.next
              && reports == old(reports) + Report(p.dropped > 0, p.dropped)
              && (code != EOF_CODE && code != BAD_RECORD ==> fragment == p.fragment)
    {
      hide ParseBuffer, ReadPhysical;
      code, fragment := EOF_CODE, [];
      ghost var p := ReadPhysical(crc, file, Offset());
      while |buffer| < HEADER_SIZE
        invariant Valid() && reports == old(reports) && failed == old(failed)
        invariant old(Offset()) <= Offset() <= |file| && p == ReadPhysical(crc, file, Offset())
        decreases if |buffer| >= HEADER_SIZE then 0 else if eof then 1 else 2
      {
        TrailerIsSkipped();
        buffer := [];
        if eof {
          return;
        }
        var ok := ReadBlock();
        if !ok {
          return;
        }
      }
      FullBufferIsParsed();
      code, fragment := ParsePhysicalRecord();
    }

    /** The second half of ReadPhysicalRecord: the buffer holds at least a header. */
    method ParsePhysicalRecord() returns (code: nat, fragment: Bytes)
      requires Valid() && HEADER_SIZE <= |buffer|
      modifies this
      ensures Valid() && !failed
      ensures var p := ParseBuffer(crc, old(buffer), old(eof));
              && code == p.code && Offset() == old(Offset()) + p.next
              && reports == old(reports) + Report(p.dropped > 0, p.dropped)
              && (code != EOF_CODE && code != BAD_RECORD ==> fragment == p.fragment)
    {
      hide LengthField, ChecksumMatches, BlockEnd, BufferEnd;
      var length := LengthField(buffer);
      code, fragment := Code(buffer[6]), [];
      if HEADER_SIZE + length > |buffer| {
        var dropSize := |buffer|;
        buffer := [];
        if !eof {
          reports := reports + [dropSize];
          code := BAD_RECORD;
        } else {
          code := EOF_CODE;
        }
        return;
      }
      if buffer[6] == 0 && length == 0 {
        buffer := [];
        code := BAD_RECORD;
        return;
      }
      if !ChecksumMatches(crc, buffer, length) {
        var dropSize := |buffer|;
        buffer := [];
        reports := reports + [dropSize];
        code := BAD_RECORD;
        return;
      }
      BufferSuffix(file, Offset(), filePos, HEADER_SIZE + length);
      fragment := buffer[HEADER_SIZE..HEADER_SIZE + length];
      buffer := buffer[HEADER_SIZE + length..];
    }

    /** What ReadRecord does with one physical record: `complete` hands out the scratch buffer as a record. */
    method TakeFragment(ghost p: Physical, code: nat, fragment: Bytes, inFragment: bool, scratch: Bytes)
      returns (complete: bool, inFragment': bool, scratch': Bytes)
      requires code == p.code != EOF_CODE && (p.dropped > 0 ==> code == BAD_RECORD) && (code != BAD_RECORD ==> fragment == p.fragment)
      modifies this`reports
      ensures match Assemble(p, inFragment, scratch)
              case Pending(f, s, r) =>
                !complete && inFragment' == f && scratch' == s && Report(p.dropped > 0, p.dropped) + ReportedHere(p, r) == r
                && reports == old(reports) + ReportedHere(p, r)
              case Complete(record, r) =>
                complete && scratch' == record && Report(p.dropped > 0, p.dropped) + ReportedHere(p, r) == r
                && reports == old(reports) + ReportedHere(p, r)
              case Finished => false
    {
      complete, inFragment', scratch' := false, inFragment, scratch;
      if code == 1 {
        if inFragment && scratch != [] {
          reports := reports + [|scratch|];
        }
        complete, scratch' := true, fragment;
      } else if code == 2 {
        if inFragment && scratch != [] {
          reports := reports + [|scratch|];
        }
        scratch', inFragment' := fragment, true;
      } else if code == 3 {
        if !inFragment {
          reports := reports + [|fragment|];
        } else {
          scratch' := scratch + fragment;
        }
      } else if code == 4 {
        if !inFragment {
          reports := reports + [|fragment|];
        } else {
          complete, scratch' := true, scratch + fragment;
        }
      } else if code == BAD_RECORD {
        if inFragment {
          reports := reports + [|scratch|];
          inFragment', scratch' := false, [];
        }
      } else {
        reports := reports + [|fragment| + if inFragment then |scratch| else 0];
        inFragment', scratch' := false, [];
      }
    }

    /** Returns the next record that can be assembled, or false at the end of the file, or where a read failed. */
    method ReadRecord() returns (ok: bool, record: Bytes)
      requires Valid()
      modifies this
      ensures Valid() && 0 <= old(Offset()) <= |file| && 0 <= Offset() <= |file|
      ensures ok ==> old(Offset()) < Offset() && !failed
      ensures failed ==> old(reports) <= reports && (!old(failed) ==> reports != [] && reports[|reports| - 1] == BLOCK_SIZE)
      ensures var all := Replay(crc, file, old(Offset()), false, []);
              !failed ==>
              if ok then
                var rest := Replay(crc, file, Offset(), false, []);
                all.records == [record] + rest.records && old(reports) + all.reports == reports + rest.reports
              else
                all.records == [] && old(reports) + all.reports == reports
    {
      hide Replay, ReadPhysical, BlockEnd, BufferEnd, Assemble;
      record := [];
      var scratch: Bytes := [];
      var inFragmentedRecord := false;
      assert 0 <= Offset() <= |file|;
      ghost var all := Replay(crc, file, Offset(), false, []);
      while true
        invariant Valid() && 0 <= Offset() <= |file| && old(Offset()) <= Offset() && failed == old(failed)
        invariant old(reports) <= reports
        invariant var rest := Replay(crc, file, Offset(), inFragmentedRecord, scratch);
                  all.records == rest.records && old(reports) + all.reports == reports + rest.reports
        decreases |file| - Offset()
      {
        ReplayStep(crc, file, Offset(), inFragmentedRecord, scratch, all, old(reports), reports);
        ghost var p, before := ReadPhysical(crc, file, Offset()), reports;
        ghost var step := Assemble(p, inFragmentedRecord, scratch);
        AssemblyAtEof(p, inFragmentedRecord, scratch);
        var code, fragment := ReadPhysicalRecord();
        if code == EOF_CODE {
          return false, [];
        }
        var complete;
        complete, inFragmentedRecord, scratch := TakeFragment(p, code, fragment, inFragmentedRecord, scratch);
        Regroup(before, Report(p.dropped > 0, p.dropped), ReportedHere(p, step.reports));
        if complete {
          return true, scratch;
        }
      }
    }

    /** The reading loop of RecoverLogFile.  A failing read only ends it early. */
    method ReadAll() returns (records: seq<Bytes>)
      requires Valid() && Offset() == 0 && reports == [] && !failed
      modifies this
      ensures !failed ==> Replay(crc, file, 0, false, []) == Replayed(records, reports)
      ensures failed ==> records <= Replay(crc, file, 0, false, []).records
    {
      hide Replay, ReadPhysical, BlockEnd, BufferEnd;
      records := [];
      while true
        invariant Valid() && 0 <= Offset() <= |file| && !failed
        invariant var all := Replay(crc, file, 0, false, []);
                  var rest := Replay(crc, file, Offset(), false, []);
                  all.records == records + rest.records && all.reports == reports + rest.reports
        decreases |file| - Offset()
      {
        var ok, record := ReadRecord();
        if !ok {
          break;
        }
        ghost var rest' := Replay(crc, file, Offset(), false, []);
        Regroup(records, [record], rest'.records);
        records := records + [record];
      }
    }
  }
}
