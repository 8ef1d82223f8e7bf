/** How much a reader can get out of a file at all: every block that yields anything gives up a header. */
module LogCapacity {
  import opened History
  import opened Coding
  import opened LogFormat
  import opened LogReader

  /** An upper bound on the payload behind `off`, whatever the bytes and whatever the checksum. */
  function Capacity(file: Bytes, off: nat): nat
    requires off <= |file|
    decreases |file| - off
  {
    var n := BufferEnd(file, off) - off;
    (if n >= HEADER_SIZE then n - HEADER_SIZE else 0) + if BlockEnd(off) <= |file| then Capacity(file, BlockEnd(off)) else 0
  }

  function Total(records: seq<Bytes>): nat {
    if records == [] then 0 else |records[0]| + Total(records[1..])
  }

  /** A fragment uses up its own length, and a header if anything else of its block is to be read. */
  lemma CapacityInBlock(file: Bytes, off: nat, n: nat)
    requires off <= |file| && HEADER_SIZE + n <= BufferEnd(file, off) - off
    ensures n + Capacity(file, off + HEADER_SIZE + n) <= Capacity(file, off)
  {
    var next := off + HEADER_SIZE + n;
    if next < BufferEnd(file, off) {
      BufferSuffix(file, off, BufferEnd(file, off), HEADER_SIZE + n);
    }
  }

  lemma CapacityOfRest(file: Bytes, off: nat)
    requires off <= |file|
    ensures Capacity(file, BufferEnd(file, off)) <= Capacity(file, off)
  {
  }

  lemma {:induction false} ReadTakesCapacity(crc: Crc, file: Bytes, off: nat)
    requires off <= |file|
    ensures var p := ReadPhysical(crc, file, off);
            && (p.code == BAD_RECORD ==> Capacity(file, p.next) <= Capacity(file, off))
            && (p.code != BAD_RECORD && p.code != EOF_CODE ==> |p.fragment| + Capacity(file, p.next) <= Capacity(file, off))
    decreases |file| - off
  {
    var end := BufferEnd(file, off);
    if end - off >= HEADER_SIZE {
      ParseTakesCapacity(crc, file, off);
    } else if BlockEnd(off) <= |file| {
      ReadTakesCapacity(crc, file, BlockEnd(off));
    }
  }

  lemma ParseTakesCapacity(crc: Crc, file: Bytes, off: nat)
    requires off <= |file| && BufferEnd(file, off) - off >= HEADER_SIZE
    ensures var p := ReadPhysical(crc, file, off);
            && (p.code == BAD_RECORD ==> Capacity(file, p.next) <= Capacity(file, off))
            && (p.code != BAD_RECORD && p.code != EOF_CODE ==> |p.fragment| + Capacity(file, p.next) <= Capacity(file, off))
  {
    hide Capacity, ParseBuffer, ReadPhysical, BlockEnd;
    var end := BufferEnd(file, off);
    var p := ParseBuffer(crc, file[off..end], BlockEnd(off) > |file|);
    ReadsBuffer(crc, file, off);
    ParsedSizes(crc, file[off..end], BlockEnd(off) > |file|);
    if p.next == HEADER_SIZE + |p.fragment| {
      CapacityInBlock(file, off, |p.fragment|);
    } else {
      CapacityOfRest(file, off);
    }
  }

  lemma ReadsBuffer(crc: Crc, file: Bytes, off: nat)
    requires off <= |file| && BufferEnd(file, off) - off >= HEADER_SIZE
    ensures var p := ParseBuffer(crc, file[off..BufferEnd(file, off)], BlockEnd(off) > |file|);
            ReadPhysical(crc, file, off) == p.(next := off + p.next)
  {
    hide ParseBuffer;
  }

  lemma ParsedSizes(crc: Crc, buffer: Bytes, atEof: bool)
    requires HEADER_SIZE <= |buffer|
    ensures var p := ParseBuffer(crc, buffer, atEof);
            && (p.code == BAD_RECORD || p.code == EOF_CODE ==> p.next == |buffer| || p.next == HEADER_SIZE + |p.fragment|)
            && (p.code != BAD_RECORD && p.code != EOF_CODE ==> p.next == HEADER_SIZE + |p.fragment|)
  {
    hide ChecksumMatches, LengthField;
  }

  lemma {:induction false} ReplayWithinCapacity(crc: Crc, file: Bytes, off: nat, inFragment: bool, scratch: Bytes)
    requires off <= |file|
    ensures Total(Replay(crc, file, off, inFragment, scratch).records) <= Capacity(file, off) + if inFragment then |scratch| else 0
    decreases |file| - off
  {
    hide Capacity, ReadPhysical;
    var p := ReadPhysical(crc, file, off);
    ReadTakesCapacity(crc, file, off);
    match Assemble(p, inFragment, scratch) {
      case Finished =>
      case Pending(f, s, r) =>
        ReplayWithinCapacity(crc, file, p.next, f, s);
      case Complete(record, r) =>
        ReplayWithinCapacity(crc, file, p.next, false, []);
    }
  }

  /** Something pending helps only a record that starts with it. */
  lemma {:induction false} PendingHelpsItsOwn(crc: Crc, file: Bytes, off: nat, scratch: Bytes)
    requires off <= |file|
    ensures var records := Replay(crc, file, off, true, scratch).records;
            records == [] || scratch <= records[0] || Total(records) <= Capacity(file, off)
    decreases |file| - off
  {
    hide Capacity, ReadPhysical;
    var p := ReadPhysical(crc, file, off);
    ReadTakesCapacity(crc, file, off);
    match Assemble(p, true, scratch) {
      case Finished =>
      case Pending(f, s, r) =>
        ReplayWithinCapacity(crc, file, p.next, f, s);
        if f {
          PendingHelpsItsOwn(crc, file, p.next, s);
        }
      case Complete(record, r) =>
        ReplayWithinCapacity(crc, file, p.next, false, []);
    }
  }
}
