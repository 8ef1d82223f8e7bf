/** Exactly which writers log correctly: those that know where in a block their file ends.  The converse assumes nothing
    about the checksum. */
module LogAlignment {
  import opened History
  import opened Coding
  import opened LogFormat
  import opened LogReader
  import opened LogWriter
  import opened LogProofs
  import opened LogCapacity
  import opened LogAppends

  /** What a writer at `offset` appends for `later` when nothing fails. */
  function Appended(crc: Crc, offset: nat, later: seq<Bytes>): Bytes {
    EmitAll(crc, later, offset)
  }

  ghost predicate LogsCorrectly(crc: Crc, file: Bytes, records: seq<Bytes>, offset: nat) {
    forall later: seq<Bytes> :: RecordsFrom(crc, file + Appended(crc, offset, later), 0, NOTHING) == records + later
  }

  // ----- Aligned writers -----

  lemma AppendedByOffset(crc: Crc, a: nat, b: nat, later: seq<Bytes>)
    requires a % BLOCK_SIZE == b % BLOCK_SIZE
    ensures Appended(crc, a, later) == Appended(crc, b, later)
    decreases |later|
  {
    hide Emit, EndOf;
    if later != [] {
      EmitByOffsetInBlock(crc, later[0], a, b, true);
      EmitLength(crc, later[0], a, true);
      EmitLength(crc, later[0], b, true);
      SameResidue(a, b, |Emit(crc, later[0], a, true)|);
      AppendedByOffset(crc, EndOf(later[0], a), EndOf(later[0], b), later[1..]);
    }
  }

  /** The first thing a writer puts behind a file is a first or full chunk. */
  lemma LaterIsRead(crc: Crc, file: Bytes, p: Partial, later: seq<Bytes>)
    ensures RecordsFrom(crc, file + Appended(crc, |file|, later), |file|, p) == later
  {
    hide EmitAll, Emit, Replay, ReadPhysical, EndOf, LogHeld;
    var x := Appended(crc, |file|, later);
    var whole := file + x;
    EmitAllLength(crc, later, |file|);
    assert At(whole, |file|, x);
    EmittedLogHeld(crc, later, |file|, whole);
    AllWhole(later, |file|);
    TornLog(crc, whole, |whole|, later, |file|);
    assert whole[..|whole|] == whole;
    FirstChunkStarts(crc, whole, later, |file|);
    StartsAfresh(crc, whole, |file|, p);
  }

  lemma FirstChunkStarts(crc: Crc, whole: Bytes, later: seq<Bytes>, off: nat)
    requires off <= |whole| == EndOfAll(later, off) && LogHeld(crc, whole, later, off)
    ensures var r := ReadPhysical(crc, whole, off); r.code == 1 || r.code == 2 || r.code == EOF_CODE
  {
    hide ReadPhysical, NextChunk, Header, EndOf, RecordHeld;
    if later == [] {
      EndIsEof(crc, whole);
    } else {
      var c := NextChunk(later[0], off, true);
      AllWhole(later[1..], EndOf(later[0], off));
      RecordParts(crc, whole, later[0], off, true);
      AlignIsStart(later[0], off, true);
      ReadChunk(crc, whole, c, off);
    }
  }

  lemma AlignedLogsCorrectly(crc: Crc, file: Bytes, records: seq<Bytes>, p: Partial, offset: nat)
    requires ReadsTo(crc, file, records, p) && offset % BLOCK_SIZE == |file| % BLOCK_SIZE
    ensures LogsCorrectly(crc, file, records, offset)
  {
    hide RecordsFrom, Appended;
    forall later: seq<Bytes>
      ensures RecordsFrom(crc, file + Appended(crc, offset, later), 0, NOTHING) == records + later
    {
      AppendedByOffset(crc, offset, |file|, later);
      LaterIsRead(crc, file, p, later);
    }
  }

  // ----- Writers out of step: a record that is not read back -----

  /** The shortest record, if any, whose chunk does not fit into `space` bytes; at most six bytes of it are behind them. */
  function Straddler(space: nat): (r: Bytes)
    ensures |r| == if space <= 6 then 0 else space - 6
  {
    Zeros(if space <= 6 then 0 else space - 6)
  }

  /** A chunk that straddles a block boundary, and ends less than a header behind it, yields nothing. */
  lemma StraddlerIsLost(crc: Crc, file: Bytes, at: nat, space: nat, p: Partial)
    requires 0 < space < BLOCK_SIZE && at % BLOCK_SIZE == BLOCK_SIZE - space
    requires var r := Straddler(space);
             |file| == at + HEADER_SIZE + |r| && |r| <= 0xffff && file[at..] == Header(crc, Full, r) + r
    ensures RecordsFrom(crc, file, at, p) == []
  {
    var r := Straddler(space);
    var end := at + space;
    assert at == at / BLOCK_SIZE * BLOCK_SIZE + at % BLOCK_SIZE;
    assert BlockEnd(at) == end == BufferEnd(file, at) && BlockEnd(end) > |file| && |file| - end < HEADER_SIZE;
    assert ReadPhysical(crc, file, end).code == EOF_CODE;
    if space < HEADER_SIZE {
      assert ReadPhysical(crc, file, at).code == EOF_CODE;
      ReplayAtEof(crc, file, at, p.inFragment, p.scratch);
    } else {
      LongHeader(crc, file, at, end, r);
      GivesUp(crc, file, at, end, p);
    }
  }

  lemma LongHeader(crc: Crc, file: Bytes, at: nat, end: nat, r: Bytes)
    requires at + HEADER_SIZE <= end < |file| == at + HEADER_SIZE + |r| && |r| <= 0xffff
    requires end == BlockEnd(at) && file[at..] == Header(crc, Full, r) + r
    ensures ReadPhysical(crc, file, at) == Physical(BAD_RECORD, [], end, end - at)
  {
    hide Header;
    var h, buffer := Header(crc, Full, r) + r, file[at..end];
    assert h[4] == |r| % 256 && h[5] == |r| / 256 by { HeaderLength(crc, r); }
    assert buffer[4] == file[at..][4] == h[4] && buffer[5] == file[at..][5] == h[5];
    assert LengthField(buffer) == |r|;
    assert BufferEnd(file, at) == end;
  }

  lemma HeaderLength(crc: Crc, r: Bytes)
    requires |r| <= 0xffff
    ensures var h := Header(crc, Full, r) + r; h[4] == |r| % 256 && h[5] == |r| / 256 && h[6] == 1
  {
  }

  lemma GivesUp(crc: Crc, file: Bytes, at: nat, end: nat, p: Partial)
    requires at <= end <= |file| && ReadPhysical(crc, file, at) == Physical(BAD_RECORD, [], end, end - at)
    requires ReadPhysical(crc, file, end).code == EOF_CODE
    ensures RecordsFrom(crc, file, at, p) == []
  {
    hide ReadPhysical;
    var a := Assemble(ReadPhysical(crc, file, at), p.inFragment, p.scratch);
    ReplayAtEof(crc, file, end, a.inFragment, a.scratch);
  }

  /** A record that fits into the rest of the writer's block is one full chunk. */
  lemma OneChunk(crc: Crc, data: Bytes, off: nat)
    requires off % BLOCK_SIZE + HEADER_SIZE + |data| <= BLOCK_SIZE
    ensures |data| <= 0xffff
    ensures Emit(crc, data, off, true) == Header(crc, Full, data) + data && EndOf(data, off) == off + HEADER_SIZE + |data|
  {
    hide Header;
    assert off == off / BLOCK_SIZE * BLOCK_SIZE + off % BLOCK_SIZE;
    assert BlockEnd(off) == off / BLOCK_SIZE * BLOCK_SIZE + BLOCK_SIZE;
    var c := NextChunk(data, off, true);
    assert c == Chunk(off, Full, data);
  }

  lemma OneRecord(crc: Crc, data: Bytes, off: nat)
    requires off % BLOCK_SIZE + HEADER_SIZE + |data| <= BLOCK_SIZE
    ensures |data| <= 0xffff && Appended(crc, off, [data]) == Header(crc, Full, data) + data
  {
    hide Emit, Header;
    OneChunk(crc, data, off);
    EmitOne(crc, data, off);
  }

  /** The file has less room in its block than the writer believes: one record is enough. */
  lemma LostWhenBehind(crc: Crc, file: Bytes, p: Partial, b: nat) returns (later: seq<Bytes>)
    requires b < |file| % BLOCK_SIZE && b + HEADER_SIZE <= BLOCK_SIZE
    ensures RecordsFrom(crc, file + Appended(crc, b, later), |file|, p) != later
  {
    hide RecordsFrom, Header, Appended;
    var space := BLOCK_SIZE - |file| % BLOCK_SIZE;
    var r := Straddler(space);
    OneRecord(crc, r, b);
    StraddlerIsLost(crc, file + Appended(crc, b, [r]), |file|, space, p);
    later := [r];
  }

  /** The file has more room than the writer believes: a first record fills the writer's block, and is read; the second
      one straddles the real boundary. */
  lemma LostWhenAhead(crc: Crc, file: Bytes, p: Partial, b: nat) returns (later: seq<Bytes>)
    requires |file| % BLOCK_SIZE < b && b + HEADER_SIZE <= BLOCK_SIZE
    ensures RecordsFrom(crc, file + Appended(crc, b, later), |file|, p) != later
  {
    hide RecordsFrom, Header, Appended, Emit, EndOf;
    var space := b - |file| % BLOCK_SIZE;
    var first, second := Zeros(BLOCK_SIZE - b - HEADER_SIZE), Straddler(space);
    later := [first, second];
    OneChunk(crc, first, b);
    OneChunk(crc, second, BLOCK_SIZE);
    TwoRecords(crc, first, second, b);
    var h1, h2 := Header(crc, Full, first) + first, Header(crc, Full, second) + second;
    var whole := file + Appended(crc, b, later);
    var at := |file| + |h1|;
    assert whole == file + h1 + h2 && whole[at..] == h2;
    FitsBlock(|file|, b, at);
    var c := Chunk(|file|, Full, first);
    assert whole[|file|..at] == h1;
    ReadChunk(crc, whole, c, |file|);
    ChunkTaken(crc, whole, c, true, true, |file|, p);
    StraddlerIsLost(crc, whole, at, space, NOTHING);
  }

  lemma TwoRecords(crc: Crc, first: Bytes, second: Bytes, b: nat)
    requires EndOf(first, b) == BLOCK_SIZE
    ensures Appended(crc, b, [first, second]) == Emit(crc, first, b, true) + Emit(crc, second, BLOCK_SIZE, true)
  {
    hide Emit;
    assert [first, second][1..] == [second];
    EmitOne(crc, second, BLOCK_SIZE);
  }

  lemma FitsBlock(size: nat, b: nat, at: nat)
    requires size % BLOCK_SIZE < b <= BLOCK_SIZE && at == size + (BLOCK_SIZE - b)
    ensures at <= BlockEnd(size) && at % BLOCK_SIZE == BLOCK_SIZE - (b - size % BLOCK_SIZE)
  {
    assert size == size / BLOCK_SIZE * BLOCK_SIZE + size % BLOCK_SIZE;
    Congruent(at, size % BLOCK_SIZE + (BLOCK_SIZE - b), 0);
  }

  // ----- Writers out of step that are about to write a trailer -----

  /** A byte that is neither the code of a full chunk nor the first of what is pending. */
  function Odd(p: Partial): Byte {
    if p.inFragment && p.scratch != [] && p.scratch[0] == 2 then 3 else 2
  }

  function Run(x: Byte, n: nat): (r: Bytes)
    ensures |r| == n && forall i :: 0 <= i < n ==> r[i] == x
  {
    seq(n, _ => x)
  }

  lemma OnlyWithinCapacity(crc: Crc, file: Bytes, at: nat, p: Partial, r: Bytes)
    requires at <= |file| && r != [] && (p.inFragment && p.scratch != [] ==> p.scratch[0] != r[0])
    ensures RecordsFrom(crc, file, at, p) == [r] ==> |r| <= Capacity(file, at)
  {
    hide Replay, Capacity;
    assert Total([r]) == |r| by { TotalOfOne(r); }
    ReplayWithinCapacity(crc, file, at, p.inFragment, p.scratch);
    if p.inFragment {
      PendingHelpsItsOwn(crc, file, at, p.scratch);
    }
  }

  lemma TotalOfOne(r: Bytes)
    ensures Total([r]) == |r|
  {
    assert [r][1..] == [];
  }

  /** The rest of one block and no more than a header's worth of the next. */
  lemma CapacityOfTail(file: Bytes, at: nat, space: nat, more: nat)
    requires 0 < space < BLOCK_SIZE && at % BLOCK_SIZE == BLOCK_SIZE - space
    requires more <= HEADER_SIZE && |file| == at + space + more
    ensures Capacity(file, at) == if space >= HEADER_SIZE then space - HEADER_SIZE else 0
  {
    assert at == at / BLOCK_SIZE * BLOCK_SIZE + at % BLOCK_SIZE;
    var end := at + space;
    assert BlockEnd(at) == end && BlockEnd(end) == end + BLOCK_SIZE;
    assert BufferEnd(file, at) == end && BufferEnd(file, end) == end + more;
    assert Capacity(file, end) == 0;
  }

  /** The trailer and the only chunk that a writer at `b`, close to its block's end, puts behind a file. */
  lemma TrailerAndChunk(crc: Crc, r: Bytes, b: nat)
    requires BLOCK_SIZE - HEADER_SIZE < b < BLOCK_SIZE && HEADER_SIZE + |r| <= BLOCK_SIZE
    ensures |r| <= 0xffff && Appended(crc, b, [r]) == Zeros(BLOCK_SIZE - b) + (Header(crc, Full, r) + r)
  {
    hide Emit, Header;
    OneChunk(crc, r, BLOCK_SIZE);
    EmitOne(crc, r, b);
    TrailerThenChunks(crc, r, b);
    assert Align(b) == BLOCK_SIZE;
  }

  /** The record is too long for what the blocks can give. */
  lemma LostForLackOfRoom(crc: Crc, file: Bytes, p: Partial, b: nat) returns (later: seq<Bytes>)
    requires BLOCK_SIZE - HEADER_SIZE < b < BLOCK_SIZE && 0 < |file| % BLOCK_SIZE < b
    ensures RecordsFrom(crc, file + Appended(crc, b, later), |file|, p) != later
  {
    hide RecordsFrom, Header, Appended, Capacity;
    var space, pad := BLOCK_SIZE - |file| % BLOCK_SIZE, BLOCK_SIZE - b;
    var r := Run(Odd(p), if space >= HEADER_SIZE then space - 6 else 1);
    later := [r];
    TrailerAndChunk(crc, r, b);
    var whole := file + Appended(crc, b, later);
    CapacityOfTail(whole, |file|, space, pad + HEADER_SIZE + |r| - space);
    OnlyWithinCapacity(crc, whole, |file|, p, r);
  }

  /** Zeros at the start of a block and then a chunk: whatever passes for a header there, its fragment is not `r`. */
  lemma ShiftedChunkIsLost(crc: Crc, file: Bytes, q: nat, z: nat, r: Bytes, p: Partial)
    requires q % BLOCK_SIZE == 0 && 1 <= z <= 6 && |r| == 6
    requires forall i :: 0 <= i < 6 ==> r[i] == Odd(p)
    requires |file| == q + z + HEADER_SIZE + 6 && file[q..] == Zeros(z) + (Header(crc, Full, r) + r)
    ensures RecordsFrom(crc, file, q, p) != [r]
  {
    hide Header, Capacity, Replay, ReadPhysical, ParseBuffer;
    var c := ReadPhysical(crc, file, q);
    assert BlockEnd(q) == q + BLOCK_SIZE && BufferEnd(file, q) == |file|;
    ReadsBuffer(crc, file, q);
    assert file[q..|file|] == file[q..];
    FragmentIsSlice(crc, file[q..], true);
    FragmentIsOdd(crc, file[q..], z, r, p, c.fragment);
    var a := Assemble(c, p.inFragment, p.scratch);
    ReplayUnfolds(crc, file, q, p);
    match a {
      case Finished =>
      case Complete(record, _) =>
        CompletedIsOdd(c, p, r, record);
        assert RecordsFrom(crc, file, q, p)[0] == record;
      case Pending(f, s, _) =>
        RestIsShort(crc, file, q, z, r, p, c, Partial(f, s));
    }
  }

  lemma CompletedIsOdd(c: Physical, p: Partial, r: Bytes, record: Bytes)
    requires r != [] && r[0] == Odd(p) && c.fragment != r
    requires var a := Assemble(c, p.inFragment, p.scratch); a.Complete? && a.record == record
    ensures record != r
  {
    if p.scratch == [] {
      assert p.scratch + c.fragment == c.fragment;
    }
  }

  lemma ReplayUnfolds(crc: Crc, file: Bytes, off: nat, p: Partial)
    requires off <= |file|
    ensures var c := ReadPhysical(crc, file, off);
            match Assemble(c, p.inFragment, p.scratch)
            case Finished => RecordsFrom(crc, file, off, p) == []
            case Pending(f, s, _) => RecordsFrom(crc, file, off, p) == RecordsFrom(crc, file, c.next, Partial(f, s))
            case Complete(record, _) => RecordsFrom(crc, file, off, p) == [record] + RecordsFrom(crc, file, c.next, NOTHING)
  {
    hide ReadPhysical, Assemble;
  }

  /** A fragment is what stands behind a header, or it is empty and the rest of the buffer is given up. */
  lemma FragmentIsSlice(crc: Crc, buffer: Bytes, atEof: bool)
    requires HEADER_SIZE <= |buffer|
    ensures var p := ParseBuffer(crc, buffer, atEof);
            || (p.next == HEADER_SIZE + |p.fragment| && p.fragment == buffer[HEADER_SIZE..HEADER_SIZE + |p.fragment|])
            || ((p.code == EOF_CODE || p.code == BAD_RECORD) && p.fragment == [] && p.next == |buffer|)
  {
    hide ChecksumMatches, LengthField;
  }

  /** Behind the shifted header's first bytes stands its type, which is not in `r`. */
  lemma FragmentIsOdd(crc: Crc, buffer: Bytes, z: nat, r: Bytes, p: Partial, fragment: Bytes)
    requires 1 <= z <= 6 && |r| == 6 && (forall i :: 0 <= i < 6 ==> r[i] == Odd(p))
    requires buffer == Zeros(z) + (Header(crc, Full, r) + r)
    requires fragment == [] || (HEADER_SIZE + |fragment| <= |buffer| && fragment == buffer[HEADER_SIZE..HEADER_SIZE + |fragment|])
    ensures fragment != r
  {
    HeaderLength(crc, r);
    hide Header;
    var h := Header(crc, Full, r) + r;
    assert buffer[z + 6] == h[6] == 1;
    if |fragment| == 6 {
      assert fragment[z - 1] == buffer[HEADER_SIZE + (z - 1)];
    }
  }

  /** Behind a first header there is too little left for a record of six bytes. */
  lemma RestIsShort(crc: Crc, file: Bytes, q: nat, z: nat, r: Bytes, p: Partial, c: Physical, next: Partial)
    requires q % BLOCK_SIZE == 0 && 1 <= z <= 6 && |r| == 6 && (forall i :: 0 <= i < 6 ==> r[i] == Odd(p))
    requires |file| == q + z + HEADER_SIZE + 6 && c.next <= |file| && c.fragment != r
    requires c.next == |file| || c.next == q + HEADER_SIZE + |c.fragment|
    requires var a := Assemble(c, p.inFragment, p.scratch); a.Pending? && next == Partial(a.inFragment, a.scratch)
    ensures RecordsFrom(crc, file, c.next, next) != [r]
  {
    hide Capacity, Replay;
    if |file| - c.next < HEADER_SIZE {
      ShortRestIsEof(crc, file, c.next, q);
      ReplayAtEof(crc, file, c.next, next.inFragment, next.scratch);
    } else {
      CapacityInLastBlock(file, c.next, q);
      if next.inFragment && next.scratch != [] && next.scratch[0] == r[0] {
        TotalOfOne(r);
        ReplayWithinCapacity(crc, file, c.next, next.inFragment, next.scratch);
      } else {
        OnlyWithinCapacity(crc, file, c.next, next, r);
      }
    }
  }

  lemma ShortRestIsEof(crc: Crc, file: Bytes, at: nat, q: nat)
    requires q % BLOCK_SIZE == 0 && q <= at <= |file| < q + BLOCK_SIZE && |file| - at < HEADER_SIZE
    ensures ReadPhysical(crc, file, at).code == EOF_CODE
  {
    assert BlockEnd(at) == q + BLOCK_SIZE;
  }

  lemma CapacityInLastBlock(file: Bytes, at: nat, q: nat)
    requires q % BLOCK_SIZE == 0 && q <= at <= |file| < q + BLOCK_SIZE && |file| - at >= HEADER_SIZE
    ensures Capacity(file, at) == |file| - at - HEADER_SIZE
  {
    assert BlockEnd(at) == q + BLOCK_SIZE;
  }

  /** The file ends nearer to its block's end than the writer believes, or at it. */
  lemma LostBehindZeros(crc: Crc, file: Bytes, p: Partial, b: nat) returns (later: seq<Bytes>)
    requires BLOCK_SIZE - HEADER_SIZE < b < BLOCK_SIZE && (|file| % BLOCK_SIZE == 0 || b < |file| % BLOCK_SIZE)
    ensures RecordsFrom(crc, file + Appended(crc, b, later), |file|, p) != later
  {
    hide RecordsFrom, Header, Appended;
    var pad := BLOCK_SIZE - b;
    var r := Run(Odd(p), 6);
    later := [r];
    TrailerAndChunk(crc, r, b);
    var whole := file + Appended(crc, b, later);
    var space := if |file| % BLOCK_SIZE == 0 then 0 else BLOCK_SIZE - |file| % BLOCK_SIZE;
    var q := |file| + space;
    NextBlock(|file|, space, q);
    SkipsTrailer(crc, whole, |file|, q, p);
    assert whole[q..] == Zeros(pad - space) + (Header(crc, Full, r) + r);
    ShiftedChunkIsLost(crc, whole, q, pad - space, r, p);
  }

  lemma NextBlock(size: nat, space: nat, q: nat)
    requires q == size + space && space <= 6 && (size + space) % BLOCK_SIZE == 0
    ensures q == size || q == Align(size)
  {
  }

  // ----- The condition -----

  lemma LostOutOfStep(crc: Crc, file: Bytes, p: Partial, b: nat) returns (later: seq<Bytes>)
    requires b < BLOCK_SIZE && b != |file| % BLOCK_SIZE
    ensures RecordsFrom(crc, file + Appended(crc, b, later), |file|, p) != later
  {
    hide RecordsFrom, Appended;
    var a := |file| % BLOCK_SIZE;
    if b + HEADER_SIZE <= BLOCK_SIZE {
      if b < a {
        later := LostWhenBehind(crc, file, p, b);
      } else {
        later := LostWhenAhead(crc, file, p, b);
      }
    } else if 0 < a < b {
      later := LostForLackOfRoom(crc, file, p, b);
    } else {
      later := LostBehindZeros(crc, file, p, b);
    }
  }

  /** A writer behind any file that reads as some records logs everything to come correctly exactly if it knows where in
      a block the file ends.  What the checksum computes does not matter. */
  lemma ExactlyAlignedWritersLogCorrectly(crc: Crc, file: Bytes, records: seq<Bytes>, p: Partial, offset: nat)
    requires ReadsTo(crc, file, records, p)
    ensures LogsCorrectly(crc, file, records, offset) <==> offset % BLOCK_SIZE == |file| % BLOCK_SIZE
  {
    hide RecordsFrom, Appended;
    if offset % BLOCK_SIZE == |file| % BLOCK_SIZE {
      AlignedLogsCorrectly(crc, file, records, p, offset);
    } else {
      var b := offset % BLOCK_SIZE;
      var later := LostOutOfStep(crc, file, p, b);
      AppendedByOffset(crc, offset, b, later);
      assert RecordsFrom(crc, file + Appended(crc, offset, later), 0, NOTHING)
          == records + RecordsFrom(crc, file + Appended(crc, b, later), |file|, p);
      Cancels(records, RecordsFrom(crc, file + Appended(crc, b, later), |file|, p), later);
    }
  }

  lemma Cancels(a: seq<Bytes>, x: seq<Bytes>, y: seq<Bytes>)
    requires x != y
    ensures a + x != a + y
  {
    assert (a + x)[|a|..] == x && (a + y)[|a|..] == y;
  }

  /** For the complete log of some records. */
  lemma ExactlyAlignedWritersContinueLogs(crc: Crc, before: seq<Bytes>, offset: nat)
    ensures var log := EmitAll(crc, before, 0);
            LogsCorrectly(crc, log, before, offset) <==> offset % BLOCK_SIZE == |log| % BLOCK_SIZE
  {
    hide EmitAll, LogsCorrectly, ReadsTo;
    ReadsCompleteLog(crc, before);
    ExactlyAlignedWritersLogCorrectly(crc, EmitAll(crc, before, 0), before, NOTHING, offset);
  }

  // ----- What takes a writer out of step -----

  /** An aligned writer that is about to write a trailer, a trailer append that is cut short, and a record behind it that is
      acknowledged: the empty record is lost, and so may be any later one. */
  lemma CutTrailerLosesRecord(crc: Crc, file: Bytes, records: seq<Bytes>, p: Partial, offset: nat, kept: nat)
    requires ReadsTo(crc, file, records, p) && offset % BLOCK_SIZE == |file| % BLOCK_SIZE && kept < |Trailer(offset)|
    ensures var chunks := Chunks(crc, [], offset, true);
            var c := Call([], true, kept, |chunks|, |chunks|);
            && IsCall(crc, offset, c)
            && RecordsFrom(crc, FileAfterCall(crc, file, offset, c), 0, NOTHING) == records
            && OffsetAfterCall(offset, c) != |FileAfterCall(crc, file, offset, c)| % BLOCK_SIZE
  {
    hide RecordsFrom, Header, Emit;
    var chunks := Chunks(crc, [], offset, true);
    var c := Call([], true, kept, |chunks|, |chunks|);
    CompleteCall(Align(offset), |chunks|);
    OneChunk(crc, [], Align(offset));
    var x := Trailer(offset)[..kept] + chunks;
    var whole := file + x;
    assert FileAfterCall(crc, file, offset, c) == whole;
    AlignmentDecided(|file|, offset, OffsetAfterCall(offset, c), |Trailer(offset)|, kept, |chunks|, |chunks|, |whole|);
    CutTrailer(|file|, offset, kept);
    var end := |file| + |Trailer(offset)|;
    ShortRestIsEof(crc, whole, end, end);
    SkipsTrailer(crc, whole, |file|, end, p);
    assert RecordsFrom(crc, file + x, 0, NOTHING) == records + RecordsFrom(crc, file + x, |file|, p);
    EndsThere(crc, whole, end, p);
    assert records + ([] + []) == records;
  }

  lemma EndsThere(crc: Crc, file: Bytes, off: nat, p: Partial)
    requires off <= |file| && ReadPhysical(crc, file, off).code == EOF_CODE
    ensures RecordsFrom(crc, file, off, p) == []
  {
    ReplayAtEof(crc, file, off, p.inFragment, p.scratch);
  }

  lemma CutTrailer(size: nat, offset: nat, kept: nat)
    requires offset % BLOCK_SIZE == size % BLOCK_SIZE && kept < |Trailer(offset)|
    ensures Align(offset) % BLOCK_SIZE == 0 && Align(size) == size + |Trailer(offset)| && Align(size) % BLOCK_SIZE == 0
  {
    SameResidue(offset, size, 0);
    SameBlockOffset([], offset, size, true);
    AlignIsStart([], offset, true);
    AlignIsStart([], size, true);
  }

  /** A call of which nothing reaches the file, as on a full disk: the writer goes on correctly exactly if the chunk it
      failed to write was a whole block. */
  lemma FailedAppendLosesRecord(crc: Crc, file: Bytes, records: seq<Bytes>, p: Partial, offset: nat, c: Call)
    requires ReadsTo(crc, file, records, p) && offset % BLOCK_SIZE == |file| % BLOCK_SIZE
    requires IsCall(crc, offset, c) && Trailer(offset) == [] && c.written == 0
    ensures FileAfterCall(crc, file, offset, c) == file
    ensures LogsCorrectly(crc, file, records, OffsetAfterCall(offset, c)) <==> c.believed % BLOCK_SIZE == 0
  {
    hide ReadsTo, LogsCorrectly, Chunks, StopsIn;
    ExactlyAlignedWritersLogCorrectly(crc, file, records, p, OffsetAfterCall(offset, c));
    StopsWithin(Align(offset), |Chunks(crc, c.slice, offset, true)|, c.written, c.believed);
    InStepIsAligned(crc, file, offset, c);
  }
}
