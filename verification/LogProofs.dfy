/** What a reader gets back from a written log: all of it, the complete part of a torn one, and
    whole records only from a damaged one. */
module LogProofs {
  import opened History
  import opened Coding
  import opened LogFormat
  import opened LogReader

  /** The result of reading a chunk that the file holds. */
  function Intact(c: Chunk): Physical {
    Physical(TypeCode(c.kind) as nat, c.data, ChunkEnd(c), 0)
  }

  lemma HeaderFields(crc: Crc, kind: RecordType, data: Bytes)
    requires |data| <= 0xffff
    ensures var h := Header(crc, kind, data) + data;
            && LengthField(h) == |data|
            && h[6] == TypeCode(kind)
            && h[6..HEADER_SIZE + |data|] == [TypeCode(kind)] + data
            && h[HEADER_SIZE..HEADER_SIZE + |data|] == data
            && ChecksumMatches(crc, h, |data|)
  {
    var mask := Mask(crc([TypeCode(kind)] + data));
    var h := Header(crc, kind, data) + data;
    assert h[0..4] == EncodeFixed(mask, 4);
    assert mask % TWO_32 == mask;
    assert h[6..HEADER_SIZE + |data|] == [TypeCode(kind)] + data;
    Pow256Values();
    FixedRoundTrip(mask, 4);
    UnmaskMask(crc([TypeCode(kind)] + data));
  }

  /** Only the front of the buffer matters to the parser, once the length field is known to fit. */
  lemma ParseFront(crc: Crc, buffer: Bytes, c: Chunk, atEof: bool)
    requires |c.data| <= 0xffff
    requires var h := Header(crc, c.kind, c.data) + c.data; |h| <= |buffer| && buffer[..|h|] == h
    ensures ParseBuffer(crc, buffer, atEof)
         == Physical(TypeCode(c.kind) as nat, c.data, HEADER_SIZE + |c.data|, 0)
  {
    var h := Header(crc, c.kind, c.data) + c.data;
    HeaderFields(crc, c.kind, c.data);
    assert forall i :: 0 <= i < |h| ==> buffer[i] == buffer[..|h|][i];
    assert buffer[0..4] == h[0..4];
    assert buffer[6..|h|] == h[6..|h|];
    assert buffer[HEADER_SIZE..|h|] == h[HEADER_SIZE..|h|];
  }

  /** A reader in front of a chunk, or in the trailer before it, gets the chunk. */
  lemma ReadChunk(crc: Crc, file: Bytes, c: Chunk, off: nat)
    requires |c.data| <= 0xffff && WellPlaced(c) && Holds(crc, file, c)
    requires off <= |file| && (off == c.off || Align(off) == c.off)
    ensures ReadPhysical(crc, file, off) == Intact(c)
  {
    var h := Header(crc, c.kind, c.data) + c.data;
    var end := BufferEnd(file, c.off);
    assert c.off + |h| <= end;
    SliceOfSlice(file, c.off, end, 0, |h|);
    ParseFront(crc, file[c.off..end], c, BlockEnd(c.off) > |file|);
    if off != c.off {
      assert BufferEnd(file, off) == BlockEnd(off) == c.off;
    }
  }

  /** A reader of a file cut off inside a chunk takes the cut for the end of the file. */
  lemma ReadTorn(crc: Crc, whole: Bytes, m: nat, c: Chunk, off: nat)
    requires |c.data| <= 0xffff && WellPlaced(c) && Holds(crc, whole, c)
    requires off <= m <= |whole| && (off == c.off || Align(off) == c.off)
    requires m < ChunkEnd(c)
    ensures ReadPhysical(crc, whole[..m], off).code == EOF_CODE
  {
    var file := whole[..m];
    if c.off + HEADER_SIZE <= m {
      var end := BufferEnd(file, c.off);
      var h := Header(crc, c.kind, c.data) + c.data;
      HeaderFields(crc, c.kind, c.data);
      assert end == m;
      assert whole[c.off..c.off + |h|] == h;
      assert LengthField(file[c.off..end]) == |c.data| by {
        assert whole[c.off..c.off + |h|][4] == whole[c.off + 4] == file[c.off..end][4];
        assert whole[c.off..c.off + |h|][5] == whole[c.off + 5] == file[c.off..end][5];
      }
      assert ReadPhysical(crc, file, c.off).code == EOF_CODE;
    } else if c.off <= m {
      assert ReadPhysical(crc, file, c.off).code == EOF_CODE;
    }
    if off != c.off {
      assert BlockEnd(off) == c.off;
    }
  }

  /** The records that lie wholly inside the first `m` bytes. */
  function Whole(records: seq<Bytes>, off: nat, m: nat): (r: seq<Bytes>)
    ensures r <= records
  {
    if records == [] || m < EndOf(records[0], off) then []
    else [records[0]] + Whole(records[1..], EndOf(records[0], off), m)
  }

  lemma {:induction false} AllWhole(records: seq<Bytes>, off: nat)
    ensures Whole(records, off, EndOfAll(records, off)) == records && off <= EndOfAll(records, off)
  {
    if records != [] {
      AllWhole(records[1..], EndOf(records[0], off));
    }
  }

  /** One chunk read in step: the assembly goes on with it, or completes with it. */
  lemma ReplayChunk(crc: Crc, file: Bytes, c: Chunk, begin: bool, end: bool, off: nat, scratch: Bytes)
    requires off <= |file| && ReadPhysical(crc, file, off) == Intact(c) && c.kind == TypeFor(begin, end)
    requires begin ==> scratch == []
    ensures ChunkEnd(c) <= |file|
    ensures end ==> var rest := Replay(crc, file, ChunkEnd(c), false, []);
                    Replay(crc, file, off, !begin, scratch) == Replayed([scratch + c.data] + rest.records, rest.reports)
    ensures !end ==> Replay(crc, file, off, !begin, scratch) == Replay(crc, file, ChunkEnd(c), true, scratch + c.data)
  {
    hide ReadPhysical;
    assert begin ==> scratch + c.data == c.data;
    assert Assemble(Intact(c), !begin, scratch)
        == if end then Complete(scratch + c.data, []) else Pending(true, scratch + c.data, []);
  }

  lemma EndIsEof(crc: Crc, file: Bytes)
    ensures ReadPhysical(crc, file, |file|).code == EOF_CODE
  {
  }

  lemma {:induction false} TornRecord(crc: Crc, whole: Bytes, m: nat, data: Bytes, off: nat, begin: bool, scratch: Bytes,
                                      rest: seq<Bytes>)
    requires off <= m <= |whole| == EndOfAll(rest, EndOf(data, off))
    requires RecordHeld(crc, whole, data, off, begin) && LogHeld(crc, whole, rest, EndOf(data, off))
    requires begin ==> scratch == []
    ensures Replay(crc, whole[..m], off, !begin, scratch)
         == Replayed(if EndOf(data, off) <= m then [scratch + data] + Whole(rest, EndOf(data, off), m) else [], [])
    decreases |rest|, 1, |data|, if off % BLOCK_SIZE == 0 then 0 else 1
  {
    hide ReadPhysical, Header, NextChunk, RecordHeld, LogHeld, Replay, Whole, EndOf, Holds, Align;
    var c := NextChunk(data, off, begin);
    var file := whole[..m];
    RecordParts(crc, whole, data, off, begin);
    if m < ChunkEnd(c) {
      ReadTorn(crc, whole, m, c, off);
      ReplayAtEof(crc, file, off, !begin, scratch);
    } else {
      HeldInPrefix(crc, whole, m, c);
      ReadChunk(crc, file, c, off);
      ReplayChunk(crc, file, c, begin, |c.data| == |data|, off, scratch);
      if |c.data| == |data| {
        TornLog(crc, whole, m, rest, ChunkEnd(c));
      } else {
        TornRecord(crc, whole, m, data[|c.data|..], ChunkEnd(c), false, scratch + c.data, rest);
        assert (scratch + c.data) + data[|c.data|..] == scratch + data;
      }
    }
  }

  /** The first chunk of a record, and what is left of it. */
  lemma RecordParts(crc: Crc, file: Bytes, data: Bytes, off: nat, begin: bool)
    requires RecordHeld(crc, file, data, off, begin)
    ensures var c := NextChunk(data, off, begin);
            && Holds(crc, file, c) && ChunkEnd(c) <= EndOf(data, off) && c.kind == TypeFor(begin, |c.data| == |data|)
            && (|c.data| == |data| ==> c.data == data && EndOf(data, off) == ChunkEnd(c))
            && (|c.data| < |data| ==>
                  && RecordHeld(crc, file, data[|c.data|..], ChunkEnd(c), false)
                  && EndOf(data, off) == EndOf(data[|c.data|..], ChunkEnd(c)))
  {
    hide Header, EndOf, NextChunk, RecordHeld, Holds;
    HeldParts(crc, file, data, off, begin);
    EndParts(data, off, begin);
  }

  lemma HeldParts(crc: Crc, file: Bytes, data: Bytes, off: nat, begin: bool)
    requires RecordHeld(crc, file, data, off, begin)
    ensures var c := NextChunk(data, off, begin);
            && Holds(crc, file, c)
            && (|c.data| < |data| ==> RecordHeld(crc, file, data[|c.data|..], ChunkEnd(c), false))
  {
    hide Header, EndOf, NextChunk, Holds;
  }

  lemma EndParts(data: Bytes, off: nat, begin: bool)
    ensures var c := NextChunk(data, off, begin);
            && ChunkEnd(c) <= EndOf(data, off) && c.kind == TypeFor(begin, |c.data| == |data|)
            && (|c.data| == |data| ==> c.data == data && EndOf(data, off) == ChunkEnd(c))
            && (|c.data| < |data| ==> EndOf(data, off) == EndOf(data[|c.data|..], ChunkEnd(c)))
  {
    SameExtent(data, off, begin);
    hide NextChunk;
    EndUnfolds(data, off);
  }

  lemma SameExtent(data: Bytes, off: nat, begin: bool)
    ensures var c, d := NextChunk(data, off, begin), NextChunk(data, off, true);
            c.data == d.data && ChunkEnd(c) == ChunkEnd(d) && c.kind == TypeFor(begin, |c.data| == |data|)
  {
  }

  lemma EndUnfolds(data: Bytes, off: nat)
    ensures var c := NextChunk(data, off, true);
            EndOf(data, off) == if |c.data| == |data| then ChunkEnd(c) else EndOf(data[|c.data|..], ChunkEnd(c))
  {
    hide NextChunk;
  }

  lemma HeldInPrefix(crc: Crc, whole: Bytes, m: nat, c: Chunk)
    requires |c.data| <= 0xffff && Holds(crc, whole, c) && ChunkEnd(c) <= m <= |whole|
    ensures Holds(crc, whole[..m], c)
  {
    hide Header;
    SliceOfSlice(whole, 0, m, c.off, ChunkEnd(c));
    assert whole[0..m] == whole[..m];
  }

  lemma ReplayAtEof(crc: Crc, file: Bytes, off: nat, inFragment: bool, scratch: Bytes)
    requires off <= |file| && ReadPhysical(crc, file, off).code == EOF_CODE
    ensures Replay(crc, file, off, inFragment, scratch) == Replayed([], [])
  {
    hide ReadPhysical;
  }

  lemma {:induction false} TornLog(crc: Crc, whole: Bytes, m: nat, records: seq<Bytes>, off: nat)
    requires off <= m <= |whole| == EndOfAll(records, off)
    requires LogHeld(crc, whole, records, off)
    ensures Replay(crc, whole[..m], off, false, []) == Replayed(Whole(records, off, m), [])
    decreases |records|, 0
  {
    hide ReadPhysical, RecordHeld;
    if records == [] {
      EndIsEof(crc, whole[..m]);
    } else {
      TornRecord(crc, whole, m, records[0], off, true, [], records[1..]);
      assert [] + records[0] == records[0];
    }
  }

  /** After truncation at any byte the reader returns exactly the records wholly inside what is left,
      and reports no corruption. */
  lemma TornTail(crc: Crc, records: seq<Bytes>, m: nat)
    requires m <= |EmitAll(crc, records, 0)|
    ensures Replay(crc, EmitAll(crc, records, 0)[..m], 0, false, []) == Replayed(Whole(records, 0, m), [])
  {
    var log := EmitAll(crc, records, 0);
    EmitAllLength(crc, records, 0);
    EmittedLogHeld(crc, records, 0, log);
    TornLog(crc, log, m, records, 0);
  }

  /** Reading a complete log returns exactly the records written to it. */
  lemma LogRoundTrip(crc: Crc, records: seq<Bytes>)
    ensures Replay(crc, EmitAll(crc, records, 0), 0, false, []) == Replayed(records, [])
  {
    var log := EmitAll(crc, records, 0);
    EmitAllLength(crc, records, 0);
    AllWhole(records, 0);
    TornTail(crc, records, |log|);
    assert log[..|log|] == log;
  }

  /** Damage keeps the length of the file and may change any of its bytes. */
  ghost predicate BlockIntact(log: Bytes, damaged: Bytes, off: nat) {
    forall i :: BlockEnd(off) - BLOCK_SIZE <= i < BlockEnd(off) && i < |log| && i < |damaged| ==> log[i] == damaged[i]
  }

  /** Whether no fragment of the rest of a record lies in a damaged block. */
  ghost predicate Untouched(log: Bytes, damaged: Bytes, data: Bytes, off: nat)
    decreases |data|, if off % BLOCK_SIZE == 0 then 0 else 1
  {
    var c := NextChunk(data, off, true);
    BlockIntact(log, damaged, c.off) && (|c.data| < |data| ==> Untouched(log, damaged, data[|c.data|..], ChunkEnd(c)))
  }

  ghost function AllUntouched(log: Bytes, damaged: Bytes, records: seq<Bytes>, off: nat): (r: seq<bool>)
    ensures |r| == |records|
  {
    if records == [] then []
    else [Untouched(log, damaged, records[0], off)] + AllUntouched(log, damaged, records[1..], EndOf(records[0], off))
  }

  /** A header at `off` whose checksum agrees with the bytes its length field selects. */
  ghost predicate ChecksumPasses(crc: Crc, file: Bytes, off: nat) {
    && off + HEADER_SIZE <= |file| && off + HEADER_SIZE <= BufferEnd(file, off)
    && var buffer := file[off..BufferEnd(file, off)];
       && HEADER_SIZE + LengthField(buffer) <= |buffer|
       && ChecksumMatches(crc, buffer, LengthField(buffer))
  }

  /** The checksum detects every change: where it passes, the chunk written there is unchanged. */
  ghost predicate RecordChangesDetected(crc: Crc, damaged: Bytes, data: Bytes, off: nat, begin: bool)
    decreases |data|, if off % BLOCK_SIZE == 0 then 0 else 1
  {
    var c := NextChunk(data, off, begin);
    && (ChecksumPasses(crc, damaged, c.off) ==> Holds(crc, damaged, c))
    && (|c.data| < |data| ==> RecordChangesDetected(crc, damaged, data[|c.data|..], ChunkEnd(c), false))
  }

  ghost predicate ChangesDetected(crc: Crc, damaged: Bytes, records: seq<Bytes>, off: nat) {
    records != [] ==>
      && RecordChangesDetected(crc, damaged, records[0], off, true)
      && ChangesDetected(crc, damaged, records[1..], EndOf(records[0], off))
  }

  /** `out` is `records` with some of those left out that need not be kept. */
  ghost predicate Retains(out: seq<Bytes>, records: seq<Bytes>, keep: seq<bool>)
    requires |keep| == |records|
  {
    if records == [] then out == []
    else
      || (out != [] && out[0] == records[0] && Retains(out[1..], records[1..], keep[1..]))
      || (!keep[0] && Retains(out, records[1..], keep[1..]))
  }

  /** Reading where a chunk was written yields that chunk, or gives up the rest of a damaged block. */
  lemma ReadDamaged(crc: Crc, log: Bytes, damaged: Bytes, c: Chunk, off: nat)
    requires |damaged| == |log| && |c.data| <= 0xffff && WellPlaced(c) && Holds(crc, log, c)
    requires ChecksumPasses(crc, damaged, c.off) ==> Holds(crc, damaged, c)
    requires off <= |damaged| && (off == c.off || Align(off) == c.off)
    ensures var p := ReadPhysical(crc, damaged, off);
            || p == Intact(c)
            || (!BlockIntact(log, damaged, c.off) && p.code == BAD_RECORD && p.next == BufferEnd(damaged, c.off))
            || (!BlockIntact(log, damaged, c.off) && p.code == EOF_CODE && |damaged| < BlockEnd(c.off))
  {
    if Holds(crc, damaged, c) {
      ReadChunk(crc, damaged, c, off);
    } else {
      assert !BlockIntact(log, damaged, c.off);
      assert BufferEnd(damaged, c.off) - c.off >= HEADER_SIZE;
      assert off != c.off ==> BlockEnd(off) == c.off && ReadPhysical(crc, damaged, off) == ReadPhysical(crc, damaged, c.off);
    }
  }

  /** Where the reader stands relative to the next chunk: in front of it, or, after giving up a
      damaged block, at the end of the block that holds it. */
  ghost predicate Position(log: Bytes, damaged: Bytes, chunk: nat, off: nat, skipping: bool) {
    && off <= |damaged|
    && (!skipping ==> off == chunk || Align(off) == chunk)
    && (skipping ==> off == BufferEnd(damaged, chunk) && !BlockIntact(log, damaged, chunk))
  }

  /** Passing over a chunk of a given up block leads to the next chunk of the block, or out of the block. */
  lemma PassOver(log: Bytes, damaged: Bytes, c: Chunk, at: nat)
    requires |damaged| == |log| && WellPlaced(c) && ChunkEnd(c) <= |damaged|
    requires Position(log, damaged, c.off, at, true)
    ensures ChunkEnd(c) == |damaged| ==> at == |damaged|
    ensures Align(ChunkEnd(c)) + HEADER_SIZE <= |damaged| ==>
              var next := Align(ChunkEnd(c));
              Position(log, damaged, next, at, next < BlockEnd(c.off))
  {
    var next := Align(ChunkEnd(c));
    if next < BlockEnd(c.off) {
      assert next == ChunkEnd(c) && BlockEnd(next) == BlockEnd(c.off);
    } else {
      assert next == BlockEnd(c.off);
    }
  }

  /** A fragment that is read out of step is dropped. */
  lemma ReplayLost(crc: Crc, file: Bytes, c: Chunk, end: bool, off: nat)
    requires off <= |file| && ReadPhysical(crc, file, off) == Intact(c) && c.kind == TypeFor(false, end)
    ensures ChunkEnd(c) <= |file|
    ensures Replay(crc, file, off, false, []).records == Replay(crc, file, ChunkEnd(c), false, []).records
  {
    hide ReadPhysical;
    assert Assemble(Intact(c), false, []) == Pending(false, [], [|c.data|]);
  }

  /** A bad block ends the assembly. */
  lemma ReplayBad(crc: Crc, file: Bytes, off: nat, inFragment: bool, scratch: Bytes)
    requires off <= |file| && (!inFragment ==> scratch == [])
    requires ReadPhysical(crc, file, off).code == BAD_RECORD
    ensures Replay(crc, file, off, inFragment, scratch).records
         == Replay(crc, file, ReadPhysical(crc, file, off).next, false, []).records
  {
    hide ReadPhysical;
  }

  lemma RetainsOne(out: seq<Bytes>, full: Bytes, rest: seq<Bytes>, keep: bool, flags: seq<bool>)
    requires |flags| == |rest| && Retains(out, rest, flags)
    ensures Retains([full] + out, [full] + rest, [keep] + flags)
    ensures !keep ==> Retains(out, [full] + rest, [keep] + flags)
  {
    assert ([full] + rest)[1..] == rest && ([full] + out)[1..] == out && ([keep] + flags)[1..] == flags;
  }

  lemma SameBlock(off: nat, chunk: nat, end: nat)
    requires chunk <= off && off + HEADER_SIZE <= end < BlockEnd(chunk)
    ensures Align(off) == off && BlockEnd(off) == BlockEnd(chunk)
  {
  }

  /** When the last, partial block is damaged, no record from there on need be kept. */
  lemma {:induction false} NothingKept(log: Bytes, damaged: Bytes, records: seq<Bytes>, off: nat, chunk: nat)
    requires chunk <= off <= |log| == |damaged| < BlockEnd(chunk) && EndOfAll(records, off) == |log|
    requires !BlockIntact(log, damaged, chunk)
    ensures Retains([], records, AllUntouched(log, damaged, records, off))
  {
    if records != [] {
      var end := EndOf(records[0], off);
      AllWhole(records[1..], end);
      SameBlock(off, chunk, |log|);
      assert !Untouched(log, damaged, records[0], off);
      NothingKept(log, damaged, records[1..], end, chunk);
    }
  }

  /** A point inside a record: in front of its next chunk or past it, in step with it or having lost it. */
  ghost predicate Inside(crc: Crc, log: Bytes, damaged: Bytes, data: Bytes, off: nat, begin: bool,
                         keep: bool, full: Bytes, rest: seq<Bytes>, at: nat, skipping: bool, inFragment: bool, scratch: Bytes)
  {
    && off <= |damaged| == |log| == EndOfAll(rest, EndOf(data, off)) && EndOf(data, off) <= |log|
    && RecordHeld(crc, log, data, off, begin) && LogHeld(crc, log, rest, EndOf(data, off))
    && RecordChangesDetected(crc, damaged, data, off, begin) && ChangesDetected(crc, damaged, rest, EndOf(data, off))
    && Position(log, damaged, Align(off), at, skipping)
    && (begin ==> !inFragment && data == full)
    && (!inFragment ==> scratch == [])
    && (!begin ==> if inFragment then scratch + data == full else !keep)
    && (skipping ==> !inFragment)
    && (keep ==> Untouched(log, damaged, data, off))
  }

  /** From any point inside a record the reader retains what it must. */
  lemma {:induction false} DamagedRecord(crc: Crc, log: Bytes, damaged: Bytes, data: Bytes, off: nat, begin: bool,
                                         keep: bool, full: Bytes, rest: seq<Bytes>,
                                         at: nat, skipping: bool, inFragment: bool, scratch: Bytes)
    requires Inside(crc, log, damaged, data, off, begin, keep, full, rest, at, skipping, inFragment, scratch)
    ensures Retains(Replay(crc, damaged, at, inFragment, scratch).records, [full] + rest,
                    [keep] + AllUntouched(log, damaged, rest, EndOf(data, off)))
    decreases |rest|, 1, |data|, if off % BLOCK_SIZE == 0 then 0 else 1, if skipping then 0 else 1, 1
  {
    if skipping {
      DamagedSkip(crc, log, damaged, data, off, begin, keep, full, rest, at);
    } else {
      DamagedStep(crc, log, damaged, data, off, begin, keep, full, rest, at, inFragment, scratch);
    }
  }

  lemma {:induction false} DamagedSkip(crc: Crc, log: Bytes, damaged: Bytes, data: Bytes, off: nat, begin: bool,
                                       keep: bool, full: Bytes, rest: seq<Bytes>, at: nat)
    requires Inside(crc, log, damaged, data, off, begin, keep, full, rest, at, true, false, [])
    ensures Retains(Replay(crc, damaged, at, false, []).records, [full] + rest,
                    [keep] + AllUntouched(log, damaged, rest, EndOf(data, off)))
    decreases |rest|, 1, |data|, if off % BLOCK_SIZE == 0 then 0 else 1, 0, 0
  {
    hide ReadPhysical, Replay, Header, Retains, BlockIntact, ChecksumPasses;
    var c := NextChunk(data, off, begin);
    PassOver(log, damaged, c, at);
    var skipping := Align(ChunkEnd(c)) < BlockEnd(c.off);
    if |c.data| == |data| {
      DamagedLog(crc, log, damaged, rest, ChunkEnd(c), at, skipping);
      RetainsOne(Replay(crc, damaged, at, false, []).records, full, rest, keep, AllUntouched(log, damaged, rest, EndOf(data, off)));
    } else {
      DamagedRecord(crc, log, damaged, data[|c.data|..], ChunkEnd(c), false, false, full, rest, at, skipping, false, []);
    }
  }

  lemma {:induction false} DamagedStep(crc: Crc, log: Bytes, damaged: Bytes, data: Bytes, off: nat, begin: bool,
                                       keep: bool, full: Bytes, rest: seq<Bytes>, at: nat, inFragment: bool, scratch: Bytes)
    requires Inside(crc, log, damaged, data, off, begin, keep, full, rest, at, false, inFragment, scratch)
    ensures Retains(Replay(crc, damaged, at, inFragment, scratch).records, [full] + rest,
                    [keep] + AllUntouched(log, damaged, rest, EndOf(data, off)))
    decreases |rest|, 1, |data|, if off % BLOCK_SIZE == 0 then 0 else 1, 1, 0
  {
    hide ReadPhysical, Replay, Header, Retains, BlockIntact, ChecksumPasses;
    var c := NextChunk(data, off, begin);
    ReadDamaged(crc, log, damaged, c, at);
    var p := ReadPhysical(crc, damaged, at);
    if p == Intact(c) {
      DamagedGoOn(crc, log, damaged, data, off, begin, keep, full, rest, at, inFragment, scratch);
    } else if p.code == BAD_RECORD {
      assert !keep;
      ReplayBad(crc, damaged, at, inFragment, scratch);
      DamagedRecord(crc, log, damaged, data, off, begin, false, full, rest, p.next, true, false, []);
    } else {
      ReplayAtEof(crc, damaged, at, inFragment, scratch);
      NothingKept(log, damaged, rest, EndOf(data, off), c.off);
      RetainsOne([], full, rest, keep, AllUntouched(log, damaged, rest, EndOf(data, off)));
    }
  }

  /** What being inside a record says about the point behind its next chunk. */
  lemma InsideStep(crc: Crc, log: Bytes, damaged: Bytes, data: Bytes, off: nat, begin: bool,
                   keep: bool, full: Bytes, rest: seq<Bytes>, at: nat, inFragment: bool, scratch: Bytes)
    requires Inside(crc, log, damaged, data, off, begin, keep, full, rest, at, false, inFragment, scratch)
    ensures var c := NextChunk(data, off, begin);
            && c.kind == TypeFor(begin, |c.data| == |data|)
            && (|c.data| == |data| && rest == [] ==> ChunkEnd(c) == |damaged|)
            && ChunkEnd(c) <= EndOf(data, off)
            && (|c.data| == |data| ==> c.data == data && EndOf(data, off) == ChunkEnd(c))
            && (|c.data| < |data| ==>
                  && RecordHeld(crc, log, data[|c.data|..], ChunkEnd(c), false)
                  && EndOf(data, off) == EndOf(data[|c.data|..], ChunkEnd(c))
                  && RecordChangesDetected(crc, damaged, data[|c.data|..], ChunkEnd(c), false)
                  && (keep ==> Untouched(log, damaged, data[|c.data|..], ChunkEnd(c))))
            && (ChunkEnd(c) <= |damaged| ==> Position(log, damaged, Align(ChunkEnd(c)), ChunkEnd(c), false))
  {
    hide Header, BlockIntact, ChecksumPasses, NextChunk, EndOf, RecordHeld, LogHeld, ChangesDetected, Untouched,
      RecordChangesDetected, Align;
    RecordParts(crc, log, data, off, begin);
    ChangesStep(crc, damaged, data, off, begin);
    SameExtent(data, off, begin);
    if keep {
      UntouchedStep(log, damaged, data, off);
    }
  }

  lemma ChangesStep(crc: Crc, damaged: Bytes, data: Bytes, off: nat, begin: bool)
    requires RecordChangesDetected(crc, damaged, data, off, begin)
    ensures var c := NextChunk(data, off, begin);
            |c.data| < |data| ==> RecordChangesDetected(crc, damaged, data[|c.data|..], ChunkEnd(c), false)
  {
    hide NextChunk, ChecksumPasses, Holds;
  }

  lemma UntouchedStep(log: Bytes, damaged: Bytes, data: Bytes, off: nat)
    requires Untouched(log, damaged, data, off)
    ensures var c := NextChunk(data, off, true);
            |c.data| < |data| ==> Untouched(log, damaged, data[|c.data|..], ChunkEnd(c))
  {
    hide NextChunk, BlockIntact;
  }

  lemma {:induction false} DamagedGoOn(crc: Crc, log: Bytes, damaged: Bytes, data: Bytes, off: nat, begin: bool,
                                       keep: bool, full: Bytes, rest: seq<Bytes>, at: nat, inFragment: bool, scratch: Bytes)
    requires Inside(crc, log, damaged, data, off, begin, keep, full, rest, at, false, inFragment, scratch)
    requires ReadPhysical(crc, damaged, at) == Intact(NextChunk(data, off, begin))
    ensures Retains(Replay(crc, damaged, at, inFragment, scratch).records, [full] + rest,
                    [keep] + AllUntouched(log, damaged, rest, EndOf(data, off)))
    decreases |rest|, 1, |data|, if off % BLOCK_SIZE == 0 then 0 else 1, 0, 0
  {
    hide ReadPhysical, Replay, Header, Retains, BlockIntact, ChecksumPasses, NextChunk, Align, BlockEnd, RecordHeld,
      RecordChangesDetected, Untouched, EndOf, LogHeld, ChangesDetected, AllUntouched, EndOfAll, Position;
    InsideStep(crc, log, damaged, data, off, begin, keep, full, rest, at, inFragment, scratch);
    var c := NextChunk(data, off, begin);
    var left, end, inStep := data[|c.data|..], |c.data| == |data|, begin || inFragment;
    assert c.data + left == data;
    if inStep {
      ReplayChunk(crc, damaged, c, begin, end, at, scratch);
      assert (scratch + c.data) + left == scratch + data == full;
      assert end ==> scratch + c.data == full;
    } else {
      ReplayLost(crc, damaged, c, end, at);
    }
    if end {
      DamagedLog(crc, log, damaged, rest, ChunkEnd(c), ChunkEnd(c), false);
      RetainsOne(Replay(crc, damaged, ChunkEnd(c), false, []).records, full, rest, keep,
                 AllUntouched(log, damaged, rest, EndOf(data, off)));
    } else {
      DamagedRecord(crc, log, damaged, left, ChunkEnd(c), false, keep, full, rest, ChunkEnd(c), false, inStep,
                    if inStep then scratch + c.data else []);
    }
  }

  lemma {:induction false} DamagedLog(crc: Crc, log: Bytes, damaged: Bytes, records: seq<Bytes>, off: nat,
                                      at: nat, skipping: bool)
    requires off <= |damaged| == |log| == EndOfAll(records, off)
    requires LogHeld(crc, log, records, off) && ChangesDetected(crc, damaged, records, off)
    requires records == [] ==> at == |damaged|
    requires records != [] ==> Position(log, damaged, Align(off), at, skipping)
    ensures at <= |damaged|
    ensures Retains(Replay(crc, damaged, at, false, []).records, records, AllUntouched(log, damaged, records, off))
    decreases |records|, 0
  {
    if records == [] {
      EndIsEof(crc, damaged);
    } else {
      AllWhole(records[1..], EndOf(records[0], off));
      DamagedRecord(crc, log, damaged, records[0], off, true, Untouched(log, damaged, records[0], off), records[0],
                    records[1..], at, skipping, false, []);
      assert [records[0]] + records[1..] == records;
    }
  }

  /** Whatever bytes of a written log are damaged, a reader returns whole written records only, in
      order, and all of those that have no fragment in a damaged block. */
  lemma DamageNeverFabricates(crc: Crc, records: seq<Bytes>, damaged: Bytes)
    requires |damaged| == |EmitAll(crc, records, 0)|
    requires ChangesDetected(crc, damaged, records, 0)
    ensures Retains(Replay(crc, damaged, 0, false, []).records, records,
                    AllUntouched(EmitAll(crc, records, 0), damaged, records, 0))
  {
    var log := EmitAll(crc, records, 0);
    EmitAllLength(crc, records, 0);
    EmittedLogHeld(crc, records, 0, log);
    DamagedLog(crc, log, damaged, records, 0, 0, false);
  }

  /** Spelled out: the records returned are the written ones at strictly increasing positions, and
      every position that must be kept is among them. */
  lemma {:induction false} RetainedPositions(out: seq<Bytes>, records: seq<Bytes>, keep: seq<bool>) returns (positions: seq<nat>)
    requires |keep| == |records| && Retains(out, records, keep)
    ensures |positions| == |out|
    ensures forall i :: 0 <= i < |out| ==> positions[i] < |records| && out[i] == records[positions[i]]
    ensures forall i, j :: 0 <= i < j < |out| ==> positions[i] < positions[j]
    ensures forall p: nat :: p < |records| && keep[p] ==> p in positions
  {
    hide Shifted;
    if records == [] {
      positions := [];
    } else if out != [] && out[0] == records[0] && Retains(out[1..], records[1..], keep[1..]) {
      var tail := RetainedPositions(out[1..], records[1..], keep[1..]);
      positions := [0] + Shifted(tail);
      forall p: nat | p < |records| && keep[p] ensures p in positions {
        if p > 0 {
          var i :| 0 <= i < |tail| && tail[i] == p - 1;
          assert positions[i + 1] == p;
        } else {
          assert positions[0] == 0;
        }
      }
    } else {
      var tail := RetainedPositions(out, records[1..], keep[1..]);
      positions := Shifted(tail);
      forall p: nat | p < |records| && keep[p] ensures p in positions {
        var i :| 0 <= i < |tail| && tail[i] == p - 1;
        assert positions[i] == p;
      }
    }
  }

  function Shifted(s: seq<nat>): (r: seq<nat>)
    ensures |r| == |s| && forall i :: 0 <= i < |s| ==> r[i] == s[i] + 1
  {
    seq(|s|, i requires 0 <= i < |s| => s[i] + 1)
  }
}
