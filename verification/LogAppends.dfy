/** Writers and readers together: what a reader finds in a file that a writer has appended to, with or without failures. */
module LogAppends {
  import opened History
  import opened Coding
  import opened LogFormat
  import opened LogReader
  import opened LogWriter
  import opened LogProofs

  /** A reader between two physical reads: whether it is inside a record, and what it has of it. */
  datatype Partial = Partial(inFragment: bool, scratch: Bytes)

  const NOTHING := Partial(false, [])

  function RecordsFrom(crc: Crc, file: Bytes, off: nat, p: Partial): seq<Bytes>
    requires off <= |file|
  {
    Replay(crc, file, off, p.inFragment, p.scratch).records
  }

  /** Whatever is appended to `file`, a reader returns `records` and then stands at the end of `file` with `p` pending. */
  ghost predicate ReadsTo(crc: Crc, file: Bytes, records: seq<Bytes>, p: Partial) {
    forall x: Bytes :: RecordsFrom(crc, file + x, 0, NOTHING) == records + RecordsFrom(crc, file + x, |file|, p)
  }

  // ----- Reading past the chunks of one record -----

  /** The file holds the chunks of the rest of a record up to `stop`, where the last of these chunks ends. */
  ghost predicate HeldTo(crc: Crc, file: Bytes, data: Bytes, off: nat, begin: bool, stop: nat)
    decreases |data|, if off % BLOCK_SIZE == 0 then 0 else 1
  {
    || stop == off || stop == Align(off)
    || (var c := NextChunk(data, off, begin);
        && Holds(crc, file, c) && ChunkEnd(c) <= stop
        && (if |c.data| == |data| then stop == ChunkEnd(c)
            else HeldTo(crc, file, data[|c.data|..], ChunkEnd(c), false, stop)))
  }

  /** Emitted bytes up to a chunk's end hold these chunks. */
  lemma {:induction false} PrefixHeldTo(crc: Crc, file: Bytes, data: Bytes, off: nat, begin: bool, n: nat)
    requires n <= |Emit(crc, data, off, begin)| && At(file, off, Emit(crc, data, off, begin)[..n])
    requires n == |Emit(crc, data, off, begin)| || n == 0 || (off + n) % BLOCK_SIZE == 0
    ensures HeldTo(crc, file, data, off, begin, off + n)
    decreases |data|, if off % BLOCK_SIZE == 0 then 0 else 1
  {
    hide Emit, NextChunk, Header, At;
    var c := NextChunk(data, off, begin);
    var pad, chunk, rest := Zeros(c.off - off), Header(crc, c.kind, c.data) + c.data, EmitRest(crc, data, off, begin);
    EmitParts(crc, data, off, begin);
    if n != 0 && off + n != Align(off) {
      BoundaryIsBehind(data, off, begin, n, |pad| + |chunk| + |rest|);
      var n' := n - |pad| - |chunk|;
      PrefixOfThree(pad, chunk, rest, n);
      AtParts(file, off, pad, chunk + rest[..n']);
      AtParts(file, c.off, chunk, rest[..n']);
      RestIs(crc, data, off, begin);
      if |c.data| < |data| {
        PrefixHeldTo(crc, file, data[|c.data|..], ChunkEnd(c), false, n');
      }
    }
  }

  lemma RestIs(crc: Crc, data: Bytes, off: nat, begin: bool)
    ensures var c := NextChunk(data, off, begin);
            EmitRest(crc, data, off, begin) == if |c.data| == |data| then [] else Emit(crc, data[|c.data|..], ChunkEnd(c), false)
  {
    hide Emit, NextChunk;
  }

  /** A block boundary behind the trailer is behind the next chunk. */
  lemma BoundaryIsBehind(data: Bytes, off: nat, begin: bool, n: nat, total: nat)
    requires n == total || (off + n) % BLOCK_SIZE == 0
    requires n != 0 && off + n != Align(off) && total >= ChunkEnd(NextChunk(data, off, begin)) - off
    ensures off + n >= ChunkEnd(NextChunk(data, off, begin))
  {
    var c := NextChunk(data, off, begin);
    if n != total {
      var k := (off + n) / BLOCK_SIZE;
      assert off + n == k * BLOCK_SIZE;
      assert k >= off / BLOCK_SIZE + 1;
    }
  }

  lemma PrefixOfThree(pad: Bytes, chunk: Bytes, rest: Bytes, n: nat)
    requires |pad| + |chunk| <= n <= |pad| + |chunk| + |rest|
    ensures (pad + (chunk + rest))[..n] == pad + (chunk + rest[..n - |pad| - |chunk|])
  {
  }

  /** A reader takes in a first or full chunk, or the end of the file, as if it had nothing pending. */
  lemma StartsAfresh(crc: Crc, file: Bytes, off: nat, p: Partial)
    requires off <= |file|
    requires var r := ReadPhysical(crc, file, off); r.code == 1 || r.code == 2 || r.code == EOF_CODE
    ensures RecordsFrom(crc, file, off, p) == RecordsFrom(crc, file, off, NOTHING)
  {
    hide ReadPhysical;
  }

  lemma SkipsTrailer(crc: Crc, file: Bytes, off: nat, stop: nat, p: Partial)
    requires off <= stop <= |file| && (stop == off || stop == Align(off))
    ensures RecordsFrom(crc, file, off, p) == [] + RecordsFrom(crc, file, stop, p)
  {
    if stop != off {
      SameRead(crc, file, off);
    }
    hide ReadPhysical;
  }

  lemma SameRead(crc: Crc, file: Bytes, off: nat)
    requires Align(off) <= |file|
    ensures ReadPhysical(crc, file, off) == ReadPhysical(crc, file, Align(off))
  {
  }

  /** What is pending after the chunks of a record up to `stop`. */
  function After(data: Bytes, off: nat, begin: bool, stop: nat, p: Partial): Partial
    decreases |data|, if off % BLOCK_SIZE == 0 then 0 else 1
  {
    var c := NextChunk(data, off, begin);
    if stop == off || stop == Align(off) then p
    else if |c.data| == |data| then NOTHING
    else After(data[|c.data|..], ChunkEnd(c), false, stop, Partial(true, Sofar(c, begin, p)))
  }

  function Sofar(c: Chunk, begin: bool, p: Partial): Bytes {
    if begin then c.data else p.scratch + c.data
  }

  /** Reading on to where the held chunks stop: the record is returned if they complete it, and is pending otherwise. */
  lemma {:induction false} Through(crc: Crc, file: Bytes, data: Bytes, off: nat, begin: bool, stop: nat, p: Partial)
    requires off <= stop <= |file| && HeldTo(crc, file, data, off, begin, stop)
    requires !begin ==> p.inFragment
    ensures var full := if begin then data else p.scratch + data;
            var q := After(data, off, begin, stop, p);
            && RecordsFrom(crc, file, off, p) == (if stop == EndOf(data, off) then [full] else []) + RecordsFrom(crc, file, stop, q)
            && (stop == EndOf(data, off) ==> q == NOTHING)
    decreases |data|, if off % BLOCK_SIZE == 0 then 0 else 1
  {
    hide ReadPhysical, RecordsFrom, Header, NextChunk, Holds, EndOf, Align, HeldTo, ChunkEnd, Intact, After;
    EndParts(data, off, begin);
    var c := NextChunk(data, off, begin);
    AlignIsStart(data, off, begin);
    AfterStep(data, off, begin, stop, p);
    if stop == off || stop == Align(off) {
      SkipsTrailer(crc, file, off, stop, p);
    } else {
      HeldToStep(crc, file, data, off, begin, stop);
      ReadChunk(crc, file, c, off);
      ChunkTaken(crc, file, c, begin, |c.data| == |data|, off, p);
      if |c.data| < |data| {
        Through(crc, file, data[|c.data|..], ChunkEnd(c), false, stop, Partial(true, Sofar(c, begin, p)));
        SofarAndRest(c, data, off, begin, p);
      }
    }
  }

  lemma AfterStep(data: Bytes, off: nat, begin: bool, stop: nat, p: Partial)
    ensures var c := NextChunk(data, off, begin);
            After(data, off, begin, stop, p) ==
              if stop == off || stop == Align(off) then p
              else if |c.data| == |data| then NOTHING
              else After(data[|c.data|..], ChunkEnd(c), false, stop, Partial(true, Sofar(c, begin, p)))
  {
    hide NextChunk, Align, ChunkEnd, Sofar;
  }

  lemma SofarAndRest(c: Chunk, data: Bytes, off: nat, begin: bool, p: Partial)
    requires c == NextChunk(data, off, begin)
    ensures Sofar(c, begin, p) + data[|c.data|..] == if begin then data else p.scratch + data
  {
    assert c.data + data[|c.data|..] == data;
    hide NextChunk;
  }

  lemma AlignIsStart(data: Bytes, off: nat, begin: bool)
    ensures NextChunk(data, off, begin).off == Align(off) >= off && ChunkEnd(NextChunk(data, off, begin)) > Align(off)
  {
  }

  lemma HeldToStep(crc: Crc, file: Bytes, data: Bytes, off: nat, begin: bool, stop: nat)
    requires HeldTo(crc, file, data, off, begin, stop) && stop != off && stop != Align(off)
    ensures var c := NextChunk(data, off, begin);
            && Holds(crc, file, c) && ChunkEnd(c) <= stop
            && (if |c.data| == |data| then stop == ChunkEnd(c)
                else HeldTo(crc, file, data[|c.data|..], ChunkEnd(c), false, stop))
  {
    hide NextChunk, Holds, Align;
  }

  /** One chunk read, with whatever was pending before a first one given up. */
  lemma ChunkTaken(crc: Crc, file: Bytes, c: Chunk, begin: bool, end: bool, off: nat, p: Partial)
    requires off <= |file| && ReadPhysical(crc, file, off) == Intact(c) && c.kind == TypeFor(begin, end)
    requires !begin ==> p.inFragment
    ensures ChunkEnd(c) <= |file|
    ensures RecordsFrom(crc, file, off, p)
         == if end then [Sofar(c, begin, p)] + RecordsFrom(crc, file, ChunkEnd(c), NOTHING)
            else RecordsFrom(crc, file, ChunkEnd(c), Partial(true, Sofar(c, begin, p)))
  {
    hide ReadPhysical;
  }

  // ----- One call of AddRecord -----

  /** A trailer and the chunks make up the layout of the record. */
  lemma LayoutOfCall(crc: Crc, slice: Bytes, offset: nat, size: nat)
    requires offset % BLOCK_SIZE == size % BLOCK_SIZE
    ensures Trailer(offset) + Chunks(crc, slice, offset, true) == Emit(crc, slice, size, true)
    ensures Trailer(offset) == Trailer(size)
    ensures Align(offset) % BLOCK_SIZE == Align(size) % BLOCK_SIZE
    ensures size + |Trailer(offset)| + |Chunks(crc, slice, offset, true)| == EndOf(slice, size)
  {
    hide Emit, NextChunk, Header, EndOf;
    SameBlockOffset(slice, offset, size, true);
    AlignIsStart(slice, offset, true);
    AlignIsStart(slice, size, true);
    assert Trailer(offset) == Trailer(size);
    SameResidue(offset, size, |Trailer(offset)|);
    EmitByOffsetInBlock(crc, slice, Align(offset), Align(size), true);
    TrailerThenChunks(crc, slice, size);
    EmitLength(crc, slice, size, true);
  }

  lemma TrailerThenChunks(crc: Crc, slice: Bytes, off: nat)
    ensures Emit(crc, slice, off, true) == Trailer(off) + Emit(crc, slice, Align(off), true)
  {
    hide Emit, NextChunk, Header;
    var c, d := NextChunk(slice, off, true), NextChunk(slice, Align(off), true);
    AlignIsStart(slice, off, true);
    SameFromAlign(slice, off, true);
    EmitParts(crc, slice, off, true);
    EmitParts(crc, slice, Align(off), true);
    RestIs(crc, slice, off, true);
    RestIs(crc, slice, Align(off), true);
    var chunk, rest := Header(crc, c.kind, c.data) + c.data, EmitRest(crc, slice, off, true);
    assert Zeros(0) + (chunk + rest) == chunk + rest;
  }

  /** A call that leaves an aligned writer aligned has stopped at the end of a chunk. */
  lemma StopsAtChunkEnd(off: nat, total: nat, written: nat, believed: nat)
    requires StopsIn(off, total, written, believed) && (believed - written) % BLOCK_SIZE == 0
    ensures written == total || (off + written) % BLOCK_SIZE == 0
  {
    if believed != written {
      var k := (off + written) / BLOCK_SIZE;
      var m := (believed - written) / BLOCK_SIZE;
      assert believed - written == m * BLOCK_SIZE && off + written == k * BLOCK_SIZE + (off + written) % BLOCK_SIZE;
      assert off + believed <= (k + 1) * BLOCK_SIZE;
    }
  }

  /** After a call whose trailer is whole and whose missing bytes do not shift the writer, a reader gets the records
      before it, the call's own record exactly if all of it is in the file, and goes on behind it. */
  lemma CallReads(crc: Crc, file: Bytes, records: seq<Bytes>, p: Partial, slice: Bytes, offset: nat, written: nat, believed: nat)
    returns (q: Partial)
    requires ReadsTo(crc, file, records, p) && offset % BLOCK_SIZE == |file| % BLOCK_SIZE
    requires written <= |Chunks(crc, slice, offset, true)|
    requires StopsIn(Align(offset), |Chunks(crc, slice, offset, true)|, written, believed)
    requires (believed - written) % BLOCK_SIZE == 0
    ensures var chunks := Chunks(crc, slice, offset, true);
            && ReadsTo(crc, file + Trailer(offset) + chunks[..written],
                       records + (if written == |chunks| then [slice] else []), q)
            && (written == |chunks| ==> q == NOTHING)
  {
    hide Emit, RecordsFrom, Chunks, Trailer, Align, EndOf, StopsIn;
    var pad, chunks, bytes := Trailer(offset), Chunks(crc, slice, offset, true), Emit(crc, slice, |file|, true);
    var file' := file + pad + chunks[..written];
    LayoutOfCall(crc, slice, offset, |file|);
    StopsAtChunkEnd(Align(offset), |chunks|, written, believed);
    SameResidue(Align(offset), Align(|file|), written);
    q := After(slice, |file|, true, |file'|, p);
    forall x: Bytes
      ensures RecordsFrom(crc, file' + x, 0, NOTHING)
           == records + (if written == |chunks| then [slice] else []) + RecordsFrom(crc, file' + x, |file'|, q)
    {
      CallReadsWith(crc, file, records, p, slice, bytes, pad, chunks, written, x);
    }
    CallReadsWith(crc, file, records, p, slice, bytes, pad, chunks, written, []);
  }

  lemma CallReadsWith(crc: Crc, file: Bytes, records: seq<Bytes>, p: Partial, slice: Bytes, bytes: Bytes, pad: Bytes, chunks: Bytes,
                      written: nat, x: Bytes)
    requires ReadsTo(crc, file, records, p) && bytes == Emit(crc, slice, |file|, true) == pad + chunks && written <= |chunks|
    requires |file| + |bytes| == EndOf(slice, |file|)
    requires written == |chunks| || (|file| + |pad| + written) % BLOCK_SIZE == 0
    ensures var file' := file + pad + chunks[..written];
            var q := After(slice, |file|, true, |file'|, p);
            && RecordsFrom(crc, file' + x, 0, NOTHING)
               == records + (if written == |chunks| then [slice] else []) + RecordsFrom(crc, file' + x, |file'|, q)
            && (written == |chunks| ==> q == NOTHING)
  {
    hide Emit, RecordsFrom, EndOf, HeldTo, After;
    var file' := file + pad + chunks[..written];
    Continued(crc, file, bytes, pad, chunks, written, x);
    PrefixHeldTo(crc, file' + x, slice, |file|, true, |pad| + written);
    Through(crc, file' + x, slice, |file|, true, |file'|, p);
  }

  lemma Continued(crc: Crc, file: Bytes, bytes: Bytes, pad: Bytes, chunks: Bytes, written: nat, x: Bytes)
    requires bytes == pad + chunks && written <= |chunks|
    ensures file + pad + chunks[..written] + x == file + (pad + chunks[..written] + x)
    ensures At(file + pad + chunks[..written] + x, |file|, bytes[..|pad| + written])
  {
    assert bytes[..|pad| + written] == pad + chunks[..written];
  }

  // ----- Whole files -----

  /** A reader that has read a file to its end has nothing more to return. */
  lemma NothingAtEnd(crc: Crc, file: Bytes, p: Partial)
    ensures RecordsFrom(crc, file, |file|, p) == []
  {
    EndIsEof(crc, file);
    ReplayAtEof(crc, file, |file|, p.inFragment, p.scratch);
  }

  lemma ReadsToIsRead(crc: Crc, file: Bytes, records: seq<Bytes>, p: Partial)
    requires ReadsTo(crc, file, records, p)
    ensures RecordsFrom(crc, file, 0, NOTHING) == records
  {
    hide RecordsFrom;
    assert file + [] == file;
    NothingAtEnd(crc, file, p);
  }

  lemma ReadsEmpty(crc: Crc)
    ensures ReadsTo(crc, [], [], NOTHING)
  {
    hide RecordsFrom;
    var empty: Bytes := [];
    assert forall x: Bytes :: RecordsFrom(crc, empty + x, 0, NOTHING) == [] + RecordsFrom(crc, empty + x, |empty|, NOTHING);
  }

  /** The complete log of some records is read to its end, with nothing pending. */
  lemma {:induction false} ReadsCompleteLog(crc: Crc, records: seq<Bytes>)
    ensures ReadsTo(crc, EmitAll(crc, records, 0), records, NOTHING)
    decreases |records|
  {
    hide ReadsTo, EmitAll, Emit, Chunks, Trailer, Align, StopsIn, EndOf;
    if records == [] {
      ReadsEmpty(crc);
      assert EmitAll(crc, [], 0) == [] by { NoRecords(crc); }
    } else {
      var front, last := records[..|records| - 1], records[|records| - 1];
      var file := EmitAll(crc, front, 0);
      var pad, chunks := Trailer(|file|), Chunks(crc, last, |file|, true);
      ReadsCompleteLog(crc, front);
      CompleteCall(Align(|file|), |chunks|);
      var q := CallReads(crc, file, front, NOTHING, last, |file|, |chunks|, |chunks|);
      LayoutOfCall(crc, last, |file|, |file|);
      AppendExtendsLog(crc, front, last, |file|);
      assert front + [last] == records;
      assert chunks[..|chunks|] == chunks;
      assert file + pad + chunks == file + (pad + chunks);
    }
  }

  lemma NoRecords(crc: Crc)
    ensures EmitAll(crc, [], 0) == []
  {
  }

  lemma CompleteCall(off: nat, total: nat)
    ensures StopsIn(off, total, total, total)
  {
  }

  /** An aligned writer's complete call extends a log to the log with one more record. */
  lemma AppendExtendsLog(crc: Crc, records: seq<Bytes>, slice: Bytes, offset: nat)
    requires offset % BLOCK_SIZE == |EmitAll(crc, records, 0)| % BLOCK_SIZE
    ensures EmitAll(crc, records, 0) + Emit(crc, slice, offset, true) == EmitAll(crc, records + [slice], 0)
  {
    hide Emit, EmitAll;
    EmitAllLength(crc, records, 0);
    EmitByOffsetInBlock(crc, slice, offset, EndOfAll(records, 0), true);
    LogsConcatenate(crc, records, [slice], 0);
    EmitOne(crc, slice, EndOfAll(records, 0));
  }

  lemma EmitOne(crc: Crc, slice: Bytes, off: nat)
    ensures EmitAll(crc, [slice], off) == Emit(crc, slice, off, true)
  {
    hide Emit;
    assert EmitAll(crc, [slice][1..], EndOf(slice, off)) == [];
  }

  /** A writer reopened on a complete log continues it: the reader gets both parts. */
  lemma ReopenedLogRoundTrip(crc: Crc, before: seq<Bytes>, after: seq<Bytes>)
    ensures var log := EmitAll(crc, before, 0);
            Replay(crc, log + EmitAll(crc, after, |log|), 0, false, []) == Replayed(before + after, [])
  {
    EmitAllLength(crc, before, 0);
    LogsConcatenate(crc, before, after, 0);
    LogRoundTrip(crc, before + after);
  }

  // ----- Any sequence of calls -----

  /** A call of AddRecord, by what it left in the file and what the writer made of it. */
  datatype Call = Call(slice: Bytes, ok: bool, kept: nat, written: nat, believed: nat)

  /** What a call by a writer at `offset` can be. */
  predicate IsCall(crc: Crc, offset: nat, c: Call) {
    && c.kept <= |Trailer(offset)|
    && StopsIn(Align(offset), |Chunks(crc, c.slice, offset, true)|, c.written, c.believed)
    && (c.ok ==> Complete(crc, offset, c))
  }

  function FileAfterCall(crc: Crc, file: Bytes, offset: nat, c: Call): Bytes
    requires IsCall(crc, offset, c)
  {
    file + Trailer(offset)[..c.kept] + Chunks(crc, c.slice, offset, true)[..c.written]
  }

  /** Modulo the block size, where the writer is afterwards. */
  function OffsetAfterCall(offset: nat, c: Call): nat {
    (Align(offset) + c.believed) % BLOCK_SIZE
  }

  predicate Complete(crc: Crc, offset: nat, c: Call) {
    c.written == |Chunks(crc, c.slice, offset, true)|
  }

  /** The trailer is whole, and what is missing of the chunks is nothing or a block. */
  predicate InStep(offset: nat, c: Call) {
    c.kept == |Trailer(offset)| && (c.believed - c.written) % BLOCK_SIZE == 0
  }

  ghost predicate AreCalls(crc: Crc, offset: nat, calls: seq<Call>)
    decreases |calls|
  {
    calls != [] ==> IsCall(crc, offset, calls[0]) && AreCalls(crc, OffsetAfterCall(offset, calls[0]), calls[1..])
  }

  ghost function FileAfter(crc: Crc, file: Bytes, offset: nat, calls: seq<Call>): Bytes
    requires AreCalls(crc, offset, calls)
    decreases |calls|
  {
    if calls == [] then file
    else FileAfter(crc, FileAfterCall(crc, file, offset, calls[0]), OffsetAfterCall(offset, calls[0]), calls[1..])
  }

  ghost predicate AllInStep(offset: nat, calls: seq<Call>)
    decreases |calls|
  {
    calls != [] ==> InStep(offset, calls[0]) && AllInStep(OffsetAfterCall(offset, calls[0]), calls[1..])
  }

  /** The records of the calls whose bytes are all in the file. */
  ghost function RecordsOf(crc: Crc, offset: nat, calls: seq<Call>): seq<Bytes>
    decreases |calls|
  {
    if calls == [] then []
    else
      var here := if Complete(crc, offset, calls[0]) then [calls[0].slice] else [];
      here + RecordsOf(crc, OffsetAfterCall(offset, calls[0]), calls[1..])
  }

  /** A call in step keeps an aligned writer aligned; with a whole trailer, only such a call does. */
  lemma InStepIsAligned(crc: Crc, file: Bytes, offset: nat, c: Call)
    requires IsCall(crc, offset, c) && offset % BLOCK_SIZE == |file| % BLOCK_SIZE
    ensures var after := FileAfterCall(crc, file, offset, c);
            && (InStep(offset, c) ==> OffsetAfterCall(offset, c) == |after| % BLOCK_SIZE)
            && (c.kept == |Trailer(offset)| && OffsetAfterCall(offset, c) == |after| % BLOCK_SIZE ==> InStep(offset, c))
  {
    hide Chunks, Trailer, Align;
    AlignmentDecided(|file|, offset, OffsetAfterCall(offset, c), |Trailer(offset)|, c.kept, c.written, c.believed,
                     |FileAfterCall(crc, file, offset, c)|);
  }

  /** However many calls have failed: as long as every call was in step, a reader gets exactly the records whose bytes
      are all there, acknowledged ones among them, and is ready for more. */
  lemma {:induction false} CallsRead(crc: Crc, file: Bytes, records: seq<Bytes>, p: Partial, offset: nat, calls: seq<Call>)
    returns (q: Partial)
    requires ReadsTo(crc, file, records, p) && offset % BLOCK_SIZE == |file| % BLOCK_SIZE
    requires AreCalls(crc, offset, calls) && AllInStep(offset, calls)
    ensures ReadsTo(crc, FileAfter(crc, file, offset, calls), records + RecordsOf(crc, offset, calls), q)
    decreases |calls|
  {
    hide ReadsTo, Chunks, Trailer, Align, StopsIn;
    if calls == [] {
      q := p;
      assert records + [] == records;
    } else {
      var c := calls[0];
      var after, next := FileAfterCall(crc, file, offset, c), OffsetAfterCall(offset, c);
      var more := if Complete(crc, offset, c) then [c.slice] else [];
      InStepIsAligned(crc, file, offset, c);
      assert Trailer(offset)[..c.kept] == Trailer(offset);
      StopsWithin(Align(offset), |Chunks(crc, c.slice, offset, true)|, c.written, c.believed);
      var r := CallReads(crc, file, records, p, c.slice, offset, c.written, c.believed);
      q := CallsRead(crc, after, records + more, r, next, calls[1..]);
      assert (records + more) + RecordsOf(crc, next, calls[1..]) == records + (more + RecordsOf(crc, next, calls[1..]));
    }
  }

  lemma StopsWithin(off: nat, total: nat, written: nat, believed: nat)
    requires StopsIn(off, total, written, believed)
    ensures written <= believed <= total
  {
  }

  /** What a reader gets from a log after any calls in step on a complete log. */
  lemma LogAfterCalls(crc: Crc, before: seq<Bytes>, offset: nat, calls: seq<Call>)
    requires offset % BLOCK_SIZE == |EmitAll(crc, before, 0)| % BLOCK_SIZE
    requires AreCalls(crc, offset, calls) && AllInStep(offset, calls)
    ensures var file := FileAfter(crc, EmitAll(crc, before, 0), offset, calls);
            Replay(crc, file, 0, false, []).records == before + RecordsOf(crc, offset, calls)
  {
    hide ReadsTo, EmitAll, Replay;
    ReadsCompleteLog(crc, before);
    var q := CallsRead(crc, EmitAll(crc, before, 0), before, NOTHING, offset, calls);
    var file := FileAfter(crc, EmitAll(crc, before, 0), offset, calls);
    ReadsPrefix(crc, file, before + RecordsOf(crc, offset, calls), q, file);
  }

  lemma {:induction false} CallsSnoc(crc: Crc, file: Bytes, offset: nat, calls: seq<Call>, c: Call)
    requires AreCalls(crc, offset, calls) && IsCall(crc, OffsetAfter(offset, calls), c)
    ensures AreCalls(crc, offset, calls + [c])
    ensures FileAfter(crc, file, offset, calls + [c])
         == FileAfterCall(crc, FileAfter(crc, file, offset, calls), OffsetAfter(offset, calls), c)
    ensures OffsetAfter(offset, calls + [c]) == OffsetAfterCall(OffsetAfter(offset, calls), c)
    decreases |calls|
  {
    hide IsCall, FileAfterCall, OffsetAfterCall;
    if calls == [] {
      assert [c][1..] == [];
    } else {
      assert (calls + [c])[0] == calls[0] && (calls + [c])[1..] == calls[1..] + [c];
      CallsSnoc(crc, FileAfterCall(crc, file, offset, calls[0]), OffsetAfterCall(offset, calls[0]), calls[1..], c);
    }
  }

  ghost function OffsetAfter(offset: nat, calls: seq<Call>): nat
    decreases |calls|
  {
    if calls == [] then offset else OffsetAfter(OffsetAfterCall(offset, calls[0]), calls[1..])
  }

  /** A writer opened on a complete log, used as DBImpl uses it: every record is tried, whatever became of the calls
      before.  The file is what those calls leave, and a call that reports success has all of its record's bytes there. */
  method WriteAll(crc: Crc, before: seq<Bytes>, records: seq<Bytes>)
    returns (file: Bytes, acknowledged: seq<bool>, ghost calls: seq<Call>)
    ensures |acknowledged| == |calls| == |records|
    ensures var log := EmitAll(crc, before, 0);
            AreCalls(crc, |log| % BLOCK_SIZE, calls) && file == FileAfter(crc, log, |log| % BLOCK_SIZE, calls)
    ensures forall i :: 0 <= i < |records| ==> calls[i].slice == records[i] && calls[i].ok == acknowledged[i]
    ensures AllInStep(|EmitAll(crc, before, 0)| % BLOCK_SIZE, calls) ==>
              Replay(crc, file, 0, false, []).records
                == before + RecordsOf(crc, |EmitAll(crc, before, 0)| % BLOCK_SIZE, calls)
  {
    hide EmitAll, Emit, Chunks, Trailer, StopsIn, Align, Replay, AreCalls, FileAfter, OffsetAfter, IsCall, FileAfterCall;
    var w := new Writer.Reopen(crc, EmitAll(crc, before, 0));
    ghost var log, start := w.dest, w.blockOffset;
    acknowledged, calls := [], [];
    NoCalls(crc, log, start);
    var i := 0;
    while i < |records|
      invariant i <= |records| && fresh(w) && w.crc == crc && w.Valid()
      invariant |acknowledged| == |calls| == i && AreCalls(crc, start, calls)
      invariant w.dest == FileAfter(crc, log, start, calls)
      invariant w.blockOffset % BLOCK_SIZE == OffsetAfter(start, calls) % BLOCK_SIZE
      invariant forall k :: 0 <= k < i ==> calls[k].slice == records[k] && calls[k].ok == acknowledged[k]
    {
      ghost var offset, dest := w.blockOffset, w.dest;
      var ok;
      ghost var kept: nat, written: nat, believed: nat;
      ok, kept, written, believed := w.AddRecord(records[i]);
      ghost var c := Call(records[i], ok, kept, written, believed);
      CallMade(crc, offset, c, dest, w.dest);
      SameCall(crc, offset, OffsetAfter(start, calls), c, dest);
      CallsSnoc(crc, log, start, calls, c);
      acknowledged, calls := acknowledged + [ok], calls + [c];
      i := i + 1;
    }
    file := w.dest;
    if AllInStep(start, calls) {
      LogAfterCalls(crc, before, start, calls);
    }
  }

  lemma CallMade(crc: Crc, offset: nat, c: Call, file: Bytes, file': Bytes)
    requires var pad, chunks := Trailer(offset), Chunks(crc, c.slice, offset, true);
             && c.kept <= |pad| && c.written <= |chunks| && file' == file + pad[..c.kept] + chunks[..c.written]
             && StopsIn(Align(offset), |chunks|, c.written, c.believed) && (c.ok ==> c.written == |chunks|)
    ensures IsCall(crc, offset, c) && file' == FileAfterCall(crc, file, offset, c)
  {
    hide Chunks, Trailer, Align, StopsIn;
  }

  lemma NoCalls(crc: Crc, file: Bytes, offset: nat)
    ensures AreCalls(crc, offset, []) && FileAfter(crc, file, offset, []) == file && OffsetAfter(offset, []) == offset
  {
  }

  /** Every acknowledged record is among those that are wholly in the file. */
  lemma {:induction false} AcknowledgedIsThere(crc: Crc, offset: nat, calls: seq<Call>, i: nat)
    requires AreCalls(crc, offset, calls) && i < |calls| && calls[i].ok
    ensures calls[i].slice in RecordsOf(crc, offset, calls)
    decreases |calls|
  {
    if i > 0 {
      AcknowledgedIsThere(crc, OffsetAfterCall(offset, calls[0]), calls[1..], i - 1);
    }
  }

  /** Only the offset in the block matters to a call. */
  lemma SameCall(crc: Crc, a: nat, b: nat, c: Call, file: Bytes)
    requires a % BLOCK_SIZE == b % BLOCK_SIZE && IsCall(crc, a, c)
    ensures IsCall(crc, b, c) && FileAfterCall(crc, file, a, c) == FileAfterCall(crc, file, b, c)
    ensures OffsetAfterCall(a, c) == OffsetAfterCall(b, c)
  {
    hide Emit, NextChunk, Header, EndOf;
    SameBlockOffset(c.slice, a, b, true);
    AlignIsStart(c.slice, a, true);
    AlignIsStart(c.slice, b, true);
    SameResidue(a, b, |Trailer(a)|);
    EmitByOffsetInBlock(crc, c.slice, Align(a), Align(b), true);
    SameResidue(Align(a), Align(b), c.believed);
    StopsInByOffset(Align(a), Align(b), |Chunks(crc, c.slice, a, true)|, c.written, c.believed);
  }

  lemma StopsInByOffset(a: nat, b: nat, total: nat, written: nat, believed: nat)
    requires a % BLOCK_SIZE == b % BLOCK_SIZE && StopsIn(a, total, written, believed)
    ensures StopsIn(b, total, written, believed)
  {
    SameResidue(a, b, written);
    SameResidue(a, b, believed);
    var x, y := a + written, b + written;
    assert x == x / BLOCK_SIZE * BLOCK_SIZE + x % BLOCK_SIZE && y == y / BLOCK_SIZE * BLOCK_SIZE + y % BLOCK_SIZE;
    assert BlockEnd(x) - x == BlockEnd(y) - y;
  }

  lemma ReadsPrefix(crc: Crc, prefix: Bytes, records: seq<Bytes>, p: Partial, file: Bytes)
    requires ReadsTo(crc, prefix, records, p) && prefix <= file
    ensures records <= Replay(crc, file, 0, false, []).records
    ensures prefix == file ==> records == Replay(crc, file, 0, false, []).records
  {
    assert file == prefix + file[|prefix|..];
    assert RecordsFrom(crc, prefix + file[|prefix|..], 0, NOTHING)
        == records + RecordsFrom(crc, prefix + file[|prefix|..], |prefix|, p);
    if prefix == file {
      NothingAtEnd(crc, file, p);
    }
    hide Replay;
  }
}
