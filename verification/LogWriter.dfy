/** log::Writer: appending records to a file. */
module LogWriter {
  import opened History
  import opened Coding
  import opened LogFormat

  /** Only the offset within the block decides what is written. */
  lemma {:induction false} EmitByOffsetInBlock(crc: Crc, data: Bytes, a: nat, b: nat, begin: bool)
    requires a % BLOCK_SIZE == b % BLOCK_SIZE
    ensures Emit(crc, data, a, begin) == Emit(crc, data, b, begin)
    decreases |data|, if a % BLOCK_SIZE == 0 then 0 else 1
  {
    hide Header, Zeros, Emit, NextChunk;
    SameBlockOffset(data, a, b, begin);
    EmitParts(crc, data, a, begin);
    EmitParts(crc, data, b, begin);
    var c, d := NextChunk(data, a, begin), NextChunk(data, b, begin);
    if |c.data| < |data| {
      EmitByOffsetInBlock(crc, data[|c.data|..], ChunkEnd(c), ChunkEnd(d), false);
    }
  }

  lemma SameBlockOffset(data: Bytes, a: nat, b: nat, begin: bool)
    requires a % BLOCK_SIZE == b % BLOCK_SIZE
    ensures var c, d := NextChunk(data, a, begin), NextChunk(data, b, begin);
            && c.off - a == d.off - b && c.kind == d.kind && c.data == d.data
            && ChunkEnd(c) % BLOCK_SIZE == ChunkEnd(d) % BLOCK_SIZE
  {
    assert a == a / BLOCK_SIZE * BLOCK_SIZE + a % BLOCK_SIZE;
    assert b == b / BLOCK_SIZE * BLOCK_SIZE + b % BLOCK_SIZE;
    assert BlockEnd(a) - a == BlockEnd(b) - b;
    var c, d := NextChunk(data, a, begin), NextChunk(data, b, begin);
    Congruent(c.off, d.off, c.off - a);
    assert BlockEnd(c.off) - c.off == BlockEnd(d.off) - d.off;
  }

  /** The offset in the block after one more chunk, whether or not it could be written. */
  function AfterChunk(c: Chunk): nat {
    c.off % BLOCK_SIZE + HEADER_SIZE + |c.data|
  }

  /** The zeros in front of the next chunk. */
  function Trailer(off: nat): (z: Bytes)
    ensures |z| < HEADER_SIZE && off + |z| == Align(off)
  {
    Zeros(Align(off) - off)
  }

  /** The chunks of a record for a writer at `off`, without the trailer in front of the first. */
  function Chunks(crc: Crc, data: Bytes, off: nat, begin: bool): Bytes {
    Emit(crc, data, Align(off), begin)
  }

  /** A writer that has to write `total` bytes of chunks from the aligned offset `off` stops with `written` of them in
      the file, and believes that it has written `believed`: the whole of the chunk at which it stopped. */
  predicate StopsIn(off: nat, total: nat, written: nat, believed: nat) {
    && written <= believed <= total
    && (believed == written || off + believed <= BlockEnd(off + written))
    && (believed == total || (off + believed) % BLOCK_SIZE == 0)
  }

  /** `x` is what a call leaves in the file of the bytes `all`: all of them, or, if it fails, any first part. */
  predicate TakenFrom(ok: bool, x: Bytes, all: Bytes) {
    x <= all && (ok ==> x == all)
  }

  lemma Congruent(a: nat, b: nat, n: int)
    requires n <= a && n <= b && (a - n) % BLOCK_SIZE == (b - n) % BLOCK_SIZE
    ensures a % BLOCK_SIZE == b % BLOCK_SIZE
  {
  }

  lemma SameResidue(a: nat, b: nat, n: nat)
    requires a % BLOCK_SIZE == b % BLOCK_SIZE
    ensures (a + n) % BLOCK_SIZE == (b + n) % BLOCK_SIZE
  {
    assert a == a / BLOCK_SIZE * BLOCK_SIZE + a % BLOCK_SIZE;
    assert b == b / BLOCK_SIZE * BLOCK_SIZE + b % BLOCK_SIZE;
    Congruent(a + n, b + n, n);
  }

  /** A chunk that does not end its record fills its block. */
  lemma ChunkFillsBlock(data: Bytes, off: nat, begin: bool)
    ensures var c := NextChunk(data, off, begin);
            && c.off == Align(off)
            && AfterChunk(c) <= BLOCK_SIZE && AfterChunk(c) % BLOCK_SIZE == ChunkEnd(c) % BLOCK_SIZE
            && (|c.data| < |data| ==> AfterChunk(c) == BLOCK_SIZE && ChunkEnd(c) % BLOCK_SIZE == 0)
  {
    ChunkInBlock(data, off, begin);
  }

  /** What is still to be written starts with the next chunk. */
  lemma ChunksParts(crc: Crc, data: Bytes, off: nat, begin: bool)
    ensures var c := NextChunk(data, off, begin);
            var chunk := Header(crc, c.kind, c.data) + c.data;
            && |chunk| == HEADER_SIZE + |c.data|
            && Chunks(crc, data, off, begin)
               == chunk + if |c.data| == |data| then [] else Chunks(crc, data[|c.data|..], AfterChunk(c), false)
  {
    hide Emit, NextChunk, Header, EndOf;
    var c, d := NextChunk(data, off, begin), NextChunk(data, Align(off), begin);
    SameFromAlign(data, off, begin);
    EmitParts(crc, data, Align(off), begin);
    ChunkFillsBlock(data, off, begin);
    var chunk := Header(crc, c.kind, c.data) + c.data;
    assert Zeros(0) + (chunk + EmitRest(crc, data, Align(off), begin)) == chunk + EmitRest(crc, data, Align(off), begin);
    if |c.data| < |data| {
      EmitByOffsetInBlock(crc, data[|c.data|..], ChunkEnd(d), Align(AfterChunk(c)), false);
    }
  }

  lemma SameFromAlign(data: Bytes, off: nat, begin: bool)
    ensures NextChunk(data, Align(off), begin) == NextChunk(data, off, begin)
    ensures Align(Align(off)) == Align(off)
    ensures off % BLOCK_SIZE == 0 ==> Align(off) == off
    ensures Align(BLOCK_SIZE) == BLOCK_SIZE
  {
  }

  /** The turn of the loop that writes at `start + done`: how far it gets, and where it leaves the writer. */
  lemma Turn(crc: Crc, left: Bytes, off: nat, begin: bool, start: nat, chunks: Bytes, done: nat, w: nat)
    requires done <= |chunks| && chunks[done..] == Chunks(crc, left, off, begin)
    requires (start + done) % BLOCK_SIZE == Align(off) % BLOCK_SIZE
    requires w <= HEADER_SIZE + |NextChunk(left, off, begin).data|
    ensures var c := NextChunk(left, off, begin);
            var chunk := Header(crc, c.kind, c.data) + c.data;
            var end := done + |chunk|;
            && end <= |chunks| && chunks[done..end] == chunk
            && AfterChunk(c) % BLOCK_SIZE == (start + end) % BLOCK_SIZE
            && StopsIn(start, |chunks|, done + w, end)
            && (|c.data| == |left| ==> end == |chunks|)
            && (|c.data| < |left| ==>
                  && (start + end) % BLOCK_SIZE == 0 && AfterChunk(c) == BLOCK_SIZE
                  && chunks[end..] == Chunks(crc, left[|c.data|..], AfterChunk(c), false))
  {
    hide Emit, NextChunk, Header, Chunks, StopsIn, Align, BlockEnd;
    var c := NextChunk(left, off, begin);
    var chunk := Header(crc, c.kind, c.data) + c.data;
    var more := if |c.data| == |left| then [] else Chunks(crc, left[|c.data|..], AfterChunk(c), false);
    ChunksParts(crc, left, off, begin);
    ChunkFillsBlock(left, off, begin);
    Sliced(chunks, done, chunk, more);
    SameResidue(start + done, c.off, |chunk|);
    TurnStops(left, off, begin, start, done, |chunks|, w);
  }

  lemma TurnStops(left: Bytes, off: nat, begin: bool, start: nat, done: nat, total: nat, w: nat)
    requires var c := NextChunk(left, off, begin);
             var end := done + HEADER_SIZE + |c.data|;
             && (start + done) % BLOCK_SIZE == c.off % BLOCK_SIZE && w <= HEADER_SIZE + |c.data|
             && end <= total && (if |c.data| == |left| then end == total else (start + end) % BLOCK_SIZE == 0)
    ensures StopsIn(start, total, done + w, done + HEADER_SIZE + |NextChunk(left, off, begin).data|)
  {
    var c := NextChunk(left, off, begin);
    var x := start + done;
    hide NextChunk, Align;
    ChunkFillsBlock(left, off, begin);
    assert x == x / BLOCK_SIZE * BLOCK_SIZE + x % BLOCK_SIZE;
    if w < HEADER_SIZE + |c.data| {
      assert (x + w) / BLOCK_SIZE == x / BLOCK_SIZE;
    }
  }

  lemma Sliced(all: Bytes, done: nat, x: Bytes, more: Bytes)
    requires done <= |all| && all[done..] == x + more
    ensures done + |x| <= |all| && all[done..done + |x|] == x && all[done + |x|..] == more
  {
    assert all == all[..done] + (x + more);
  }

  /** The missing bytes decide. */
  lemma AlignmentDecided(size: nat, off: nat, off': nat, pad: nat, kept: nat, written: nat, believed: nat, size': nat)
    requires kept <= pad && written <= believed && size' == size + kept + written
    requires off' % BLOCK_SIZE == (off + pad + believed) % BLOCK_SIZE
    ensures off % BLOCK_SIZE == size % BLOCK_SIZE ==>
              (off' % BLOCK_SIZE == size' % BLOCK_SIZE <==> (pad - kept + (believed - written)) % BLOCK_SIZE == 0)
  {
    if off % BLOCK_SIZE == size % BLOCK_SIZE {
      SameResidue(off, size, pad + believed);
      var missing := pad - kept + (believed - written);
      assert size + pad + believed == size' + missing;
      if missing % BLOCK_SIZE == 0 {
        MultipleAdded(size', missing);
      } else if (size' + missing) % BLOCK_SIZE == size' % BLOCK_SIZE {
        MultipleAdded(size', missing);
      }
    }
  }

  lemma MultipleAdded(a: nat, n: nat)
    ensures n % BLOCK_SIZE == 0 <==> (a + n) % BLOCK_SIZE == a % BLOCK_SIZE
  {
  }

  /** One append after another is one append of both. */
  lemma TakenInTurn(before: Bytes, middle: Bytes, after: Bytes, x: Bytes, y: Bytes, ok: bool)
    requires middle == before + x && middle <= after && TakenFrom(ok, after[|middle|..], y)
    ensures before <= after && TakenFrom(ok, after[|before|..], x + y)
  {
    assert after == middle + after[|middle|..];
    assert after[|before|..] == x + after[|middle|..];
  }

  class Writer {
    const crc: Crc
    var dest: Bytes
    var blockOffset: nat

    ghost predicate Valid()
      reads this
    {
      blockOffset <= BLOCK_SIZE
    }

    /** The writer knows where in a block the file ends. */
    ghost predicate Aligned()
      reads this
    {
      blockOffset % BLOCK_SIZE == |dest| % BLOCK_SIZE
    }

    /** A writer for an empty file. */
    constructor (crc: Crc)
      ensures Valid() && Aligned() && blockOffset == 0 && dest == [] && this.crc == crc
    {
      this.crc := crc;
      dest, blockOffset := [], 0;
    }

    /** A writer that continues a file of known length. */
    constructor Reopen(crc: Crc, contents: Bytes)
      ensures Valid() && Aligned() && blockOffset == |contents| % BLOCK_SIZE
      ensures dest == contents && this.crc == crc
    {
      this.crc := crc;
      dest, blockOffset := contents, |contents| % BLOCK_SIZE;
    }

    /** WritableFile::Append.  Every call has its own outcome; a failing one may leave a part of the data behind. */
    method Append(data: Bytes) returns (ok: bool)
      modifies this`dest
      ensures old(dest) <= dest && TakenFrom(ok, dest[|old(dest)|..], data)
    {
      ok := *;
      var taken: nat :| taken <= |data|;
      dest := dest + if ok then data else data[..taken];
    }

    /** WritableFile::Flush: all bytes are in the file already, but the call may fail. */
    method Flush() returns (ok: bool)
    {
      ok := *;
    }

    /** The offset advances even when a call fails. */
    method EmitPhysicalRecord(kind: RecordType, data: Bytes) returns (ok: bool)
      requires blockOffset + HEADER_SIZE + |data| <= BLOCK_SIZE
      modifies this
      ensures blockOffset == old(blockOffset) + HEADER_SIZE + |data|
      ensures old(dest) <= dest && TakenFrom(ok, dest[|old(dest)|..], Header(crc, kind, data) + data)
    {
      hide Header;
      var header := Header(crc, kind, data);
      ghost var before := dest;
      ok := Append(header);
      if ok {
        ghost var middle := dest;
        ok := Append(data);
        TakenInTurn(before, middle, dest, header, data, ok);
        if ok {
          ok := Flush();
        }
      }
      blockOffset := blockOffset + HEADER_SIZE + |data|;
    }

    /** The trailer of a block that has no room for another header; the status of its append is dropped. */
    method SwitchBlock()
      requires Valid()
      modifies this
      ensures blockOffset + HEADER_SIZE <= BLOCK_SIZE && blockOffset == Align(old(blockOffset)) % BLOCK_SIZE
      ensures old(dest) <= dest && dest[|old(dest)|..] <= Trailer(old(blockOffset))
    {
      var leftover := BLOCK_SIZE - blockOffset;
      if leftover < HEADER_SIZE {
        if leftover > 0 {
          var _ := Append(Zeros(leftover));
        }
        blockOffset := 0;
      }
    }

    /** One turn of AddRecord's loop: pad if need be, then write the next fragment.  `kept` bytes of the trailer and
        `written` bytes of the chunk are in the file. */
    method EmitFragment(left: Bytes, begin: bool) returns (ok: bool, fragmentLength: nat, ghost kept: nat, ghost written: nat)
      requires Valid()
      modifies this
      ensures Valid() && blockOffset == AfterChunk(NextChunk(left, old(blockOffset), begin))
      ensures fragmentLength == |NextChunk(left, old(blockOffset), begin).data|
      ensures var c := NextChunk(left, old(blockOffset), begin);
              var pad, chunk := Trailer(old(blockOffset)), Header(crc, c.kind, c.data) + c.data;
              && kept <= |pad| && written <= |chunk| && (ok ==> written == |chunk|)
              && dest == old(dest) + pad[..kept] + chunk[..written]
    {
      hide Header;
      ghost var c := NextChunk(left, blockOffset, begin);
      ghost var before := dest;
      ChunkInBlock(left, blockOffset, begin);
      SwitchBlock();
      kept := |dest| - |before|;
      assert dest == before + Trailer(old(blockOffset))[..kept];
      ghost var middle := dest;
      var avail := BLOCK_SIZE - blockOffset - HEADER_SIZE;
      fragmentLength := if |left| < avail then |left| else avail;
      var end := |left| == fragmentLength;
      assert TypeFor(begin, end) == c.kind && left[..fragmentLength] == c.data;
      ok := EmitPhysicalRecord(TypeFor(begin, end), left[..fragmentLength]);
      written := |dest| - |middle|;
      assert dest == middle + (Header(crc, c.kind, c.data) + c.data)[..written];
    }

    /** The same turn, seen from the whole record: `chunks` holds the record's chunks, of which `done` bytes are written. */
    method WriteNext(left: Bytes, begin: bool, ghost start: nat, ghost chunks: Bytes, ghost done: nat)
      returns (ok: bool, rest: Bytes, ghost kept: nat, ghost written: nat, ghost believed: nat)
      requires Valid() && done <= |chunks| && chunks[done..] == Chunks(crc, left, blockOffset, begin)
      requires (start + done) % BLOCK_SIZE == Align(blockOffset) % BLOCK_SIZE
      modifies this
      ensures Valid() && kept <= |Trailer(old(blockOffset))|
      ensures done <= written <= believed <= |chunks| && StopsIn(start, |chunks|, written, believed)
      ensures dest == old(dest) + Trailer(old(blockOffset))[..kept] + chunks[done..written]
      ensures blockOffset % BLOCK_SIZE == (start + believed) % BLOCK_SIZE
      ensures ok ==> written == believed && (rest == [] ==> written == |chunks|)
      ensures ok && rest != [] ==>
                && blockOffset == BLOCK_SIZE && chunks[written..] == Chunks(crc, rest, blockOffset, false)
                && (|rest| < |left| || (|rest| == |left| && old(blockOffset) < BLOCK_SIZE))
    {
      hide Emit, NextChunk, StopsIn, Trailer, Chunks, Header, Align, BlockEnd;
      ghost var off := blockOffset;
      ghost var c := NextChunk(left, off, begin);
      var fragmentLength;
      ghost var w: nat;
      ok, fragmentLength, kept, w := EmitFragment(left, begin);
      Turn(crc, left, off, begin, start, chunks, done, w);
      Progress(left, off, begin);
      written, believed := done + w, done + HEADER_SIZE + |c.data|;
      SliceOfSlice(chunks, done, believed, 0, w);
      rest := left[fragmentLength..];
    }

    /** The record is laid out for the offset the writer believes in.  `kept` bytes of the trailer in front of it and
        `written` bytes of its chunks are in the file; the writer has counted the whole trailer and `believed` bytes.
        Nothing tells the caller that `kept` is too small. */
    method AddRecord(slice: Bytes) returns (ok: bool, ghost kept: nat, ghost written: nat, ghost believed: nat)
      requires Valid()
      modifies this
      ensures Valid()
      ensures var pad, chunks := Trailer(old(blockOffset)), Chunks(crc, slice, old(blockOffset), true);
              && kept <= |pad| && written <= |chunks|
              && dest == old(dest) + pad[..kept] + chunks[..written]
              && StopsIn(Align(old(blockOffset)), |chunks|, written, believed)
              && (ok ==> written == |chunks|)
              && blockOffset % BLOCK_SIZE == (Align(old(blockOffset)) + believed) % BLOCK_SIZE
              && believed >= written
              && (old(Aligned()) ==> (Aligned() <==> (|pad| - kept + (believed - written)) % BLOCK_SIZE == 0))
    {
      hide Emit, StopsIn, Trailer, Chunks, Align;
      ghost var before, off0, start := dest, blockOffset, Align(blockOffset);
      ghost var pad, chunks := Trailer(off0), Chunks(crc, slice, off0, true);
      ghost var done: nat := 0;              // bytes of complete chunks, all of them in the file
      NoTrailer();
      var left, begin := slice, true;
      kept, written, believed := 0, 0, 0;
      ok := true;
      while true
        invariant Valid() && done <= |chunks| && kept <= |pad|
        invariant begin ==> blockOffset == off0 && dest == before && done == 0
        invariant !begin ==> dest == before + pad[..kept] + chunks[..done] && blockOffset == BLOCK_SIZE
        invariant (start + done) % BLOCK_SIZE == Align(blockOffset) % BLOCK_SIZE
        invariant chunks[done..] == Chunks(crc, left, blockOffset, begin)
        decreases |left|, BLOCK_SIZE - blockOffset
      {
        ghost var k: nat;
        ok, left, k, written, believed := WriteNext(left, begin, start, chunks, done);
        if begin {
          kept := k;
        }
        assert chunks[..written] == chunks[..done] + chunks[done..written];
        done, begin := written, false;
        if !ok || left == [] {
          break;
        }
      }
      AlignmentDecided(|before|, off0, blockOffset, |pad|, kept, written, believed, |dest|);
    }
  }

  lemma Progress(data: Bytes, off: nat, begin: bool)
    requires off <= BLOCK_SIZE
    ensures var n := |NextChunk(data, off, begin).data|; n > 0 || data == [] || off < BLOCK_SIZE
  {
  }

  lemma NoTrailer()
    ensures Trailer(BLOCK_SIZE) == []
    ensures Align(BLOCK_SIZE) == BLOCK_SIZE
  {
  }
}
