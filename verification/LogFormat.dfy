/** The physical layout of a log: how records are cut into chunks and placed into 32 KiB blocks. */
module LogFormat {
  import opened History
  import opened Coding

  const BLOCK_SIZE: nat := 32768
  const HEADER_SIZE: nat := 7

  datatype RecordType = Full | First | Middle | Last

  function TypeCode(t: RecordType): Byte {
    match t
    case Full => 1
    case First => 2
    case Middle => 3
    case Last => 4
  }

  function TypeFor(begin: bool, end: bool): RecordType {
    if begin && end then Full else if begin then First else if end then Last else Middle
  }

  function BlockEnd(off: nat): nat {
    (off / BLOCK_SIZE + 1) * BLOCK_SIZE
  }

  /** Fewer than a header's worth of bytes at the end of a block are a trailer. */
  function Align(off: nat): (r: nat)
    ensures off <= r
    ensures r % BLOCK_SIZE + HEADER_SIZE <= BLOCK_SIZE
    ensures r == off || (r == BlockEnd(off) && r - off < HEADER_SIZE)
  {
    if BlockEnd(off) - off < HEADER_SIZE then BlockEnd(off) else off
  }

  function Available(off: nat): nat {
    BlockEnd(Align(off)) - Align(off) - HEADER_SIZE
  }

  function FragmentLength(left: nat, off: nat): nat {
    if left < Available(off) then left else Available(off)
  }

  /** A fragment with its header, at its absolute place in the file. */
  datatype Chunk = Chunk(off: nat, kind: RecordType, data: Bytes)

  function ChunkEnd(c: Chunk): nat {
    c.off + HEADER_SIZE + |c.data|
  }

  predicate WellPlaced(c: Chunk) {
    ChunkEnd(c) <= BlockEnd(c.off)
  }

  function Header(crc: Crc, kind: RecordType, data: Bytes): (h: Bytes)
    requires |data| <= 0xffff
    ensures |h| == HEADER_SIZE
  {
    EncodeFixed(Mask(crc([TypeCode(kind)] + data)), 4) + [|data| % 256, |data| / 256, TypeCode(kind)]
  }

  /** Whether the file has these bytes at this place. */
  ghost predicate At(file: Bytes, off: nat, bytes: Bytes) {
    off + |bytes| <= |file| && file[off..off + |bytes|] == bytes
  }

  lemma AtParts(file: Bytes, off: nat, x: Bytes, y: Bytes)
    requires At(file, off, x + y)
    ensures At(file, off, x) && At(file, off + |x|, y)
  {
    forall i | 0 <= i < |x| ensures file[off + i] == x[i] {
      assert file[off..off + |x + y|][i] == (x + y)[i];
    }
    forall i | 0 <= i < |y| ensures file[off + |x| + i] == y[i] {
      assert file[off..off + |x + y|][|x| + i] == (x + y)[|x| + i];
    }
  }

  /** Whether the file carries a chunk intact. */
  ghost predicate Holds(crc: Crc, file: Bytes, c: Chunk)
    requires |c.data| <= 0xffff
  {
    At(file, c.off, Header(crc, c.kind, c.data) + c.data)
  }

  /** The next chunk written for `data` when the file is `off` bytes long. */
  function NextChunk(data: Bytes, off: nat, begin: bool): (c: Chunk)
    ensures WellPlaced(c) && |c.data| <= 0xffff && c.off == Align(off)
    ensures c.data <= data && |c.data| == FragmentLength(|data|, off)
    ensures |data| > 0 && c.data == [] ==> ChunkEnd(c) % BLOCK_SIZE == 0 && off % BLOCK_SIZE != 0
  {
    var n := FragmentLength(|data|, off);
    Chunk(Align(off), TypeFor(begin, n == |data|), data[..n])
  }

  /** The same placement in terms of the offset within the block. */
  lemma ChunkInBlock(data: Bytes, off: nat, begin: bool)
    ensures var c := NextChunk(data, off, begin);
            var offset := c.off % BLOCK_SIZE;
            && BLOCK_SIZE - offset - HEADER_SIZE == Available(off)
            && offset + HEADER_SIZE + |c.data| <= BLOCK_SIZE
            && (offset + HEADER_SIZE + |c.data|) % BLOCK_SIZE == ChunkEnd(c) % BLOCK_SIZE
  {
    var c := NextChunk(data, off, begin);
    assert c.off == c.off / BLOCK_SIZE * BLOCK_SIZE + c.off % BLOCK_SIZE;
  }

  /** The length of the file once the rest of one record has been written. */
  function EndOf(data: Bytes, off: nat): (end: nat)
    ensures end >= ChunkEnd(NextChunk(data, off, true)) > off
    decreases |data|, if off % BLOCK_SIZE == 0 then 0 else 1
  {
    var c := NextChunk(data, off, true);
    if |c.data| == |data| then ChunkEnd(c) else EndOf(data[|c.data|..], ChunkEnd(c))
  }

  function Zeros(n: nat): (z: Bytes)
    ensures |z| == n
  {
    seq(n, _ => 0)
  }

  /** The bytes that writing the rest of one record appends. */
  function Emit(crc: Crc, data: Bytes, off: nat, begin: bool): Bytes
    decreases |data|, if off % BLOCK_SIZE == 0 then 0 else 1
  {
    var c := NextChunk(data, off, begin);
    var written := Zeros(c.off - off) + Header(crc, c.kind, c.data) + c.data;
    if |c.data| == |data| then written
    else written + Emit(crc, data[|c.data|..], ChunkEnd(c), false)
  }

  function EmitAll(crc: Crc, records: seq<Bytes>, off: nat): Bytes {
    if records == [] then []
    else Emit(crc, records[0], off, true) + EmitAll(crc, records[1..], EndOf(records[0], off))
  }

  function EndOfAll(records: seq<Bytes>, off: nat): nat {
    if records == [] then off else EndOfAll(records[1..], EndOf(records[0], off))
  }

  /** Whether the file carries every chunk of the rest of one record intact. */
  ghost predicate RecordHeld(crc: Crc, file: Bytes, data: Bytes, off: nat, begin: bool)
    decreases |data|, if off % BLOCK_SIZE == 0 then 0 else 1
  {
    var c := NextChunk(data, off, begin);
    Holds(crc, file, c) && (|c.data| < |data| ==> RecordHeld(crc, file, data[|c.data|..], ChunkEnd(c), false))
  }

  ghost predicate LogHeld(crc: Crc, file: Bytes, records: seq<Bytes>, off: nat) {
    records != [] ==> RecordHeld(crc, file, records[0], off, true) && LogHeld(crc, file, records[1..], EndOf(records[0], off))
  }

  lemma {:induction false} EmitLength(crc: Crc, data: Bytes, off: nat, begin: bool)
    ensures off + |Emit(crc, data, off, begin)| == EndOf(data, off)
    decreases |data|, if off % BLOCK_SIZE == 0 then 0 else 1
  {
    hide Header, Align, FragmentLength, BlockEnd;
    var c := NextChunk(data, off, begin);
    if |c.data| < |data| {
      EmitLength(crc, data[|c.data|..], ChunkEnd(c), false);
    }
  }

  /** Padding, chunk, and whatever follows. */
  function EmitRest(crc: Crc, data: Bytes, off: nat, begin: bool): Bytes {
    var c := NextChunk(data, off, begin);
    if |c.data| == |data| then [] else Emit(crc, data[|c.data|..], ChunkEnd(c), false)
  }

  lemma EmitParts(crc: Crc, data: Bytes, off: nat, begin: bool)
    ensures var c := NextChunk(data, off, begin);
            Emit(crc, data, off, begin)
              == Zeros(c.off - off) + ((Header(crc, c.kind, c.data) + c.data) + EmitRest(crc, data, off, begin))
  {
  }

  /** A file that continues with the emitted bytes at `off` holds every chunk of the record. */
  lemma {:induction false} EmittedRecordHeld(crc: Crc, data: Bytes, off: nat, begin: bool, file: Bytes)
    requires At(file, off, Emit(crc, data, off, begin))
    ensures RecordHeld(crc, file, data, off, begin)
    decreases |data|, if off % BLOCK_SIZE == 0 then 0 else 1
  {
    hide Emit, NextChunk, Header, At;
    var c := NextChunk(data, off, begin);
    var pad, chunk, rest := Zeros(c.off - off), Header(crc, c.kind, c.data) + c.data, EmitRest(crc, data, off, begin);
    EmitParts(crc, data, off, begin);
    AtParts(file, off, pad, chunk + rest);
    AtParts(file, c.off, chunk, rest);
    if |c.data| < |data| {
      EmittedRecordHeld(crc, data[|c.data|..], ChunkEnd(c), false, file);
    }
  }

  lemma {:induction false} EmitAllLength(crc: Crc, records: seq<Bytes>, off: nat)
    ensures off + |EmitAll(crc, records, off)| == EndOfAll(records, off)
  {
    if records != [] {
      EmitLength(crc, records[0], off, true);
      EmitAllLength(crc, records[1..], EndOf(records[0], off));
    }
  }

  lemma {:induction false} EmittedLogHeld(crc: Crc, records: seq<Bytes>, off: nat, file: Bytes)
    requires At(file, off, EmitAll(crc, records, off))
    ensures LogHeld(crc, file, records, off)
  {
    if records != [] {
      var end := EndOf(records[0], off);
      EmitLength(crc, records[0], off, true);
      AtParts(file, off, Emit(crc, records[0], off, true), EmitAll(crc, records[1..], end));
      EmittedRecordHeld(crc, records[0], off, true, file);
      EmittedLogHeld(crc, records[1..], end, file);
    }
  }

  /** Appending to a complete log is the same as writing one longer log. */
  lemma {:induction false} LogsConcatenate(crc: Crc, r1: seq<Bytes>, r2: seq<Bytes>, off: nat)
    ensures EmitAll(crc, r1 + r2, off) == EmitAll(crc, r1, off) + EmitAll(crc, r2, EndOfAll(r1, off))
  {
    if r1 == [] {
      assert r1 + r2 == r2;
    } else {
      assert (r1 + r2)[0] == r1[0] && (r1 + r2)[1..] == r1[1..] + r2;
      LogsConcatenate(crc, r1[1..], r2, EndOf(r1[0], off));
    }
  }
}
