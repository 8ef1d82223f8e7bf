/** WriteBatch: a batch of updates as one string, and its replay into a memtable. */
module WriteBatches {
  import opened History
  import opened Coding
  import opened MemTables

  const HEADER: nat := 12

  datatype Op = Put(key: Bytes, value: Bytes) | Delete(key: Bytes)

  /** Keys and values fit the 32-bit length that goes in front of them. */
  predicate SmallOp(op: Op) {
    |op.key| < TWO_32 && (op.Put? ==> |op.value| < TWO_32)
  }

  function OpBytes(op: Op): Bytes {
    match op
    case Put(key, value) => [TYPE_VALUE] + (PutLengthPrefixedSlice(key) + PutLengthPrefixedSlice(value))
    case Delete(key) => [TYPE_DELETION] + PutLengthPrefixedSlice(key)
  }

  function OpsBytes(ops: seq<Op>): Bytes {
    if ops == [] then [] else OpBytes(ops[0]) + OpsBytes(ops[1..])
  }

  /** The value a 32-bit count field takes. */
  function Wrap(n: int): Word32 {
    n % TWO_32
  }

  /** The contents of a batch that holds `ops` and is to be applied from `sequence` on. */
  function Layout(sequence: Word64, ops: seq<Op>): Bytes {
    EncodeFixed(sequence, 8) + EncodeFixed(Wrap(|ops|), 4) + OpsBytes(ops)
  }

  /** What the handler of Iterate is given, and whether the records parse to the end. */
  datatype Replay = Replay(ops: seq<Op>, complete: bool)

  function ParseOp(bs: Bytes): (r: Parsed<Op>)
    requires bs != []
    ensures r.Got? ==> |r.rest| < |bs|
  {
    if bs[0] == TYPE_VALUE then
      match GetLengthPrefixedSlice(bs[1..])
      case Got(key, rest) =>
        (match GetLengthPrefixedSlice(rest)
         case Got(value, rest') => Got(Put(key, value), rest')
         case Bad => Bad)
      case Bad => Bad
    else if bs[0] == TYPE_DELETION then
      match GetLengthPrefixedSlice(bs[1..])
      case Got(key, rest) => Got(Delete(key), rest)
      case Bad => Bad
    else Bad
  }

  function ParseOps(bs: Bytes): Replay
    decreases |bs|
  {
    if bs == [] then Replay([], true)
    else match ParseOp(bs)
      case Got(op, rest) => var more := ParseOps(rest); Replay([op] + more.ops, more.complete)
      case Bad => Replay([], false)
  }

  /** DecodeFixed32 of the count field, read as a signed int. */
  function CountOf(rep: Bytes): (n: int)
    requires |rep| >= HEADER
    ensures -0x8000_0000 <= n < 0x8000_0000
  {
    var n := DecodeFixed(rep[8..12]) % TWO_32;
    if n < 0x8000_0000 then n else n - TWO_32
  }

  function SequenceOf(rep: Bytes): Word64
    requires |rep| >= HEADER
  {
    DecodeFixed(rep[..8]) % TWO_64
  }

  class WriteBatch {
    var rep: Bytes

    constructor ()
      ensures rep == Layout(0, [])
    {
      rep := EncodeFixed(0, 8) + EncodeFixed(0, 4);
    }

    method Clear()
      modifies this
      ensures rep == Layout(0, [])
    {
      rep := EncodeFixed(0, 8) + EncodeFixed(0, 4);
    }

    method SetContents(contents: Bytes)
      requires |contents| >= HEADER
      modifies this
      ensures rep == contents
    {
      rep := contents;
    }

    method SetSequence(sequence: Word64)
      requires |rep| >= HEADER
      modifies this
      ensures forall s: Word64, ops: seq<Op> {:trigger Layout(s, ops)} :: old(rep) == Layout(s, ops) ==> rep == Layout(sequence, ops)
    {
      rep := EncodeFixed(sequence, 8) + rep[8..];
    }

    /** Put and Delete: count one more, then append the record. */
    method Add(op: Op)
      requires |rep| >= HEADER
      modifies this
      ensures |rep| >= HEADER
      ensures forall s: Word64, ops: seq<Op> {:trigger Layout(s, ops)} :: old(rep) == Layout(s, ops) ==> rep == Layout(s, ops + [op])
    {
      hide EncodeFixed, Layout, CountOf, OpsBytes, OpBytes, Wrap, Grown, PutLengthPrefixedSlice;
      ghost var before := rep;
      rep := rep[..8] + EncodeFixed(Wrap(CountOf(rep) + 1), 4) + rep[12..];
      RecordAppended(rep, op);
      OneMoreRecord(before, op);
      match op {
        case Put(key, value) =>
          rep := rep + [TYPE_VALUE];
          rep := rep + PutLengthPrefixedSlice(key);
          rep := rep + PutLengthPrefixedSlice(value);
        case Delete(key) =>
          rep := rep + [TYPE_DELETION];
          rep := rep + PutLengthPrefixedSlice(key);
      }
    }

    /** Append the updates of another batch. */
    method Append(source: WriteBatch)
      requires |rep| >= HEADER && |source.rep| >= HEADER
      modifies this
      ensures |rep| >= HEADER
      ensures forall s: Word64, s': Word64, ops: seq<Op>, more: seq<Op> {:trigger Layout(s, ops), Layout(s', more)} ::
                old(rep) == Layout(s, ops) && old(source.rep) == Layout(s', more) ==> rep == Layout(s, ops + more)
    {
      hide EncodeFixed, Layout, CountOf, Wrap, Grown;
      ghost var before, other := rep, source.rep;
      var tail := source.rep[HEADER..];
      rep := rep[..8] + EncodeFixed(Wrap(CountOf(rep) + CountOf(source.rep)), 4) + rep[12..] + tail;
      GrownInPlace(before, CountOf(other), tail);
      forall s: Word64, s': Word64, ops: seq<Op>, more: seq<Op> | before == Layout(s, ops) && other == Layout(s', more)
        ensures rep == Layout(s, ops + more)
      {
        BatchesJoin(s, ops, s', more);
      }
    }

    /** Replays the updates in order; succeeds if all of the contents parse and the count is right. */
    method Iterate() returns (ok: bool, ops: seq<Op>)
      ensures |rep| < HEADER ==> !ok && ops == []
      ensures |rep| >= HEADER ==>
                var r := ParseOps(rep[HEADER..]);
                ops == r.ops && (ok <==> r.complete && |ops| == CountOf(rep))
    {
      ops := [];
      if |rep| < HEADER {
        return false, [];
      }
      var input := rep[HEADER..];
      while input != []
        invariant var r, more := ParseOps(rep[HEADER..]), ParseOps(input);
                  r.ops == ops + more.ops && r.complete == more.complete
        decreases |input|
      {
        var next := ParseOp(input);
        if next.Bad? {
          return false, ops;
        }
        input := next.rest;
        ops := ops + [next.value];
      }
      ok := |ops| == CountOf(rep);
    }

    /** The memtable receives the updates with consecutive sequence numbers. */
    method InsertInto(mem: MemTable) returns (ok: bool)
      requires |rep| >= HEADER && mem.Valid()
      requires CanInsert(mem.rank, mem.Contents(), SequenceOf(rep), ParseOps(rep[HEADER..]).ops)
      modifies mem, mem.table
      ensures mem.Valid()
      ensures var r := ParseOps(rep[HEADER..]);
              && mem.Contents() == old(mem.Contents()) + EntriesOf(mem.rank, SequenceOf(rep), r.ops)
              && (ok <==> r.complete && |r.ops| == CountOf(rep))
    {
      hide SequenceOf, ParseOps, CountOf, EntriesOf, CanInsert;
      var ops;
      ok, ops := Iterate();
      InsertOps(mem, SequenceOf(rep), ops);
    }
  }

  /** The numbers are in range, the lengths fit the entry format, and the memtable has none of the entries' keys. */
  ghost predicate CanInsert(rank: Bytes -> UserKey, present: set<Entry>, first: nat, ops: seq<Op>) {
    && first + |ops| <= MAX_SEQUENCE + 1
    && (forall op :: op in ops ==> Fits(op.key, ValueOf(op)))
    && forall e, i: nat :: e in present && i < |ops| ==> !SameKey(e, EntryFor(rank, first + i, ops[i]))
  }

  ghost predicate SameKey(a: Entry, b: Entry) {
    a.key == b.key && a.sequence == b.sequence && a.kind == b.kind
  }

  /** The handler of InsertInto, called for each update in turn. */
  method InsertOps(mem: MemTable, first: nat, ops: seq<Op>)
    requires mem.Valid() && CanInsert(mem.rank, mem.Contents(), first, ops)
    modifies mem, mem.table
    ensures mem.Valid() && mem.Contents() == old(mem.Contents()) + EntriesOf(mem.rank, first, ops)
  {
    ghost var base := mem.Contents();
    var sequence, i := first, 0;
    NoEntries(mem.rank, first);
    assert ops[..0] == [];
    while i < |ops|
      invariant i <= |ops| && sequence == first + i && mem.Valid()
      invariant mem.Contents() == base + EntriesOf(mem.rank, first, ops[..i])
    {
      CanInsertNext(mem.rank, base, first, ops, i);
      hide EntriesOf, CanInsert;
      var op := ops[i];
      mem.Add(sequence, KindOf(op), op.key, ValueOf(op));
      sequence := sequence + 1;
      i := i + 1;
    }
    assert ops[..i] == ops;
  }

  lemma CanInsertNext(rank: Bytes -> UserKey, base: set<Entry>, first: nat, ops: seq<Op>, i: nat)
    requires i < |ops| && CanInsert(rank, base, first, ops)
    ensures Fits(ops[i].key, ValueOf(ops[i])) && first + i <= MAX_SEQUENCE
    ensures forall e :: e in base + EntriesOf(rank, first, ops[..i]) ==> !SameKey(e, EntryFor(rank, first + i, ops[i]))
    ensures base + EntriesOf(rank, first, ops[..i]) + {EntryFor(rank, first + i, ops[i])} == base + EntriesOf(rank, first, ops[..i + 1])
  {
    EntriesGrow(rank, first, ops, i);
    assert ops[i] in ops;
    var added := EntriesOf(rank, first, ops[..i]);
    assert forall e :: e in added ==> e.sequence < first + i;
    hide EntriesOf;
  }

  function KindOf(op: Op): Byte {
    if op.Put? then TYPE_VALUE else TYPE_DELETION
  }

  function ValueOf(op: Op): Bytes {
    if op.Put? then op.value else []
  }

  function EntryFor(rank: Bytes -> UserKey, sequence: SequenceNumber, op: Op): Entry {
    Entry(rank(op.key), sequence, KindOf(op), ValueOf(op))
  }

  /** The entries a batch stands for: one sequence number per update. */
  ghost function EntriesOf(rank: Bytes -> UserKey, first: nat, ops: seq<Op>): set<Entry>
    requires first + |ops| <= MAX_SEQUENCE + 1
  {
    set i | 0 <= i < |ops| :: Entry(rank(ops[i].key), first + i, KindOf(ops[i]), ValueOf(ops[i]))
  }

  lemma EntriesGrow(rank: Bytes -> UserKey, first: nat, ops: seq<Op>, i: nat)
    requires i < |ops| && first + |ops| <= MAX_SEQUENCE + 1
    ensures EntriesOf(rank, first, ops[..i + 1])
         == EntriesOf(rank, first, ops[..i]) + {Entry(rank(ops[i].key), first + i, KindOf(ops[i]), ValueOf(ops[i]))}
  {
    forall j | 0 <= j <= i ensures ops[..i + 1][j] == ops[j] && (j < i ==> ops[..i][j] == ops[j]) {
    }
    assert EntriesOf(rank, first, ops[..i]) <= EntriesOf(rank, first, ops[..i + 1]) by {
      forall e | e in EntriesOf(rank, first, ops[..i]) ensures e in EntriesOf(rank, first, ops[..i + 1]) {
        var j :| 0 <= j < i && e == Entry(rank(ops[..i][j].key), first + j, KindOf(ops[..i][j]), ValueOf(ops[..i][j]));
        assert ops[..i + 1][j] == ops[..i][j];
      }
    }
    assert ops[..i + 1][i] == ops[i];
    forall e | e in EntriesOf(rank, first, ops[..i + 1])
      ensures e in EntriesOf(rank, first, ops[..i]) || e == Entry(rank(ops[i].key), first + i, KindOf(ops[i]), ValueOf(ops[i]))
    {
      var j :| 0 <= j < i + 1 && e == Entry(rank(ops[..i + 1][j].key), first + j, KindOf(ops[..i + 1][j]), ValueOf(ops[..i + 1][j]));
      if j < i {
        assert ops[..i][j] == ops[j];
      }
    }
  }

  lemma NoEntries(rank: Bytes -> UserKey, first: nat)
    requires first <= MAX_SEQUENCE + 1
    ensures EntriesOf(rank, first, []) == {}
  {
  }

  lemma OneOp(op: Op)
    ensures OpsBytes([op]) == OpBytes(op)
  {
    assert OpsBytes([op][1..]) == [];
  }

  /** Counting `n` more records and appending their bytes. */
  function Grown(rep: Bytes, n: int, records: Bytes): Bytes
    requires |rep| >= HEADER
  {
    rep[..8] + EncodeFixed(Wrap(CountOf(rep) + n), 4) + (rep[12..] + records)
  }

  lemma GrownInPlace(rep: Bytes, n: int, records: Bytes)
    requires |rep| >= HEADER
    ensures rep[..8] + EncodeFixed(Wrap(CountOf(rep) + n), 4) + rep[12..] + records == Grown(rep, n, records)
    ensures |Grown(rep, n, records)| >= HEADER
  {
    hide EncodeFixed, Wrap, CountOf;
  }

  lemma BatchesJoin(s: Word64, ops: seq<Op>, s': Word64, more: seq<Op>)
    ensures |Layout(s, ops)| >= HEADER && |Layout(s', more)| >= HEADER
    ensures Grown(Layout(s, ops), CountOf(Layout(s', more)), Layout(s', more)[HEADER..]) == Layout(s, ops + more)
  {
    hide EncodeFixed, Layout, CountOf, Wrap, OpsBytes;
    LayoutGrows(s, ops, more);
    LayoutParts(s', more);
    WrapAdd(CountOf(Layout(s', more)), |more|, CountOf(Layout(s, ops)));
  }

  lemma RecordAppended(head: Bytes, op: Op)
    ensures match op
            case Put(key, value) =>
              head + [TYPE_VALUE] + PutLengthPrefixedSlice(key) + PutLengthPrefixedSlice(value) == head + OpBytes(op)
            case Delete(key) =>
              head + [TYPE_DELETION] + PutLengthPrefixedSlice(key) == head + OpBytes(op)
  {
    hide PutLengthPrefixedSlice;
  }

  lemma OneMoreRecord(rep: Bytes, op: Op)
    requires |rep| >= HEADER
    ensures var after := rep[..8] + EncodeFixed(Wrap(CountOf(rep) + 1), 4) + rep[12..] + OpBytes(op);
            && |after| >= HEADER
            && forall s: Word64, ops: seq<Op> {:trigger Layout(s, ops)} :: rep == Layout(s, ops) ==> after == Layout(s, ops + [op])
  {
    hide EncodeFixed, Layout, CountOf, OpsBytes, OpBytes, Wrap;
    var after := rep[..8] + EncodeFixed(Wrap(CountOf(rep) + 1), 4) + rep[12..] + OpBytes(op);
    GrownInPlace(rep, 1, OpBytes(op));
    forall s: Word64, ops: seq<Op> | rep == Layout(s, ops) ensures after == Layout(s, ops + [op]) {
      LayoutGrows(s, ops, [op]);
      OneOp(op);
    }
  }

  lemma WrapAdd(a: int, b: int, n: int)
    requires Wrap(a) == Wrap(b)
    ensures Wrap(a + n) == Wrap(b + n) && Wrap(n + a) == Wrap(n + b)
  {
    assert a + n == (b + n) + (a / TWO_32 - b / TWO_32) * TWO_32;
  }

  lemma HeaderParts(a: Bytes, b: Bytes, c: Bytes)
    requires |a| == 8 && |b| == 4
    ensures var rep := a + b + c; |rep| >= HEADER && rep[..8] == a && rep[8..12] == b && rep[12..] == c
  {
  }

  lemma LayoutParts(s: Word64, ops: seq<Op>)
    ensures var rep := Layout(s, ops);
            && |rep| >= HEADER && rep[..8] == EncodeFixed(s, 8) && rep[8..12] == EncodeFixed(Wrap(|ops|), 4)
            && rep[12..] == OpsBytes(ops)
            && SequenceOf(rep) == s && Wrap(CountOf(rep)) == Wrap(|ops|)
  {
    hide EncodeFixed, DecodeFixed, OpsBytes, Pow256;
    HeaderParts(EncodeFixed(s, 8), EncodeFixed(Wrap(|ops|), 4), OpsBytes(ops));
    Pow256Values();
    FixedRoundTrip(s, 8);
    FixedRoundTrip(Wrap(|ops|), 4);
  }

  lemma LayoutGrows(s: Word64, ops: seq<Op>, more: seq<Op>)
    ensures |Layout(s, ops)| >= HEADER
    ensures Grown(Layout(s, ops), |more|, OpsBytes(more)) == Layout(s, ops + more)
  {
    hide EncodeFixed, DecodeFixed, OpsBytes, CountOf, SequenceOf, Wrap, Layout, Grown;
    LayoutParts(s, ops);
    OpsConcatenate(ops, more);
    var rep := Layout(s, ops);
    WrapAdd(CountOf(rep), |ops|, |more|);
    var w := Wrap(|ops + more|);
    assert |ops| + |more| == |ops + more|;
    assert Wrap(CountOf(rep) + |more|) == w;
    GrownIs(rep, |more|, OpsBytes(more), EncodeFixed(s, 8), w, OpsBytes(ops));
    LayoutIs(s, ops + more, w, OpsBytes(ops) + OpsBytes(more));
  }

  lemma GrownIs(rep: Bytes, n: int, records: Bytes, a: Bytes, w: Word32, c: Bytes)
    requires |rep| >= HEADER && rep[..8] == a && Wrap(CountOf(rep) + n) == w && rep[12..] == c
    ensures Grown(rep, n, records) == a + EncodeFixed(w, 4) + (c + records)
  {
    hide EncodeFixed, CountOf, Wrap;
  }

  lemma LayoutIs(s: Word64, ops: seq<Op>, w: Word32, records: Bytes)
    requires Wrap(|ops|) == w && OpsBytes(ops) == records
    ensures Layout(s, ops) == EncodeFixed(s, 8) + EncodeFixed(w, 4) + records
  {
    hide EncodeFixed, OpsBytes, Wrap;
  }

  lemma {:induction false} OpsConcatenate(a: seq<Op>, b: seq<Op>)
    ensures OpsBytes(a + b) == OpsBytes(a) + OpsBytes(b)
  {
    if a == [] {
      assert a + b == b;
    } else {
      assert (a + b)[0] == a[0] && (a + b)[1..] == a[1..] + b;
      OpsConcatenate(a[1..], b);
    }
  }

  lemma ParseOpBytes(op: Op, rest: Bytes)
    requires SmallOp(op)
    ensures OpBytes(op) + rest != [] && ParseOp(OpBytes(op) + rest) == Got(op, rest)
  {
    match op
    case Put(key, value) =>
      var k, v := PutLengthPrefixedSlice(key), PutLengthPrefixedSlice(value);
      assert (OpBytes(op) + rest)[1..] == k + (v + rest);
      LengthPrefixedRoundTrip(key, v + rest);
      LengthPrefixedRoundTrip(value, rest);
    case Delete(key) =>
      assert (OpBytes(op) + rest)[1..] == PutLengthPrefixedSlice(key) + rest;
      LengthPrefixedRoundTrip(key, rest);
  }

  lemma {:induction false} ParseOpsBytes(ops: seq<Op>)
    requires forall i :: 0 <= i < |ops| ==> SmallOp(ops[i])
    ensures ParseOps(OpsBytes(ops)) == Replay(ops, true)
  {
    if ops != [] {
      ParseOpBytes(ops[0], OpsBytes(ops[1..]));
      ParseOpsBytes(ops[1..]);
    }
  }

  /** A batch built by any sequence of updates replays exactly those updates, in order, under consecutive
      sequence numbers; it is accepted exactly when their number fits the signed count field. */
  lemma BatchRoundTrip(sequence: Word64, ops: seq<Op>)
    requires forall i :: 0 <= i < |ops| ==> SmallOp(ops[i])
    ensures var rep := Layout(sequence, ops);
            && |rep| >= HEADER && SequenceOf(rep) == sequence
            && ParseOps(rep[HEADER..]) == Replay(ops, true)
            && (CountOf(rep) == |ops| <==> |ops| < 0x8000_0000)
  {
    hide Layout, OpsBytes, ParseOps;
    LayoutParts(sequence, ops);
    ParseOpsBytes(ops);
    SignedCount(CountOf(Layout(sequence, ops)), |ops|);
  }

  lemma SignedCount(count: int, n: nat)
    requires -0x8000_0000 <= count < 0x8000_0000 && Wrap(count) == Wrap(n)
    ensures count == n <==> n < 0x8000_0000
  {
    if n < 0x8000_0000 {
      assert count % TWO_32 == if count < 0 then count + TWO_32 else count;
    }
  }
}
