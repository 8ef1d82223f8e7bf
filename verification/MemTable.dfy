/** The memtable (db/memtable.cc) and point lookups over all layers (DBImpl::Get). */
module MemTables {
  import opened History
  import opened Coding
  import opened InternalKeys
  import opened SkipLists

  /** What MemTable::Get reports: an answer, either way, or that the search must go on below. */
  datatype MemRead = Value(value: Bytes) | Deleted | NotHere

  ghost function MemLookup(h: set<Entry>, k: UserKey, s: nat): MemRead {
    if exists e :: IsNewest(h, k, s, e) then
      var e :| IsNewest(h, k, s, e);
      if e.kind == TYPE_VALUE then Value(e.value) else Deleted
    else
      NotHere
  }

  lemma LookupIsNewest(h: set<Entry>, k: UserKey, s: nat, e: Entry)
    requires IsNewest(h, k, s, e)
    ensures MemLookup(h, k, s) == if e.kind == TYPE_VALUE then Value(e.value) else Deleted
  {
    forall o | IsNewest(h, k, s, o) ensures o == e {
      assert o != e ==> Newer(e, o) && Newer(o, e);
    }
  }

  /** A memtable's answer decides the read; "not here" says that nothing at all is visible here. */
  lemma LookupDecidesRead(h: set<Entry>, k: UserKey, s: nat)
    requires DistinctTags(h)
    ensures MemLookup(h, k, s).Value? ==> Read(h, k, s) == Found(MemLookup(h, k, s).value)
    ensures !MemLookup(h, k, s).Value? ==> Read(h, k, s) == NotFound
    ensures MemLookup(h, k, s).NotHere? <==> forall e :: e in h ==> !Visible(e, k, s)
  {
    if w :| w in h && Visible(w, k, s) {
      var e := NewestExists(h, k, s, w);
      LookupIsNewest(h, k, s, e);
      ReadIsNewest(h, k, s, e);
    }
  }

  // ----- Entries in the arena -----

  /** klength, user key, tag, vlength, value. */
  function EntryBytes(key: Bytes, sequence: SequenceNumber, kind: Byte, value: Bytes): Bytes {
    PutLengthPrefixedSlice(InternalKey(key, sequence, kind)) + PutLengthPrefixedSlice(value)
  }

  predicate Fits(key: Bytes, value: Bytes) {
    |key| + 8 < TWO_32 && |value| < TWO_32
  }

  /** The buffer a skip list node points to when the node stands for `e`. */
  ghost predicate IsBuffer(rank: Bytes -> UserKey, e: Entry, buf: Bytes) {
    exists key: Bytes :: Fits(key, e.value) && rank(key) == e.key && buf == EntryBytes(key, e.sequence, e.kind, e.value)
  }

  /** MemTable::KeyComparator: both buffers start with a length-prefixed internal key. */
  function KeyComparator(rank: Bytes -> UserKey, a: Bytes, b: Bytes): int {
    match (GetLengthPrefixedSlice(a), GetLengthPrefixedSlice(b))
    case (Got(ka, _), Got(kb, _)) => if |ka| >= 8 && |kb| >= 8 then Compare(rank, ka, kb) else 0
    case _ => 0
  }

  /** The skip list order is what the comparator computes from the bytes, for entries and for
      lookup keys, which are buffers that end after the tag. */
  lemma ComparatorIsTheOrder(rank: Bytes -> UserKey, a: Entry, ka: Bytes, restA: Bytes, b: Entry, kb: Bytes, restB: Bytes)
    requires |ka| + 8 < TWO_32 && |kb| + 8 < TWO_32 && rank(ka) == a.key && rank(kb) == b.key
    ensures var bufA := PutLengthPrefixedSlice(InternalKey(ka, a.sequence, a.kind)) + restA;
            var bufB := PutLengthPrefixedSlice(InternalKey(kb, b.sequence, b.kind)) + restB;
            && (KeyComparator(rank, bufA, bufB) < 0 <==> Before(a, b))
            && (KeyComparator(rank, bufA, bufB) > 0 <==> Before(b, a))
  {
    var ia, ib := InternalKey(ka, a.sequence, a.kind), InternalKey(kb, b.sequence, b.kind);
    LengthPrefixedRoundTrip(ia, restA);
    LengthPrefixedRoundTrip(ib, restB);
    InternalKeyRoundTrip(ka, a.sequence, a.kind);
    InternalKeyRoundTrip(kb, b.sequence, b.kind);
    CompareIsTheOrder(rank, ia, ib, a.value, b.value);
  }

  /** What Get reads out of a buffer, piece by piece. */
  lemma BufferParts(key: Bytes, sequence: SequenceNumber, kind: Byte, value: Bytes)
    requires Fits(key, value)
    ensures var ikey := InternalKey(key, sequence, kind);
            && GetVarint32From(EntryBytes(key, sequence, kind, value), 0) == Got(|ikey|, ikey + PutLengthPrefixedSlice(value))
            && GetLengthPrefixedSlice(PutLengthPrefixedSlice(value)) == Got(value, [])
  {
    hide Varint, GetVarint32From, InternalKey;
    var ikey := InternalKey(key, sequence, kind);
    var tail := PutLengthPrefixedSlice(value);
    assert Room32(2) == 128 * 128 * 16 && Room32(0) == TWO_32;
    GetVarint32RoundTrip(|ikey|, 0, ikey + tail);
    assert EntryBytes(key, sequence, kind, value) == Varint(|ikey|) + (ikey + tail);
    LengthPrefixedRoundTrip(value, []);
    assert tail + [] == tail;
  }

  /** memcpy into the arena block at `p`. */
  method Copy(buf: array<Byte>, p: nat, src: Bytes) returns (q: nat)
    requires p + |src| <= buf.Length
    modifies buf
    ensures q == p + |src|
    ensures buf[..q] == old(buf[..p]) + src
  {
    for i := 0 to |src|
      invariant buf[..p] == old(buf[..p])
      invariant buf[p..p + i] == src[..i]
    {
      buf[p + i] := src[i];
    }
    q := p + |src|;
    assert buf[..q] == buf[..p] + buf[p..q];
    assert src[..|src|] == src;
  }

  lemma Assembled(a: Bytes, b: Bytes, c: Bytes, d: Bytes, e: Bytes)
    ensures [] + a + b + c + d + e == a + (b + c) + (d + e)
  {
  }

  /** The arena block of one entry, filled through a moving pointer. */
  method EncodeEntry(s: SequenceNumber, kind: Byte, key: Bytes, value: Bytes) returns (entry: Bytes)
    requires Fits(key, value)
    ensures entry == EntryBytes(key, s, kind, value)
  {
    hide EncodeFixed, Varint;
    var keySize := |key|;
    var valSize := |value|;
    var internalKeySize := keySize + 8;
    var encodedLen := |Varint(internalKeySize)| + internalKeySize + |Varint(valSize)| + valSize;
    var buf := new Byte[encodedLen](i => 0);
    var p := Copy(buf, 0, Varint(internalKeySize));
    p := Copy(buf, p, key);
    p := Copy(buf, p, EncodeFixed(PackSequenceAndType(s, kind), 8));
    p := Copy(buf, p, Varint(valSize));
    p := Copy(buf, p, value);
    assert p == encodedLen;
    Assembled(Varint(internalKeySize), key, EncodeFixed(PackSequenceAndType(s, kind), 8), Varint(valSize), value);
    entry := buf[..encodedLen];
  }

  class MemTable {
    const rank: Bytes -> UserKey
    const table: SkipList
    /** What the `const char*` held by a skip list node points to. */
    var arena: map<Entry, Bytes>

    ghost predicate Valid()
      reads this, table
    {
      && table.Valid()
      && arena.Keys == table.Contents()
      && forall e :: e in arena ==> e.kind <= TYPE_VALUE && IsBuffer(rank, e, arena[e])
    }

    ghost function Contents(): set<Entry>
      reads this, table
      requires Valid()
    {
      table.Contents()
    }

    constructor (rank: Bytes -> UserKey)
      ensures Valid() && Contents() == {} && this.rank == rank && fresh(table)
    {
      this.rank := rank;
      table := new SkipList();
      arena := map[];
    }

    method Add(s: SequenceNumber, kind: Byte, key: Bytes, value: Bytes)
      requires Valid() && kind <= TYPE_VALUE && Fits(key, value)
      requires forall e :: e in Contents() ==> !(e.key == rank(key) && e.sequence == s && e.kind == kind)
      modifies this, table
      ensures Valid() && Contents() == old(Contents()) + {Entry(rank(key), s, kind, value)}
    {
      var buf := EncodeEntry(s, kind, key, value);
      var e := Entry(rank(key), s, kind, value);
      table.Insert(e);
      arena := arena[e := buf];
    }

    /** The skip list is asked for the first entry at or after (key, s, largest type). */
    method Get(key: Bytes, s: SequenceNumber) returns (r: MemRead)
      requires Valid()
      ensures r == MemLookup(Contents(), rank(key), s)
    {
      var target := Entry(rank(key), s, TYPE_FOR_SEEK, []);
      var iter := new SkipListIterator(table);
      iter.Seek(target);
      r := NotHere;
      ghost var n := iter.node;
      CeilingDecides(Contents(), rank(key), s, n);
      if iter.node.Node? {
        var f := iter.node.entry;
        var buf := arena[f];
        ghost var stored: Bytes :| Fits(stored, f.value) && rank(stored) == f.key
                                   && buf == EntryBytes(stored, f.sequence, f.kind, f.value);
        BufferParts(stored, f.sequence, f.kind, f.value);
        InternalKeyRoundTrip(stored, f.sequence, f.kind);
        ghost var ikey := InternalKey(stored, f.sequence, f.kind);
        var length := GetVarint32From(buf, 0);
        var keyLength, rest := length.value, length.rest;
        assert rest[..keyLength] == ikey && rest[keyLength..] == PutLengthPrefixedSlice(f.value);
        var slice := rest[..keyLength];
        if rank(ExtractUserKey(slice)) == rank(key) {
          var tag := TagOf(slice);
          if tag % 256 == TYPE_VALUE {
            var v := GetLengthPrefixedSlice(rest[keyLength..]);
            r := Value(v.value);
          } else if tag % 256 == TYPE_DELETION {
            r := Deleted;
          }
        }
      }
    }
  }

  /** The first entry at or after the seek key is the newest visible one, or nothing is visible. */
  lemma CeilingDecides(h: set<Entry>, k: UserKey, s: SequenceNumber, n: Ptr)
    requires forall e :: e in h ==> e.kind <= TYPE_VALUE
    requires IsCeiling(h, Entry(k, s, TYPE_FOR_SEEK, []), n)
    ensures n.Node? && n.entry.key == k ==>
              MemLookup(h, k, s) == if n.entry.kind == TYPE_VALUE then Value(n.entry.value) else Deleted
    ensures !(n.Node? && n.entry.key == k) ==> MemLookup(h, k, s) == NotHere
  {
    var target := Entry(k, s, TYPE_FOR_SEEK, []);
    if n.Node? && n.entry.key == k {
      assert IsNewest(h, k, s, n.entry);
      LookupIsNewest(h, k, s, n.entry);
    } else {
      forall e | e in h ensures !Visible(e, k, s) {
        assert Visible(e, k, s) ==> !Before(e, target);
      }
    }
  }

  // ----- DBImpl::Get -----

  /** Writes reach the upper layer only after everything in the lower one. */
  ghost predicate Above(upper: set<Entry>, lower: set<Entry>) {
    forall a, b :: a in upper && b in lower && a.key == b.key ==> a.sequence > b.sequence
  }

  lemma UpperLayerDecides(upper: set<Entry>, lower: set<Entry>, k: UserKey, s: nat)
    requires Above(upper, lower) && DistinctTags(upper) && DistinctTags(lower)
    ensures !MemLookup(upper, k, s).NotHere? ==> MemLookup(upper + lower, k, s) == MemLookup(upper, k, s)
    ensures MemLookup(upper, k, s).NotHere? ==> MemLookup(upper + lower, k, s) == MemLookup(lower, k, s)
    ensures DistinctTags(upper + lower)
  {
    LookupDecidesRead(upper, k, s);
    LookupDecidesRead(lower, k, s);
    if !MemLookup(upper, k, s).NotHere? {
      var e :| IsNewest(upper, k, s, e);
      LookupIsNewest(upper, k, s, e);
      assert IsNewest(upper + lower, k, s, e);
      LookupIsNewest(upper + lower, k, s, e);
    } else if !MemLookup(lower, k, s).NotHere? {
      var e :| IsNewest(lower, k, s, e);
      LookupIsNewest(lower, k, s, e);
      assert IsNewest(upper + lower, k, s, e);
      LookupIsNewest(upper + lower, k, s, e);
    } else {
      forall e ensures !IsNewest(upper + lower, k, s, e) {
        assert IsNewest(upper + lower, k, s, e) ==> e in upper || e in lower;
      }
    }
  }

  /** The search order memtable, immutable memtable, tables answers from the newest version in any layer.
      `inTables` is the answer of Version::Get for the entries `tables` of the current version. */
  method Get(mem: MemTable, imm: MemTable?, ghost tables: set<Entry>, inTables: Lookup,
             key: Bytes, snapshot: SequenceNumber)
    returns (r: Lookup)
    requires mem.Valid() && DistinctTags(mem.Contents()) && DistinctTags(tables)
    requires imm != null ==> imm.Valid() && imm.rank == mem.rank && DistinctTags(imm.Contents())
    requires imm != null ==> Above(mem.Contents(), imm.Contents()) && Above(imm.Contents(), tables)
    requires Above(mem.Contents(), tables)
    requires inTables == Read(tables, mem.rank(key), snapshot)
    ensures r == Read(mem.Contents() + (if imm == null then {} else imm.Contents()) + tables, mem.rank(key), snapshot)
  {
    ghost var k := mem.rank(key);
    ghost var lower := (if imm == null then {} else imm.Contents()) + tables;
    ghost var all := mem.Contents() + (if imm == null then {} else imm.Contents()) + tables;
    assert mem.Contents() + lower == all;
    if imm != null {
      UpperLayerDecides(imm.Contents(), tables, k, snapshot);
    } else {
      assert lower == tables;
    }
    UpperLayerDecides(mem.Contents(), lower, k, snapshot);
    LookupDecidesRead(all, k, snapshot);
    LookupDecidesRead(tables, k, snapshot);
    var found := mem.Get(key, snapshot);
    if found.NotHere? && imm != null {
      found := imm.Get(key, snapshot);
    }
    match found {
      case Value(v) => r := Found(v);
      case Deleted => r := NotFound;
      case NotHere => r := inTables;
    }
  }
}
