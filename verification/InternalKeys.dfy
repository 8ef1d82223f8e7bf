/** Internal keys (db/dbformat.h, db/dbformat.cc): a user key followed by eight bytes that pack
    a sequence number and a type.  The user comparator is given by the place `rank` assigns
    to a key in a total order. */
module InternalKeys {
  import opened History
  import opened Coding

  /** The type packed into keys used for seeking: the largest, so that it sorts first among equals. */
  const TYPE_FOR_SEEK: Byte := TYPE_VALUE

  datatype ParsedInternalKey = ParsedInternalKey(userKey: Bytes, sequence: SequenceNumber, kind: Byte)

  function PackSequenceAndType(sequence: SequenceNumber, kind: Byte): Word64 {
    sequence * 256 + kind
  }

  /** AppendInternalKey on an empty string. */
  function InternalKey(key: Bytes, sequence: SequenceNumber, kind: Byte): (k: Bytes)
    ensures |k| == |key| + 8
  {
    key + EncodeFixed(PackSequenceAndType(sequence, kind), 8)
  }

  function ExtractUserKey(ikey: Bytes): Bytes
    requires |ikey| >= 8
  {
    ikey[..|ikey| - 8]
  }

  function TagOf(ikey: Bytes): Word64
    requires |ikey| >= 8
  {
    FixedInRange(ikey[|ikey| - 8..]);
    Pow256Values();
    DecodeFixed(ikey[|ikey| - 8..])
  }

  /** The fields that ParseInternalKey fills in, when there are eight bytes to read. */
  function Fields(ikey: Bytes): ParsedInternalKey
    requires |ikey| >= 8
  {
    ParsedInternalKey(ExtractUserKey(ikey), TagOf(ikey) / 256, TagOf(ikey) % 256)
  }

  lemma FieldsRepack(ikey: Bytes)
    requires |ikey| >= 8
    ensures var f := Fields(ikey); InternalKey(f.userKey, f.sequence, f.kind) == ikey
  {
    FixedBytes(ikey[|ikey| - 8..]);
  }

  /** ParseInternalKey fails on short keys and on unknown type bytes; what it finds packs to the same key. */
  function ParseInternalKey(ikey: Bytes): (r: Parsed<ParsedInternalKey>)
    ensures r.Got? <==> |ikey| >= 8 && ikey[|ikey| - 8] <= TYPE_VALUE
    ensures r.Got? ==> InternalKey(r.value.userKey, r.value.sequence, r.value.kind) == ikey
  {
    if |ikey| < 8 then Bad
    else
      var parsed := Fields(ikey);
      FieldsRepack(ikey);
      assert ikey[|ikey| - 8..][0] == ikey[|ikey| - 8];
      if parsed.kind <= TYPE_VALUE then Got(parsed, []) else Bad
  }

  lemma InternalKeyRoundTrip(key: Bytes, sequence: SequenceNumber, kind: Byte)
    ensures var ikey := InternalKey(key, sequence, kind);
            && Fields(ikey) == ParsedInternalKey(key, sequence, kind)
            && TagOf(ikey) == PackSequenceAndType(sequence, kind)
  {
    var tag := PackSequenceAndType(sequence, kind);
    var ikey := InternalKey(key, sequence, kind);
    Pow256Values();
    FixedRoundTrip(tag, 8);
    assert ikey[..|ikey| - 8] == key && ikey[|ikey| - 8..] == EncodeFixed(tag, 8);
  }

  /** InternalKeyComparator::Compare. */
  function Compare(rank: Bytes -> UserKey, a: Bytes, b: Bytes): int
    requires |a| >= 8 && |b| >= 8
  {
    var ra, rb := rank(ExtractUserKey(a)), rank(ExtractUserKey(b));
    if ra < rb then -1
    else if ra > rb then 1
    else if TagOf(a) > TagOf(b) then -1
    else if TagOf(a) < TagOf(b) then 1
    else 0
  }

  /** The entry an internal key and a value stand for. */
  function EntryOf(rank: Bytes -> UserKey, ikey: Bytes, value: Bytes): Entry
    requires |ikey| >= 8
  {
    var f := Fields(ikey);
    Entry(rank(f.userKey), f.sequence, f.kind, value)
  }

  /** Comparing packed tags compares sequence numbers first and types second. */
  lemma CompareIsTheOrder(rank: Bytes -> UserKey, a: Bytes, b: Bytes, va: Bytes, vb: Bytes)
    requires |a| >= 8 && |b| >= 8
    ensures Compare(rank, a, b) < 0 <==> Before(EntryOf(rank, a, va), EntryOf(rank, b, vb))
    ensures Compare(rank, a, b) > 0 <==> Before(EntryOf(rank, b, vb), EntryOf(rank, a, va))
  {
    TagsCompare(TagOf(a), TagOf(b));
    TagsCompare(TagOf(b), TagOf(a));
  }

  lemma TagsCompare(a: nat, b: nat)
    ensures a > b <==> a / 256 > b / 256 || (a / 256 == b / 256 && a % 256 > b % 256)
  {
  }

  /** FindShortestSeparator and FindShortSuccessor: `shorter` is the user comparator's proposal. */
  function Shorten(rank: Bytes -> UserKey, start: Bytes, shorter: Bytes): Bytes
    requires |start| >= 8
  {
    var user := ExtractUserKey(start);
    if |shorter| < |user| && rank(user) < rank(shorter)
    then InternalKey(shorter, MAX_SEQUENCE, TYPE_FOR_SEEK)
    else start
  }

  /** Whatever the user comparator proposes between `start` and `limit`, the result separates the two internal keys. */
  lemma SeparatorSeparates(rank: Bytes -> UserKey, start: Bytes, limit: Bytes, shorter: Bytes)
    requires |start| >= 8 && |limit| >= 8 && Compare(rank, start, limit) < 0
    requires rank(ExtractUserKey(start)) < rank(ExtractUserKey(limit)) ==> rank(shorter) < rank(ExtractUserKey(limit))
    requires rank(ExtractUserKey(start)) == rank(ExtractUserKey(limit)) ==> shorter == ExtractUserKey(start)
    ensures var r := Shorten(rank, start, shorter);
            && |r| <= |start|
            && Compare(rank, start, r) <= 0 && Compare(rank, r, limit) < 0
            && (r != start ==> Compare(rank, start, r) < 0)
  {
    InternalKeyRoundTrip(shorter, MAX_SEQUENCE, TYPE_FOR_SEEK);
  }

  lemma SuccessorIsNotSmaller(rank: Bytes -> UserKey, key: Bytes, shorter: Bytes)
    requires |key| >= 8
    ensures var r := Shorten(rank, key, shorter);
            |r| <= |key| && Compare(rank, key, r) <= 0 && (r != key ==> |r| < |key| && Compare(rank, key, r) < 0)
  {
    InternalKeyRoundTrip(shorter, MAX_SEQUENCE, TYPE_FOR_SEEK);
  }
}
