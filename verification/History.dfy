/** The multi-version history that every LevelDB component is measured against.

    An entry is what an internal key and its value say: a user key, a sequence number, the
    type byte from the low eight bits of the packed tag, and the value.  A user key only ever
    reaches the code through the user comparator, which is a total order; here it is
    represented by its place in that order, a real number.
 */
module History {
  type Byte = x: int | 0 <= x < 256
  type Bytes = seq<Byte>
  type UserKey = real

  const MAX_SEQUENCE: nat := 0xFF_FFFF_FFFF_FFFF
  const TYPE_DELETION: Byte := 0
  const TYPE_VALUE: Byte := 1

  type SequenceNumber = x: int | 0 <= x <= MAX_SEQUENCE

  datatype Entry = Entry(key: UserKey, sequence: SequenceNumber, kind: Byte, value: Bytes)

  datatype Lookup = NotFound | Found(value: Bytes)

  /** ParseInternalKey accepts a key exactly when its type byte is a known one. */
  predicate Parses(e: Entry) {
    e.kind <= TYPE_VALUE
  }

  /** Tags compare by sequence number first and type byte second. */
  predicate Newer(a: Entry, b: Entry) {
    a.sequence > b.sequence || (a.sequence == b.sequence && a.kind > b.kind)
  }

  /** The internal key order: user keys ascending, tags of one user key descending. */
  predicate Before(a: Entry, b: Entry) {
    a.key < b.key || (a.key == b.key && Newer(a, b))
  }

  ghost predicate StrictlySorted(es: seq<Entry>) {
    forall i, j :: 0 <= i < j < |es| ==> Before(es[i], es[j])
  }

  /** What a read at snapshot `s` is allowed to look at.  Entries whose type byte is unknown are skipped. */
  predicate Visible(e: Entry, k: UserKey, s: nat) {
    Parses(e) && e.key == k && e.sequence <= s
  }

  ghost predicate IsNewest(h: set<Entry>, k: UserKey, s: nat, e: Entry) {
    && e in h
    && Visible(e, k, s)
    && forall o :: o in h && Visible(o, k, s) && o != e ==> Newer(e, o)
  }

  /** The meaning of a store: the newest entry at or below the snapshot decides. */
  ghost function Read(h: set<Entry>, k: UserKey, s: nat): Lookup {
    if exists e :: IsNewest(h, k, s, e) && e.kind == TYPE_VALUE then
      var e :| IsNewest(h, k, s, e) && e.kind == TYPE_VALUE;
      Found(e.value)
    else
      NotFound
  }

  /** No two entries of one user key carry the same tag. */
  ghost predicate DistinctTags(h: set<Entry>) {
    forall a, b :: a in h && b in h && a.key == b.key && a.sequence == b.sequence && a.kind == b.kind ==> a == b
  }

  lemma ReadIsNewest(h: set<Entry>, k: UserKey, s: nat, e: Entry)
    requires IsNewest(h, k, s, e)
    ensures Read(h, k, s) == if e.kind == TYPE_VALUE then Found(e.value) else NotFound
  {
    forall o | IsNewest(h, k, s, o) ensures o == e {
      assert o != e ==> Newer(e, o) && Newer(o, e);
    }
  }

  /** A read depends on the entries it may look at only. */
  lemma SameVisibleSameRead(a: set<Entry>, b: set<Entry>, k: UserKey, s: nat)
    requires forall e :: Visible(e, k, s) ==> (e in a <==> e in b)
    ensures Read(a, k, s) == Read(b, k, s)
  {
    assert forall e :: IsNewest(a, k, s, e) <==> IsNewest(b, k, s, e);
    if e :| IsNewest(a, k, s, e) {
      ReadIsNewest(a, k, s, e);
      ReadIsNewest(b, k, s, e);
    }
  }

  /** No entry has a number above the largest. */
  lemma ReadAtLargest(h: set<Entry>, k: UserKey, s: nat)
    requires s >= MAX_SEQUENCE
    ensures Read(h, k, s) == Read(h, k, MAX_SEQUENCE)
  {
    assert forall e: Entry :: Visible(e, k, s) <==> Visible(e, k, MAX_SEQUENCE);
    assert forall e :: IsNewest(h, k, s, e) <==> IsNewest(h, k, MAX_SEQUENCE, e);
    if e :| IsNewest(h, k, s, e) {
      ReadIsNewest(h, k, s, e);
      ReadIsNewest(h, k, MAX_SEQUENCE, e);
    }
  }

  lemma {:induction false} NewestExists(h: set<Entry>, k: UserKey, s: nat, w: Entry) returns (e: Entry)
    requires DistinctTags(h)
    requires w in h && Visible(w, k, s)
    ensures IsNewest(h, k, s, e)
    decreases h
  {
    if o :| o in h && Visible(o, k, s) && o != w {
      var h' := h - {w};
      e := NewestExists(h', k, s, o);
      assert Newer(e, w) || Newer(w, e);
      if Newer(w, e) {
        forall x | x in h && Visible(x, k, s) && x != w ensures Newer(w, x) {
          assert x in h';
        }
        e := w;
      } else {
        forall x | x in h && Visible(x, k, s) && x != e ensures Newer(e, x) {
          if x != w {
            assert x in h';
          }
        }
      }
    } else {
      e := w;
    }
  }
}
