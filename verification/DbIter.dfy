/** DBIter: one cursor over the newest live value of every user key, built on an iterator over
    all entries of all versions, in both directions. */
module DbIter {
  import opened History

  const EMPTY_KEY: UserKey := 0.0

  /** What a user sees: one pair per user key. */
  datatype Pair = Pair(key: UserKey, value: Bytes)

  predicate Readable(e: Entry, s: SequenceNumber) {
    Parses(e) && e.sequence <= s
  }

  /** Entry `i` is the newest readable entry of its user key, and a value. */
  ghost predicate Live(es: seq<Entry>, s: SequenceNumber, i: nat)
    requires i < |es|
  {
    && Readable(es[i], s)
    && es[i].kind == TYPE_VALUE
    && forall j :: 0 <= j < i && es[j].key == es[i].key ==> !Readable(es[j], s)
  }

  /** The live pairs among the first `n` entries. */
  ghost function Pairs(es: seq<Entry>, s: SequenceNumber, n: nat): seq<Pair>
    requires n <= |es|
  {
    if n == 0 then []
    else if Live(es, s, n - 1) then Pairs(es, s, n - 1) + [Pair(es[n - 1].key, es[n - 1].value)]
    else Pairs(es, s, n - 1)
  }

  lemma {:induction false} PairsGrow(es: seq<Entry>, s: SequenceNumber, m: nat, n: nat)
    requires m <= n <= |es|
    ensures Pairs(es, s, m) <= Pairs(es, s, n)
    decreases n - m
  {
    if m < n {
      PairsGrow(es, s, m, n - 1);
    }
  }

  lemma {:induction false} NoPairsBetween(es: seq<Entry>, s: SequenceNumber, m: nat, n: nat)
    requires m <= n <= |es|
    requires forall i :: m <= i < n ==> !Live(es, s, i)
    ensures Pairs(es, s, m) == Pairs(es, s, n)
    decreases n - m
  {
    if m < n {
      NoPairsBetween(es, s, m, n - 1);
    }
  }

  /** The pair that a live entry contributes sits right behind those of the entries before it. */
  lemma PairAt(es: seq<Entry>, s: SequenceNumber, i: nat)
    requires i < |es| && Live(es, s, i)
    ensures var at := |Pairs(es, s, i)|;
            at < |Pairs(es, s, |es|)| && Pairs(es, s, |es|)[at] == Pair(es[i].key, es[i].value)
  {
    PairsGrow(es, s, i + 1, |es|);
  }

  lemma {:induction false} PairsComeFromEntries(es: seq<Entry>, s: SequenceNumber, n: nat, p: nat) returns (i: nat)
    requires n <= |es| && p < |Pairs(es, s, n)|
    ensures i < n && Live(es, s, i) && |Pairs(es, s, i)| == p && Pairs(es, s, n)[p] == Pair(es[i].key, es[i].value)
  {
    if p < |Pairs(es, s, n - 1)| {
      i := PairsComeFromEntries(es, s, n - 1, p);
    } else {
      i := n - 1;
    }
  }

  lemma PairsAreSorted(es: seq<Entry>, s: SequenceNumber, p: nat, q: nat)
    requires StrictlySorted(es) && p < q < |Pairs(es, s, |es|)|
    ensures Pairs(es, s, |es|)[p].key < Pairs(es, s, |es|)[q].key
  {
    hide Pairs;
    var i := PairsComeFromEntries(es, s, |es|, p);
    var j := PairsComeFromEntries(es, s, |es|, q);
    if j < i {
      PairsGrow(es, s, j, i);
    }
    assert Before(es[i], es[j]);
  }

  lemma PairIsRead(es: seq<Entry>, s: SequenceNumber, p: nat)
    requires StrictlySorted(es) && p < |Pairs(es, s, |es|)|
    ensures var pair := Pairs(es, s, |es|)[p]; Read((set e | e in es), pair.key, s) == Found(pair.value)
  {
    hide Pairs;
    var h := set e | e in es;
    var i := PairsComeFromEntries(es, s, |es|, p);
    forall o | o in h && Visible(o, es[i].key, s) && o != es[i] ensures Newer(es[i], o) {
      var j :| 0 <= j < |es| && es[j] == o;
      assert i < j;
      assert Before(es[i], es[j]);
    }
    assert IsNewest(h, es[i].key, s, es[i]);
    ReadIsNewest(h, es[i].key, s, es[i]);
  }

  lemma ReadIsPair(es: seq<Entry>, s: SequenceNumber, k: UserKey, v: Bytes)
    requires StrictlySorted(es) && Read((set e | e in es), k, s) == Found(v)
    ensures Pair(k, v) in Pairs(es, s, |es|)
  {
    hide Pairs;
    var h := set e | e in es;
    var e :| IsNewest(h, k, s, e) && e.kind == TYPE_VALUE && e.value == v;
    var i :| 0 <= i < |es| && es[i] == e;
    forall j | 0 <= j < i && es[j].key == es[i].key ensures !Readable(es[j], s) {
      assert Before(es[j], es[i]) && es[j] in h;
    }
    PairAt(es, s, i);
  }

  /** The cursor's list is strictly sorted and holds exactly what reads at `s` find. */
  lemma PairsAreTheReads(es: seq<Entry>, s: SequenceNumber, k: UserKey, v: Bytes)
    requires StrictlySorted(es)
    ensures var pairs := Pairs(es, s, |es|);
            && (forall p, q :: 0 <= p < q < |pairs| ==> pairs[p].key < pairs[q].key)
            && (Pair(k, v) in pairs <==> Read((set e | e in es), k, s) == Found(v))
  {
    hide Pairs, Read;
    var pairs := Pairs(es, s, |es|);
    forall p, q | 0 <= p < q < |pairs| ensures pairs[p].key < pairs[q].key {
      PairsAreSorted(es, s, p, q);
    }
    if Pair(k, v) in pairs {
      var p :| 0 <= p < |pairs| && pairs[p] == Pair(k, v);
      PairIsRead(es, s, p);
    }
    if Read((set e | e in es), k, s) == Found(v) {
      ReadIsPair(es, s, k, v);
    }
  }

  /** Where a forward scan may begin: nothing readable behind it is the newest version of a key still to come. */
  ghost predicate MayScan(es: seq<Entry>, s: SequenceNumber, start: nat, skip: bool, k: UserKey) {
    && StrictlySorted(es) && start < |es|
    && (forall i :: 0 <= i < start && Readable(es[i], s) ==>
          if skip then es[i].key <= k else forall j :: start <= j < |es| ==> es[i].key < es[j].key)
    && (skip ==> forall i :: start <= i < |es| && Readable(es[i], s) ==> k <= es[i].key)
  }

  /** What a forward scan from `start` knows at `pos`. */
  ghost predicate Scanned(es: seq<Entry>, s: SequenceNumber, start: nat, pos: nat, skip: bool, k: UserKey,
                          skipping: bool, saved: UserKey)
  {
    && start <= pos <= |es|
    && (skip ==> skipping && k <= saved)
    && (forall i :: start <= i < pos && Readable(es[i], s) ==> skipping && es[i].key <= saved)
    && (skipping ==>
          || (skip && saved == k)
          || exists j :: start <= j < pos && Readable(es[j], s) && es[j].key == saved)
    && (forall i :: start <= i < pos && Live(es, s, i) ==> skip && es[i].key <= k)
  }

  lemma ScanYields(es: seq<Entry>, s: SequenceNumber, start: nat, pos: nat, skip: bool, k: UserKey,
                   skipping: bool, saved: UserKey)
    requires MayScan(es, s, start, skip, k) && pos < |es|
    requires Scanned(es, s, start, pos, skip, k, skipping, saved)
    requires Readable(es[pos], s) && es[pos].kind == TYPE_VALUE && !(skipping && es[pos].key <= saved)
    ensures Live(es, s, pos) && (skip ==> k < es[pos].key)
  {
  }

  lemma ScanPasses(es: seq<Entry>, s: SequenceNumber, start: nat, pos: nat, skip: bool, k: UserKey,
                   skipping: bool, saved: UserKey)
    requires MayScan(es, s, start, skip, k) && pos < |es|
    requires Scanned(es, s, start, pos, skip, k, skipping, saved)
    ensures !Readable(es[pos], s) || (es[pos].kind == TYPE_VALUE && skipping && es[pos].key <= saved) ==>
              Scanned(es, s, start, pos + 1, skip, k, skipping, saved)
    ensures Readable(es[pos], s) && es[pos].kind == TYPE_DELETION ==>
              Scanned(es, s, start, pos + 1, skip, k, true, es[pos].key)
  {
    assert forall i :: 0 <= i < pos ==> Before(es[i], es[pos]);
    if Readable(es[pos], s) && es[pos].kind == TYPE_VALUE && skipping && es[pos].key <= saved {
      assert Live(es, s, pos) ==> skip && es[pos].key <= k;
    }
  }

  /** What a backward scan from `ceiling` knows when it has looked at everything from `pos` up. */
  ghost predicate Gathered(es: seq<Entry>, s: SequenceNumber, pos: nat, ceiling: nat, last: nat, valueType: Byte) {
    && pos <= ceiling <= |es|
    && (valueType == TYPE_DELETION || valueType == TYPE_VALUE)
    && (valueType == TYPE_DELETION ==> forall i :: pos <= i < ceiling ==> !Live(es, s, i))
    && (valueType == TYPE_VALUE ==>
          && pos <= last < ceiling && Readable(es[last], s) && es[last].kind == TYPE_VALUE
          && (forall i :: pos <= i < last ==> !Readable(es[i], s))
          && (forall i :: last < i < ceiling ==> !Live(es, s, i)))
  }

  lemma GatherOne(es: seq<Entry>, s: SequenceNumber, pos: nat, ceiling: nat, last: nat, valueType: Byte)
    requires StrictlySorted(es) && pos < |es|
    requires Gathered(es, s, pos + 1, ceiling, last, valueType)
    ensures !Readable(es[pos], s) ==> Gathered(es, s, pos, ceiling, last, valueType)
    ensures Readable(es[pos], s) && (valueType == TYPE_DELETION || es[last].key <= es[pos].key) ==>
              Gathered(es, s, pos, ceiling, pos, es[pos].kind)
  {
    if valueType == TYPE_VALUE {
      assert Before(es[pos], es[last]);
    }
  }

  /** Once every older key, or nothing, is left, the gathered value is the last live entry below the ceiling. */
  lemma GatheredIsLast(es: seq<Entry>, s: SequenceNumber, pos: nat, ceiling: nat, last: nat, valueType: Byte)
    requires StrictlySorted(es)
    requires Gathered(es, s, pos, ceiling, last, valueType)
    requires valueType == TYPE_VALUE && (pos == 0 || es[pos - 1].key < es[last].key)
    ensures Live(es, s, last)
    ensures |Pairs(es, s, ceiling)| == |Pairs(es, s, last)| + 1
    ensures |Pairs(es, s, pos)| == |Pairs(es, s, last)|
    ensures forall i :: pos <= i < |es| && es[i].key < es[last].key ==> !Readable(es[i], s)
    ensures var at := |Pairs(es, s, last)|;
            at < |Pairs(es, s, |es|)| && Pairs(es, s, |es|)[at] == Pair(es[last].key, es[last].value)
  {
    PairAt(es, s, last);
    assert forall i :: last < i < |es| ==> Before(es[last], es[i]);
    assert pos > 0 ==> forall i :: 0 <= i < pos - 1 ==> Before(es[i], es[pos - 1]);
    NoPairsBetween(es, s, pos, last);
    NoPairsBetween(es, s, last + 1, ceiling);
  }

  class DBIter {
    const entries: seq<Entry>
    const sequence: SequenceNumber

    // The internal iterator: a position in `entries`, or |entries| when it is not valid.
    var pos: nat

    var savedKey: UserKey
    var savedValue: Bytes
    var reverse: bool
    var valid: bool
    var corrupted: bool

    // The abstract cursor: an index into Cursor(), or |Cursor()| when it is not valid.
    ghost var at: nat

    ghost function Cursor(): seq<Pair> {
      Pairs(entries, sequence, |entries|)
    }

    /** Moving forward, the internal iterator is on the entry that yields the current pair.
        Moving backward, it is before all entries of the current user key, and only entries that
        the snapshot cannot see lie in between. */
    ghost predicate Valid()
      reads this
    {
      && StrictlySorted(entries)
      && pos <= |entries|
      && (valid <==> at < |Cursor()|)
      && at <= |Cursor()|
      && (valid && !reverse ==> pos < |entries| && Live(entries, sequence, pos) && at == |Pairs(entries, sequence, pos)|)
      && (valid && reverse ==>
            && savedKey == Cursor()[at].key && savedValue == Cursor()[at].value
            && at == |Pairs(entries, sequence, NextPos())|
            && (pos < |entries| ==> entries[pos].key < savedKey)
            && (forall i :: NextPos() <= i < |entries| && entries[i].key < savedKey ==> !Readable(entries[i], sequence)))
    }

    ghost function NextPos(): nat
      reads this
    {
      if pos < |entries| then pos + 1 else 0
    }

    constructor (entries: seq<Entry>, sequence: SequenceNumber)
      requires StrictlySorted(entries)
      ensures Valid() && !valid
      ensures this.entries == entries && this.sequence == sequence
    {
      this.entries, this.sequence := entries, sequence;
      pos, savedKey, savedValue, reverse, valid, corrupted := |entries|, EMPTY_KEY, [], false, false, false;
      at := |Pairs(entries, sequence, |entries|)|;
    }

    method Key() returns (k: UserKey)
      requires Valid() && valid
      ensures k == Cursor()[at].key
    {
      if !reverse { PairAt(entries, sequence, pos); }
      k := if !reverse then entries[pos].key else savedKey;
    }

    method Value() returns (v: Bytes)
      requires Valid() && valid
      ensures v == Cursor()[at].value
    {
      if !reverse { PairAt(entries, sequence, pos); }
      v := if !reverse then entries[pos].value else savedValue;
    }

    method InternalNext()
      requires pos < |entries|
      modifies this`pos
      ensures pos == old(pos) + 1
    {
      pos := pos + 1;
    }

    method InternalPrev()
      requires pos < |entries|
      modifies this`pos
      ensures pos == if old(pos) == 0 then |entries| else old(pos) - 1
    {
      pos := if pos == 0 then |entries| else pos - 1;
    }

    /** Internal Seek: the first entry not before (target, sequence, value type for seeking). */
    method InternalSeek(target: UserKey)
      requires StrictlySorted(entries)
      modifies this`pos
      ensures pos <= |entries|
      ensures forall i :: 0 <= i < pos && Readable(entries[i], sequence) ==> entries[i].key < target
      ensures forall i :: pos <= i < |entries| ==> target <= entries[i].key
    {
      pos := 0;
      while pos < |entries| && Before(entries[pos], Entry(target, sequence, TYPE_VALUE, []))
        invariant pos <= |entries|
        invariant forall i :: 0 <= i < pos ==> Before(entries[i], Entry(target, sequence, TYPE_VALUE, []))
      {
        pos := pos + 1;
      }
      assert forall i :: pos < i < |entries| ==> Before(entries[pos], entries[i]);
    }

    /** ParseKey: an unparsable key is remembered in the status and passed over. */
    method ParseKey() returns (ok: bool)
      requires pos < |entries|
      modifies this`corrupted
      ensures ok <==> Parses(entries[pos])
      ensures corrupted <==> old(corrupted) || !ok
    {
      ok := entries[pos].kind <= TYPE_VALUE;
      if !ok {
        corrupted := true;
      }
    }

    /** Stops at the first live entry from `pos` on, beyond the key to skip if there is one. */
    method FindNextUserEntry(skip: bool)
      requires MayScan(entries, sequence, pos, skip, savedKey) && !reverse
      modifies this
      ensures Valid() && !reverse
      ensures old(pos) <= pos <= |entries| && at == |Pairs(entries, sequence, pos)|
      ensures pos < |entries| ==> Live(entries, sequence, pos) && (skip ==> old(savedKey) < entries[pos].key)
      ensures forall i :: old(pos) <= i < pos && Live(entries, sequence, i) ==> skip && entries[i].key <= old(savedKey)
    {
      ghost var start, k := pos, savedKey;
      var skipping := skip;
      while true
        invariant pos < |entries| && !reverse
        invariant Scanned(entries, sequence, start, pos, skip, k, skipping, savedKey)
        decreases |entries| - pos
      {
        ScanPasses(entries, sequence, start, pos, skip, k, skipping, savedKey);
        var ok := ParseKey();
        if ok && entries[pos].sequence <= sequence {
          if entries[pos].kind == TYPE_DELETION {
            savedKey := entries[pos].key;
            skipping := true;
          } else if skipping && entries[pos].key <= savedKey {
            // hidden
          } else {
            ScanYields(entries, sequence, start, pos, skip, k, skipping, savedKey);
            PairAt(entries, sequence, pos);
            valid := true;
            savedKey := EMPTY_KEY;
            at := |Pairs(entries, sequence, pos)|;
            return;
          }
        }
        InternalNext();
        if pos == |entries| {
          break;
        }
      }
      savedKey := EMPTY_KEY;
      valid := false;
      at := |Cursor()|;
    }

    /** From the cursor's current pair, the next live entry of a larger user key is the next pair. */
    lemma OneStepForward(start: nat, stop: nat, current: nat, k: UserKey)
      requires StrictlySorted(entries)
      requires start <= stop <= |entries|
      requires current == |Pairs(entries, sequence, start)| < |Cursor()| && Cursor()[current].key == k
      requires forall i :: start <= i < stop && Live(entries, sequence, i) ==> entries[i].key <= k
      requires stop < |entries| ==> Live(entries, sequence, stop) && k < entries[stop].key
      ensures |Pairs(entries, sequence, stop)| == current + 1
    {
      PairsGrow(entries, sequence, start, stop);
      PairsGrow(entries, sequence, stop, |entries|);
      if stop < |entries| {
        PairAt(entries, sequence, stop);
      }
      if |Pairs(entries, sequence, stop)| > current + 1 {
        var i := PairsComeFromEntries(entries, sequence, stop, current + 1);
        if i < start {
          PairsGrow(entries, sequence, i, start);
        }
        PairsAreTheReads(entries, sequence, k, []);
      }
    }

    method Next()
      requires Valid() && valid
      modifies this
      ensures Valid() && !reverse
      ensures at == old(at) + 1
    {
      ghost var start := if reverse then NextPos() else pos;
      ghost var k := Cursor()[at].key;
      if reverse {
        reverse := false;
        assert start < |entries|;
        if pos == |entries| {
          pos := 0;
        } else {
          InternalNext();
        }
      } else {
        PairAt(entries, sequence, pos);
        savedKey := entries[pos].key;
        assert forall i :: 0 <= i < pos ==> Before(entries[i], entries[pos]);
        assert forall i :: pos < i < |entries| ==> Before(entries[pos], entries[i]);
      }
      FindNextUserEntry(true);
      OneStepForward(start, pos, old(at), k);
    }

    /** Walks back over whole user keys until one with a live newest entry has been passed. */
    method FindPrevUserEntry()
      requires StrictlySorted(entries) && pos <= |entries| && reverse
      modifies this
      ensures Valid()
      ensures var candidates := |Pairs(entries, sequence, old(NextPos()))|;
              at == if candidates > 0 then candidates - 1 else |Cursor()|
    {
      hide Live, StrictlySorted;
      ghost var ceiling := NextPos();
      ghost var last: nat := ceiling;
      var valueType := TYPE_DELETION;
      if pos < |entries| {
        while true
          invariant pos < |entries| && reverse
          invariant Gathered(entries, sequence, pos + 1, ceiling, last, valueType)
          invariant valueType == TYPE_VALUE ==> savedKey == entries[last].key && savedValue == entries[last].value
          decreases pos
        {
          GatherOne(entries, sequence, pos, ceiling, last, valueType);
          var ok := ParseKey();
          if ok && entries[pos].sequence <= sequence {
            if valueType != TYPE_DELETION && entries[pos].key < savedKey {
              break;
            }
            valueType := entries[pos].kind;
            last := pos;
            if valueType == TYPE_DELETION {
              savedKey, savedValue := EMPTY_KEY, [];
            } else {
              savedKey, savedValue := entries[pos].key, entries[pos].value;
            }
          }
          InternalPrev();
          if pos == |entries| {
            break;
          }
        }
      }
      if valueType == TYPE_DELETION {
        NoPairsBetween(entries, sequence, 0, ceiling);
        valid := false;
        savedKey, savedValue := EMPTY_KEY, [];
        reverse := false;
        at := |Cursor()|;
      } else {
        GatheredIsLast(entries, sequence, NextPos(), ceiling, last, valueType);
        valid := true;
        at := |Pairs(entries, sequence, last)|;
      }
    }

    method Prev()
      requires Valid() && valid
      modifies this
      ensures Valid()
      ensures at == if old(at) > 0 then old(at) - 1 else |Cursor()|
    {
      if !reverse {
        savedKey := entries[pos].key;
        ghost var start := pos;
        while true
          invariant pos <= start < |entries| && start == old(pos) && unchanged(this`at) && unchanged(this`valid)
          invariant savedKey == entries[start].key
          invariant forall i :: pos <= i <= start ==> entries[i].key == savedKey
          decreases pos
        {
          InternalPrev();
          if pos == |entries| {
            NoPairsBetween(entries, sequence, 0, start);
            valid := false;
            savedKey, savedValue := EMPTY_KEY, [];
            at := |Cursor()|;
            return;
          }
          assert Before(entries[pos], entries[start]);
          if entries[pos].key < savedKey {
            break;
          }
        }
        NoPairsBetween(entries, sequence, pos + 1, start);
        reverse := true;
      }
      FindPrevUserEntry();
    }

    method Seek(target: UserKey)
      requires StrictlySorted(entries)
      modifies this
      ensures Valid() && !reverse
      ensures forall p :: 0 <= p < at ==> Cursor()[p].key < target
      ensures forall p :: at <= p < |Cursor()| ==> target <= Cursor()[p].key
    {
      reverse, savedValue := false, [];
      InternalSeek(target);
      ghost var start := pos;
      if pos < |entries| {
        FindNextUserEntry(false);
      } else {
        valid := false;
        at := |Cursor()|;
      }
      NoPairsBetween(entries, sequence, start, pos);
      SplitAt(start, target);
    }

    /** The pairs before position `n` are those of the keys below `target`. */
    lemma SplitAt(n: nat, target: UserKey)
      requires n <= |entries|
      requires forall i :: 0 <= i < n && Readable(entries[i], sequence) ==> entries[i].key < target
      requires forall i :: n <= i < |entries| ==> target <= entries[i].key
      ensures forall p :: 0 <= p < |Pairs(entries, sequence, n)| ==> p < |Cursor()| && Cursor()[p].key < target
      ensures forall p :: |Pairs(entries, sequence, n)| <= p < |Cursor()| ==> target <= Cursor()[p].key
    {
      PairsGrow(entries, sequence, n, |entries|);
      forall p | 0 <= p < |Cursor()|
        ensures p < |Pairs(entries, sequence, n)| <==> Cursor()[p].key < target
      {
        var i := PairsComeFromEntries(entries, sequence, |entries|, p);
        if i < n {
          PairsGrow(entries, sequence, i + 1, n);
        } else {
          PairsGrow(entries, sequence, n, i);
        }
      }
      assert |Pairs(entries, sequence, n)| <= |Cursor()|;
    }

    method SeekToFirst()
      requires StrictlySorted(entries)
      modifies this
      ensures Valid() && !reverse && at == 0
    {
      reverse, savedValue := false, [];
      pos := 0;
      if pos < |entries| {
        FindNextUserEntry(false);
        NoPairsBetween(entries, sequence, 0, pos);
      } else {
        valid := false;
        at := |Cursor()|;
      }
    }

    method SeekToLast()
      requires StrictlySorted(entries)
      modifies this
      ensures Valid()
      ensures at == if |Cursor()| > 0 then |Cursor()| - 1 else 0
    {
      reverse, savedValue := true, [];
      pos := if |entries| > 0 then |entries| - 1 else |entries|;
      FindPrevUserEntry();
    }
  }
}
