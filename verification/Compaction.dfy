/** DBImpl::DoCompactionWork: which entries a compaction drops, and why no live read can tell. */
module Compaction {
  import opened Basics
  import opened History

  /** The sequence number of the entry in front of position `i`, if that entry parses and has the same user key. */
  function PrecedingSequence(input: seq<Entry>, i: nat): SequenceNumber
    requires i < |input|
  {
    if i > 0 && Parses(input[i - 1]) && input[i - 1].key == input[i].key then input[i - 1].sequence else MAX_SEQUENCE
  }

  /** Rule (A): a newer entry of the same user key is already at or below the smallest snapshot. */
  predicate Hidden(input: seq<Entry>, i: nat, smallest: SequenceNumber)
    requires i < |input|
  {
    PrecedingSequence(input, i) <= smallest
  }

  /** A deletion marker that no snapshot needs and that hides nothing in a deeper level. */
  predicate Obsolete(e: Entry, smallest: SequenceNumber, isBaseLevel: UserKey -> bool) {
    e.kind == TYPE_DELETION && e.sequence <= smallest && isBaseLevel(e.key)
  }

  predicate Dropped(input: seq<Entry>, i: nat, smallest: SequenceNumber, isBaseLevel: UserKey -> bool)
    requires i < |input|
  {
    Parses(input[i]) && (Hidden(input, i, smallest) || Obsolete(input[i], smallest, isBaseLevel))
  }

  /** The entries among the first `n` that are not dropped, in order. */
  function Survivors(input: seq<Entry>, n: nat, smallest: SequenceNumber, isBaseLevel: UserKey -> bool): seq<Entry>
    requires n <= |input|
  {
    if n == 0 then []
    else if Dropped(input, n - 1, smallest, isBaseLevel) then Survivors(input, n - 1, smallest, isBaseLevel)
    else Survivors(input, n - 1, smallest, isBaseLevel) + [input[n - 1]]
  }

  /** One output table and the key range recorded for it. */
  datatype Output = Output(smallest: Entry, largest: Entry, entries: seq<Entry>)

  function AllEntries(outputs: seq<Output>): seq<Entry> {
    if outputs == [] then [] else AllEntries(outputs[..|outputs| - 1]) + outputs[|outputs| - 1].entries
  }

  ghost predicate WellFormedOutput(o: Output) {
    o.entries != [] && o.smallest == o.entries[0] && o.largest == o.entries[|o.entries| - 1]
  }

  lemma LastGrows(outputs: seq<Output>, grown: Output, e: Entry)
    requires outputs != [] && (forall o :: o in outputs ==> WellFormedOutput(o))
    requires var current := outputs[|outputs| - 1]; grown == Output(current.smallest, e, current.entries + [e])
    ensures var after := outputs[..|outputs| - 1] + [grown];
            && AllEntries(after) == AllEntries(outputs) + [e]
            && forall o :: o in after ==> WellFormedOutput(o)
  {
    hide AllEntries;
    var front, current := outputs[..|outputs| - 1], outputs[|outputs| - 1];
    assert outputs == front + [current];
    AllEntriesLast(front, current);
    AllEntriesLast(front, grown);
    Regroup(AllEntries(front), current.entries, [e]);
    assert WellFormedOutput(current);
  }

  /** TableBuilder::Add preceded by OpenCompactionOutputFile when no table is being built. */
  function AddEntry(outputs: seq<Output>, building: bool, e: Entry): (r: seq<Output>)
    requires building ==> outputs != []
    requires forall o :: o in outputs ==> WellFormedOutput(o)
    ensures r != [] && AllEntries(r) == AllEntries(outputs) + [e]
    ensures forall o :: o in r ==> WellFormedOutput(o)
  {
    if !building then
      AllEntriesLast(outputs, Output(e, e, [e]));
      outputs + [Output(e, e, [e])]
    else
      var current := outputs[|outputs| - 1];
      var grown := Output(current.smallest, e, current.entries + [e]);
      LastGrows(outputs, grown, e);
      outputs[..|outputs| - 1] + [grown]
  }

  lemma AllEntriesLast(front: seq<Output>, o: Output)
    ensures AllEntries(front + [o]) == AllEntries(front) + o.entries
  {
    assert (front + [o])[..|front|] == front;
  }

  lemma NothingYet(input: seq<Entry>, smallest: SequenceNumber, isBaseLevel: UserKey -> bool)
    ensures AllEntries([]) == [] == Survivors(input, 0, smallest, isBaseLevel)
  {
  }

  lemma OneMoreTaken(input: seq<Entry>, i: nat, smallest: SequenceNumber, isBaseLevel: UserKey -> bool)
    requires i < |input|
    ensures Survivors(input, i + 1, smallest, isBaseLevel) == Survivors(input, i, smallest, isBaseLevel)
                                                              + if Dropped(input, i, smallest, isBaseLevel) then [] else [input[i]]
  {
    Regroup(Survivors(input, i, smallest, isBaseLevel), [], []);
  }

  /** The loop of DoCompactionWork.  `stopBefore(i)` and `bigEnough(i)` stand for ShouldStopBefore
      and the output size test at input position i; they only decide where tables are cut.
      A shutdown, or an output table that cannot be opened or finished, ends the loop early; what is
      written by then comes from the first `taken` input entries, and the result is not ok. */
  method DoCompactionWork(input: seq<Entry>, smallestSnapshot: SequenceNumber, isBaseLevel: UserKey -> bool,
                          stopBefore: nat -> bool, bigEnough: nat -> bool)
    returns (ok: bool, outputs: seq<Output>, ghost taken: nat)
    ensures taken <= |input| && (ok ==> taken == |input|)
    ensures AllEntries(outputs) == Survivors(input, taken, smallestSnapshot, isBaseLevel)
    ensures forall o :: o in outputs ==> WellFormedOutput(o)
  {
    hide Survivors, AllEntries, WellFormedOutput;
    ok, outputs, taken := true, [], 0;
    NothingYet(input, smallestSnapshot, isBaseLevel);
    var building := false;
    var hasCurrentUserKey, currentUserKey := false, 0.0;
    var lastSequenceForKey: SequenceNumber := MAX_SEQUENCE;
    var i := 0;
    var shuttingDown: bool := *;
    while i < |input| && !shuttingDown
      invariant 0 <= i <= |input| && ok && taken == i
      invariant hasCurrentUserKey <==> i > 0 && Parses(input[i - 1])
      invariant hasCurrentUserKey ==> currentUserKey == input[i - 1].key && lastSequenceForKey == input[i - 1].sequence
      invariant !hasCurrentUserKey ==> lastSequenceForKey == MAX_SEQUENCE
      invariant building ==> outputs != []
      invariant forall o :: o in outputs ==> WellFormedOutput(o)
      invariant AllEntries(outputs) == Survivors(input, i, smallestSnapshot, isBaseLevel)
    {
      var ikey := input[i];
      if building && stopBefore(i) {
        ok := *;  // FinishCompactionOutputFile
        if !ok {
          return;
        }
        building := false;
      }
      var drop := false;
      if !Parses(ikey) {
        hasCurrentUserKey := false;
        lastSequenceForKey := MAX_SEQUENCE;
      } else {
        if !hasCurrentUserKey || ikey.key != currentUserKey {
          currentUserKey := ikey.key;
          hasCurrentUserKey := true;
          lastSequenceForKey := MAX_SEQUENCE;
        }
        if lastSequenceForKey <= smallestSnapshot {
          drop := true;
        } else if ikey.kind == TYPE_DELETION && ikey.sequence <= smallestSnapshot && isBaseLevel(ikey.key) {
          drop := true;
        }
        lastSequenceForKey := ikey.sequence;
      }
      assert drop == Dropped(input, i, smallestSnapshot, isBaseLevel);
      OneMoreTaken(input, i, smallestSnapshot, isBaseLevel);
      if !drop {
        if !building {
          ok := *;  // OpenCompactionOutputFile
          if !ok {
            return;
          }
        }
        outputs := AddEntry(outputs, building, ikey);
        building := true;
        if bigEnough(i) {
          ok := *;
          if !ok {
            taken := i + 1;
            return;
          }
          building := false;
        }
      }
      i, taken := i + 1, i + 1;
      shuttingDown := *;
    }
    ok := *;  // the last table, and the state of the input iterator
    ok := ok && !shuttingDown;
  }

  /** The contents of a store whose compaction inputs are `input`. */
  ghost function Store(upper: set<Entry>, input: seq<Entry>, deeper: set<Entry>): set<Entry> {
    upper + (set e | e in input) + deeper
  }

  /** What the level structure guarantees when a compaction is picked: data outside the inputs
      in shallower places is newer, and a base level key has nothing deeper. */
  ghost predicate ProperlyLeveled(upper: set<Entry>, input: seq<Entry>, deeper: set<Entry>, isBaseLevel: UserKey -> bool) {
    && StrictlySorted(input)
    && DistinctTags(Store(upper, input, deeper))
    && (forall u, e :: u in upper && e in input && u.key == e.key ==> Newer(u, e))
    && (forall d :: d in deeper ==> !isBaseLevel(d.key))
  }

  ghost predicate PreservesReads(before: set<Entry>, after: set<Entry>, smallest: SequenceNumber) {
    forall k: UserKey, s: nat :: smallest <= s ==> Read(before, k, s) == Read(after, k, s)
  }

  /** The one way a compaction can change a read: the deletion marker at `i` is what a reader at the
      smallest snapshot sees and is thrown away, while an unparsable key of the same user key made
      the loop forget it before it reached the older value at `j`. */
  ghost predicate ResurrectsAt(upper: set<Entry>, input: seq<Entry>, smallest: SequenceNumber,
                               isBaseLevel: UserKey -> bool, i: nat, j: nat)
  {
    && i < j < |input|
    && Obsolete(input[i], smallest, isBaseLevel)
    && input[j].key == input[i].key && input[j].kind == TYPE_VALUE
    && !Parses(input[j - 1])
    && (forall u :: u in upper ==> !Visible(u, input[i].key, smallest))
    && (forall e :: e in input && Visible(e, input[i].key, smallest) && e != input[i] ==> Newer(input[i], e))
  }

  ghost predicate Resurrects(upper: set<Entry>, input: seq<Entry>, smallest: SequenceNumber, isBaseLevel: UserKey -> bool) {
    exists i: nat, j: nat :: ResurrectsAt(upper, input, smallest, isBaseLevel, i, j)
  }

  lemma {:induction false} SurvivorsAre(input: seq<Entry>, n: nat, smallest: SequenceNumber, isBaseLevel: UserKey -> bool)
    requires n <= |input|
    ensures forall i :: 0 <= i < n && !Dropped(input, i, smallest, isBaseLevel) ==>
                          input[i] in Survivors(input, n, smallest, isBaseLevel)
    ensures forall e :: e in Survivors(input, n, smallest, isBaseLevel) ==>
                          exists i :: 0 <= i < n && input[i] == e && !Dropped(input, i, smallest, isBaseLevel)
  {
    if n > 0 {
      SurvivorsAre(input, n - 1, smallest, isBaseLevel);
    }
  }

  /** Every read at or above the smallest snapshot is unchanged, if and only if no deletion marker
      is forgotten across an unparsable key. */
  lemma CompactionPreservesReadsIff(upper: set<Entry>, input: seq<Entry>, deeper: set<Entry>,
                                    smallest: SequenceNumber, isBaseLevel: UserKey -> bool)
    requires smallest < MAX_SEQUENCE
    requires ProperlyLeveled(upper, input, deeper, isBaseLevel)
    ensures PreservesReads(Store(upper, input, deeper),
                           Store(upper, Survivors(input, |input|, smallest, isBaseLevel), deeper), smallest)
            <==> !Resurrects(upper, input, smallest, isBaseLevel)
  {
    var out := Survivors(input, |input|, smallest, isBaseLevel);
    if Resurrects(upper, input, smallest, isBaseLevel) {
      var i: nat, j: nat :| ResurrectsAt(upper, input, smallest, isBaseLevel, i, j);
      ResurrectionIsVisible(upper, input, deeper, smallest, isBaseLevel, i, j);
    } else {
      forall k: UserKey, s: nat | smallest <= s
        ensures Read(Store(upper, input, deeper), k, s) == Read(Store(upper, out, deeper), k, s)
      {
        ReadUnchanged(upper, input, deeper, smallest, isBaseLevel, k, s);
      }
    }
  }

  /** With every input key parsable, nothing can be resurrected. */
  lemma ParsableInputPreservesReads(upper: set<Entry>, input: seq<Entry>, deeper: set<Entry>,
                                    smallest: SequenceNumber, isBaseLevel: UserKey -> bool)
    requires smallest < MAX_SEQUENCE
    requires ProperlyLeveled(upper, input, deeper, isBaseLevel)
    requires forall e :: e in input ==> Parses(e)
    ensures PreservesReads(Store(upper, input, deeper),
                           Store(upper, Survivors(input, |input|, smallest, isBaseLevel), deeper), smallest)
  {
    CompactionPreservesReadsIff(upper, input, deeper, smallest, isBaseLevel);
    assert forall i :: 0 <= i < |input| ==> Parses(input[i]);
  }

  lemma ReadUnchanged(upper: set<Entry>, input: seq<Entry>, deeper: set<Entry>,
                      smallest: SequenceNumber, isBaseLevel: UserKey -> bool, k: UserKey, s: nat)
    requires smallest < MAX_SEQUENCE
    requires ProperlyLeveled(upper, input, deeper, isBaseLevel)
    requires !Resurrects(upper, input, smallest, isBaseLevel)
    requires smallest <= s
    ensures Read(Store(upper, input, deeper), k, s)
         == Read(Store(upper, Survivors(input, |input|, smallest, isBaseLevel), deeper), k, s)
  {
    var out := Survivors(input, |input|, smallest, isBaseLevel);
    var before, after := Store(upper, input, deeper), Store(upper, out, deeper);
    SurvivorsAre(input, |input|, smallest, isBaseLevel);
    assert after <= before;
    if w :| w in before && Visible(w, k, s) {
      var m := NewestExists(before, k, s, w);
      ReadIsNewest(before, k, s, m);
      if m in after {
        assert IsNewest(after, k, s, m);
        ReadIsNewest(after, k, s, m);
      } else {
        var i :| 0 <= i < |input| && input[i] == m;
        assert !Hidden(input, i, smallest) by {
          assert i > 0 ==> Before(input[i - 1], input[i]) && input[i - 1] in before;
        }
        if m' :| IsNewest(after, k, s, m') && m'.kind == TYPE_VALUE {
          NothingOutlivesMarker(upper, input, deeper, smallest, isBaseLevel, k, s, i, m');
        }
      }
    }
  }

  /** When the newest visible entry is a dropped deletion marker, a value that outlives it is a resurrection. */
  lemma NothingOutlivesMarker(upper: set<Entry>, input: seq<Entry>, deeper: set<Entry>, smallest: SequenceNumber,
                              isBaseLevel: UserKey -> bool, k: UserKey, s: nat, i: nat, v: Entry)
    requires ProperlyLeveled(upper, input, deeper, isBaseLevel)
    requires smallest <= s && i < |input|
    requires Obsolete(input[i], smallest, isBaseLevel)
    requires IsNewest(Store(upper, input, deeper), k, s, input[i])
    requires v in Store(upper, Survivors(input, |input|, smallest, isBaseLevel), deeper)
    requires Visible(v, k, s) && v.kind == TYPE_VALUE
    ensures Resurrects(upper, input, smallest, isBaseLevel)
  {
    SurvivorsAre(input, |input|, smallest, isBaseLevel);
    var before := Store(upper, input, deeper);
    assert v in before && v !in deeper;
    assert v in upper ==> Newer(v, input[i]);
    var j :| 0 <= j < |input| && input[j] == v && !Dropped(input, j, smallest, isBaseLevel);
    OlderIsLater(input, i, j);
    KeysBetween(input, i, j, j - 1);
    assert !Parses(input[j - 1]) by {
      assert i < j - 1 ==> Before(input[i], input[j - 1]);
    }
    forall u | u in upper ensures !Visible(u, k, smallest) {
      assert u in before;
      assert u.key == k ==> Newer(u, input[i]);
    }
    forall e | e in input && Visible(e, k, smallest) && e != input[i] ensures Newer(input[i], e) {
      assert e in before && Visible(e, k, s);
    }
    assert ResurrectsAt(upper, input, smallest, isBaseLevel, i, j);
  }

  lemma OlderIsLater(input: seq<Entry>, i: nat, j: nat)
    requires StrictlySorted(input)
    requires i < |input| && j < |input| && input[i].key == input[j].key && Newer(input[i], input[j])
    ensures i < j
  {
  }

  lemma KeysBetween(input: seq<Entry>, i: nat, j: nat, m: nat)
    requires StrictlySorted(input)
    requires i <= m <= j < |input| && input[i].key == input[j].key
    ensures input[m].key == input[i].key
  {
    if i < m { assert Before(input[i], input[m]); }
    if m < j { assert Before(input[m], input[j]); }
  }

  /** No deletion marker of a base level key survives at or below the smallest snapshot. */
  lemma SurvivorIsValue(input: seq<Entry>, smallest: SequenceNumber, isBaseLevel: UserKey -> bool, k: UserKey, m: Entry)
    requires m in Survivors(input, |input|, smallest, isBaseLevel)
    requires isBaseLevel(k) && Visible(m, k, smallest)
    ensures m in input && m.kind == TYPE_VALUE
  {
    SurvivorsAre(input, |input|, smallest, isBaseLevel);
  }

  lemma ResurrectionIsVisible(upper: set<Entry>, input: seq<Entry>, deeper: set<Entry>, smallest: SequenceNumber,
                              isBaseLevel: UserKey -> bool, i: nat, j: nat)
    requires smallest < MAX_SEQUENCE
    requires ProperlyLeveled(upper, input, deeper, isBaseLevel)
    requires ResurrectsAt(upper, input, smallest, isBaseLevel, i, j)
    ensures Read(Store(upper, input, deeper), input[i].key, smallest) == NotFound
    ensures Read(Store(upper, Survivors(input, |input|, smallest, isBaseLevel), deeper), input[i].key, smallest).Found?
  {
    var k := input[i].key;
    var out := Survivors(input, |input|, smallest, isBaseLevel);
    var before, after := Store(upper, input, deeper), Store(upper, out, deeper);
    assert IsNewest(before, k, smallest, input[i]);
    ReadIsNewest(before, k, smallest, input[i]);
    assert Before(input[i], input[j]);
    assert input[j] in out by { SurvivorsAre(input, |input|, smallest, isBaseLevel); }
    assert after <= before by { SurvivorsAre(input, |input|, smallest, isBaseLevel); }
    var m := NewestExists(after, k, smallest, input[j]);
    assert m !in upper && m !in deeper;
    SurvivorIsValue(input, smallest, isBaseLevel, k, m);
    ReadIsNewest(after, k, smallest, m);
  }

  // ----- The largest sequence number as smallest snapshot -----

  /** The case left out above.  At the largest sequence number the loop's initial "last sequence"
      already counts as hidden: everything that parses is dropped, a lone value included. */
  lemma {:induction false} SaturatedSnapshotDropsAll(input: seq<Entry>, n: nat, isBaseLevel: UserKey -> bool)
    requires n <= |input|
    ensures forall e :: e in Survivors(input, n, MAX_SEQUENCE, isBaseLevel) ==> !Parses(e)
  {
    SurvivorsAre(input, n, MAX_SEQUENCE, isBaseLevel);
  }

  /** Wherever an input entry is the newest of its key, the deeper levels say the same without it. */
  ghost predicate DeeperAgrees(upper: set<Entry>, input: seq<Entry>, deeper: set<Entry>) {
    forall e :: e in input && IsNewest(Store(upper, input, deeper), e.key, MAX_SEQUENCE, e) ==>
                  Read(deeper, e.key, MAX_SEQUENCE) == if e.kind == TYPE_VALUE then Found(e.value) else NotFound
  }

  /** A key whose newest entry is an input entry is left to the deeper levels. */
  lemma NewestIsLost(upper: set<Entry>, input: seq<Entry>, deeper: set<Entry>, isBaseLevel: UserKey -> bool, e: Entry)
    requires ProperlyLeveled(upper, input, deeper, isBaseLevel)
    requires e in input && IsNewest(Store(upper, input, deeper), e.key, MAX_SEQUENCE, e)
    ensures Read(Store(upper, Survivors(input, |input|, MAX_SEQUENCE, isBaseLevel), deeper), e.key, MAX_SEQUENCE)
         == Read(deeper, e.key, MAX_SEQUENCE)
  {
    hide Survivors, Read;
    var out := Survivors(input, |input|, MAX_SEQUENCE, isBaseLevel);
    SaturatedSnapshotDropsAll(input, |input|, isBaseLevel);
    forall o | o in Store(upper, out, deeper) && Visible(o, e.key, MAX_SEQUENCE) ensures o in deeper {
      assert o in upper ==> Newer(o, e) && o in Store(upper, input, deeper);
    }
    SameVisibleSameRead(Store(upper, out, deeper), deeper, e.key, MAX_SEQUENCE);
  }

  /** Any other key keeps its newest entry. */
  lemma NewestIsKept(upper: set<Entry>, input: seq<Entry>, deeper: set<Entry>, isBaseLevel: UserKey -> bool, k: UserKey)
    requires ProperlyLeveled(upper, input, deeper, isBaseLevel)
    requires forall e :: e in input ==> !IsNewest(Store(upper, input, deeper), k, MAX_SEQUENCE, e)
    ensures Read(Store(upper, input, deeper), k, MAX_SEQUENCE)
         == Read(Store(upper, Survivors(input, |input|, MAX_SEQUENCE, isBaseLevel), deeper), k, MAX_SEQUENCE)
  {
    var out := Survivors(input, |input|, MAX_SEQUENCE, isBaseLevel);
    var before, after := Store(upper, input, deeper), Store(upper, out, deeper);
    SurvivorsAre(input, |input|, MAX_SEQUENCE, isBaseLevel);
    hide Survivors, Read;
    assert after <= before;
    if w :| w in before && Visible(w, k, MAX_SEQUENCE) {
      var m := NewestExists(before, k, MAX_SEQUENCE, w);
      assert IsNewest(after, k, MAX_SEQUENCE, m);
      ReadIsNewest(before, k, MAX_SEQUENCE, m);
      ReadIsNewest(after, k, MAX_SEQUENCE, m);
    } else {
      SameVisibleSameRead(before, after, k, MAX_SEQUENCE);
    }
  }

  /** There, reads are unchanged exactly if no input entry mattered to them. */
  lemma SaturatedPreservesReadsIff(upper: set<Entry>, input: seq<Entry>, deeper: set<Entry>, isBaseLevel: UserKey -> bool)
    requires ProperlyLeveled(upper, input, deeper, isBaseLevel)
    ensures PreservesReads(Store(upper, input, deeper),
                           Store(upper, Survivors(input, |input|, MAX_SEQUENCE, isBaseLevel), deeper), MAX_SEQUENCE)
            <==> DeeperAgrees(upper, input, deeper)
  {
    var out := Survivors(input, |input|, MAX_SEQUENCE, isBaseLevel);
    var before, after := Store(upper, input, deeper), Store(upper, out, deeper);
    hide Survivors, Read, Store, IsNewest, ProperlyLeveled;
    if DeeperAgrees(upper, input, deeper) {
      forall k: UserKey, s: nat | MAX_SEQUENCE <= s ensures Read(before, k, s) == Read(after, k, s) {
        ReadAtLargest(before, k, s);
        ReadAtLargest(after, k, s);
        if e :| e in input && IsNewest(before, k, MAX_SEQUENCE, e) {
          NewestKey(before, k, e);
          NewestIsLost(upper, input, deeper, isBaseLevel, e);
          ReadIsNewest(before, k, MAX_SEQUENCE, e);
        } else {
          NewestIsKept(upper, input, deeper, isBaseLevel, k);
        }
      }
    } else {
      var e :| e in input && IsNewest(before, e.key, MAX_SEQUENCE, e)
               && Read(deeper, e.key, MAX_SEQUENCE) != if e.kind == TYPE_VALUE then Found(e.value) else NotFound;
      NewestIsLost(upper, input, deeper, isBaseLevel, e);
      ReadIsNewest(before, e.key, MAX_SEQUENCE, e);
      assert Read(before, e.key, MAX_SEQUENCE) != Read(after, e.key, MAX_SEQUENCE);
    }
  }

  lemma NewestKey(h: set<Entry>, k: UserKey, e: Entry)
    requires IsNewest(h, k, MAX_SEQUENCE, e)
    ensures e.key == k
  {
  }
}
