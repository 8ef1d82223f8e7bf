/** The circular doubly linked list of live snapshots, and the smallest snapshot a compaction must respect. */
module Snapshots {
  import opened History
  import Compaction

  class SnapshotImpl {
    var prev: SnapshotImpl?
    var next: SnapshotImpl?
    const sequenceNumber: SequenceNumber

    constructor (sequenceNumber: SequenceNumber)
      ensures this.sequenceNumber == sequenceNumber
    {
      this.sequenceNumber := sequenceNumber;
      prev, next := null, null;
    }
  }

  class SnapshotList {
    const head: SnapshotImpl
    ghost var live: seq<SnapshotImpl>

    /** The nodes in link order, starting at the dummy head. */
    ghost function Ring(): seq<SnapshotImpl>
      reads this
    {
      [head] + live
    }

    ghost predicate Linked()
      reads this, head, live
    {
      var ring := Ring();
      && (forall i, j :: 0 <= i < j < |ring| ==> ring[i] != ring[j])
      && (forall i {:trigger ring[i].next} :: 0 <= i < |ring| ==> ring[i].next == if i == |ring| - 1 then ring[0] else ring[i + 1])
      && (forall i {:trigger ring[i].prev} :: 0 <= i < |ring| ==> ring[i].prev == if i == 0 then ring[|ring| - 1] else ring[i - 1])
    }

    ghost predicate Ordered()
      reads this
    {
      forall i, j :: 0 <= i < j < |live| ==> live[i].sequenceNumber <= live[j].sequenceNumber
    }

    ghost predicate Valid()
      reads this, head, live
    {
      Linked() && Ordered()
    }

    constructor ()
      ensures Valid() && live == [] && fresh(head)
    {
      head := new SnapshotImpl(0);
      live := [];
      new;
      head.prev := head;
      head.next := head;
    }

    method Empty() returns (b: bool)
      requires Valid()
      ensures b <==> live == []
    {
      assert Ring()[0] == head;
      b := head.next == head;
      assert live != [] ==> Ring()[1] == live[0];
    }

    method Oldest() returns (s: SnapshotImpl)
      requires Valid() && live != []
      ensures s == live[0]
      ensures forall t :: t in live ==> s.sequenceNumber <= t.sequenceNumber
    {
      assert Ring()[0] == head && Ring()[1] == live[0];
      s := head.next;
    }

    method Newest() returns (s: SnapshotImpl)
      requires Valid() && live != []
      ensures s == live[|live| - 1]
      ensures forall t :: t in live ==> t.sequenceNumber <= s.sequenceNumber
    {
      assert Ring()[0] == head && Ring()[|live|] == live[|live| - 1];
      s := head.prev;
    }

    /** Appends at the tail; the sequence number may not go back. */
    method New(sequenceNumber: SequenceNumber) returns (snapshot: SnapshotImpl)
      requires Valid()
      requires forall t :: t in live ==> t.sequenceNumber <= sequenceNumber
      modifies this, head, live
      ensures Valid()
      ensures fresh(snapshot) && snapshot.sequenceNumber == sequenceNumber
      ensures live == old(live) + [snapshot]
    {
      ghost var ring := Ring();
      assert ring[0] == head;
      snapshot := new SnapshotImpl(sequenceNumber);
      snapshot.next := head;
      snapshot.prev := head.prev;
      assert snapshot.prev == ring[|ring| - 1];
      snapshot.prev.next := snapshot;
      snapshot.next.prev := snapshot;
      live := live + [snapshot];
      assert Ring() == ring + [snapshot];
    }

    /** Unlinks a snapshot that New handed out. */
    method Delete(snapshot: SnapshotImpl, ghost k: nat)
      requires Valid()
      requires k < |live| && live[k] == snapshot
      modifies this, head, live
      ensures Valid()
      ensures live == old(live[..k] + live[k + 1..])
    {
      ghost var ring := Ring();
      ghost var after := if k + 2 == |ring| then 0 else k + 2;
      assert ring[k + 1] == snapshot && snapshot.prev == ring[k] && snapshot.next == ring[after];
      snapshot.prev.next := snapshot.next;
      snapshot.next.prev := snapshot.prev;
      forall i | 0 <= i < |ring| && i != k + 1
        ensures ring[i].next == if i == k then ring[after] else if i == |ring| - 1 then ring[0] else ring[i + 1]
        ensures ring[i].prev == if i == after then ring[k] else if i == 0 then ring[|ring| - 1] else ring[i - 1]
      {
        assert i != k ==> ring[i] != ring[k];
        assert i != after ==> ring[i] != ring[after];
        assert old(ring[i].next) == if i == |ring| - 1 then ring[0] else ring[i + 1];
        assert old(ring[i].prev) == if i == 0 then ring[|ring| - 1] else ring[i - 1];
      }
      live := live[..k] + live[k + 1..];
      RingWithout(old(live), k);
      OrderedWithout(old(live), k);
    }

    lemma OrderedWithout(nodes: seq<SnapshotImpl>, k: nat)
      requires k < |nodes| && live == nodes[..k] + nodes[k + 1..]
      requires forall i, j :: 0 <= i < j < |nodes| ==> nodes[i].sequenceNumber <= nodes[j].sequenceNumber
      ensures Ordered()
    {
    }

    /** The ring left after unlinking node `k` of `nodes` is linked again. */
    lemma RingWithout(nodes: seq<SnapshotImpl>, k: nat)
      requires k < |nodes| && live == nodes[..k] + nodes[k + 1..]
      requires var ring := [head] + nodes;
               var after := if k + 2 == |ring| then 0 else k + 2;
               && (forall i, j :: 0 <= i < j < |ring| ==> ring[i] != ring[j])
               && (forall i {:trigger ring[i].next} :: 0 <= i < |ring| && i != k + 1 ==>
                     ring[i].next == if i == k then ring[after] else if i == |ring| - 1 then ring[0] else ring[i + 1])
               && (forall i {:trigger ring[i].prev} :: 0 <= i < |ring| && i != k + 1 ==>
                     ring[i].prev == if i == after then ring[k] else if i == 0 then ring[|ring| - 1] else ring[i - 1])
      ensures Linked()
    {
      var ring, r := [head] + nodes, Ring();
      assert r == ring[..k + 1] + ring[k + 2..];
      forall i | 0 <= i < |r|
        ensures r[i].next == if i == |r| - 1 then r[0] else r[i + 1]
        ensures r[i].prev == if i == 0 then r[|r| - 1] else r[i - 1]
      {
        assert r[i] == ring[if i <= k then i else i + 1];
        assert i + 1 < |r| ==> r[i + 1] == ring[if i + 1 <= k then i + 1 else i + 2];
        assert i > 0 ==> r[i - 1] == ring[if i - 1 <= k then i - 1 else i];
      }
    }

    /** The choice made at the start of DoCompactionWork. */
    method SmallestSnapshot(lastSequence: SequenceNumber) returns (smallest: SequenceNumber)
      requires Valid()
      requires forall t :: t in live ==> t.sequenceNumber <= lastSequence
      ensures smallest <= lastSequence
      ensures forall t :: t in live ==> smallest <= t.sequenceNumber
      ensures smallest == lastSequence || exists t :: t in live && t.sequenceNumber == smallest
    {
      var empty := Empty();
      if empty {
        smallest := lastSequence;
      } else {
        var oldest := Oldest();
        smallest := oldest.sequenceNumber;
      }
    }
  }

  /** A compaction started under `list` changes no read through a live snapshot and none through a
      sequence number handed out later. */
  lemma LiveSnapshotsKeepTheirReads(list: SnapshotList, lastSequence: SequenceNumber, smallest: SequenceNumber,
                                    upper: set<Entry>, input: seq<Entry>, deeper: set<Entry>, isBaseLevel: UserKey -> bool)
    requires smallest <= lastSequence < MAX_SEQUENCE
    requires forall t :: t in list.live ==> smallest <= t.sequenceNumber
    requires Compaction.ProperlyLeveled(upper, input, deeper, isBaseLevel)
    requires forall e :: e in input ==> Parses(e)
    ensures var before := Compaction.Store(upper, input, deeper);
            var after := Compaction.Store(upper, Compaction.Survivors(input, |input|, smallest, isBaseLevel), deeper);
            forall k: UserKey, s: nat ::
              s >= lastSequence || (exists t :: t in list.live && t.sequenceNumber == s) ==>
                Read(before, k, s) == Read(after, k, s)
  {
    Compaction.ParsableInputPreservesReads(upper, input, deeper, smallest, isBaseLevel);
  }
}
