/** Group commit (DBImpl::Write and DBImpl::BuildBatchGroup).  Callers queue up; the one at the
    front commits a group of batches, its own first, with one log record, and wakes the rest. */
module CommitQueue {
  import opened Coding
  import opened WriteBatches

  /** One call of Write.  A null batch asks for a memtable switch only. */
  datatype Request = Batch(ops: seq<Op>, sync: bool) | NoBatch(sync: bool)

  function Ops(r: Request): seq<Op> {
    if r.Batch? then r.ops else []
  }

  function ByteSize(ops: seq<Op>): nat {
    HEADER + |OpsBytes(ops)|
  }

  function MaxSize(size: nat): nat {
    if size <= 0x2_0000 then size + 0x2_0000 else 0x10_0000
  }

  /** How many requests join a group that has the first `i` and `size` bytes of batches already. */
  function Extend(queue: seq<Request>, i: nat, size: nat, max: nat): (n: nat)
    requires 1 <= i <= |queue|
    ensures i <= n <= |queue|
    decreases |queue| - i
  {
    if i == |queue| || (queue[i].sync && !queue[0].sync) then i
    else if queue[i].NoBatch? then Extend(queue, i + 1, size, max)
    else if size + ByteSize(queue[i].ops) > max then i
    else Extend(queue, i + 1, size + ByteSize(queue[i].ops), max)
  }

  function GroupSize(queue: seq<Request>): (n: nat)
    requires queue != [] && queue[0].Batch?
    ensures 1 <= n <= |queue|
  {
    var size := ByteSize(queue[0].ops);
    Extend(queue, 1, size, MaxSize(size))
  }

  function GroupOps(group: seq<Request>): seq<Op> {
    if group == [] then [] else GroupOps(group[..|group| - 1]) + Ops(group[|group| - 1])
  }

  function GroupBytes(group: seq<Request>): nat {
    if group == [] then 0
    else GroupBytes(group[..|group| - 1]) + (var r := group[|group| - 1]; if r.Batch? then ByteSize(r.ops) else 0)
  }

  lemma GroupSnoc(queue: seq<Request>, n: nat)
    requires n < |queue|
    ensures GroupOps(queue[..n + 1]) == GroupOps(queue[..n]) + Ops(queue[n])
    ensures queue[n].NoBatch? ==> GroupOps(queue[..n + 1]) == GroupOps(queue[..n])
    ensures GroupBytes(queue[..n + 1]) == GroupBytes(queue[..n]) + if queue[n].Batch? then ByteSize(queue[n].ops) else 0
  {
    assert queue[..n + 1][..n] == queue[..n];
  }

  /** A sync request is never carried by a group that is not going to be synced. */
  predicate SyncRule(queue: seq<Request>, n: nat)
    requires 1 <= n <= |queue|
  {
    forall k :: 0 <= k < n && queue[k].sync ==> queue[0].sync
  }

  /** The group stops at the end of the queue, before a sync request it may not carry, or before a batch that is too much. */
  predicate StopsFor(queue: seq<Request>, n: nat, max: nat)
    requires 1 <= n <= |queue|
  {
    || n == |queue|
    || (queue[n].sync && !queue[0].sync)
    || (queue[n].Batch? && GroupBytes(queue[..n]) + ByteSize(queue[n].ops) > max)
  }

  lemma {:induction false} ExtendIsLongest(queue: seq<Request>, i: nat, size: nat, max: nat)
    requires 1 <= i <= |queue| && SyncRule(queue, i) && size == GroupBytes(queue[..i])
    ensures var n := Extend(queue, i, size, max);
            && SyncRule(queue, n) && StopsFor(queue, n, max)
            && (GroupBytes(queue[..n]) <= max || (GroupBytes(queue[..n]) == size && GroupOps(queue[..n]) == GroupOps(queue[..i])))
    decreases |queue| - i
  {
    hide ByteSize, GroupBytes, GroupOps;
    if i < |queue| && !(queue[i].sync && !queue[0].sync) {
      GroupSnoc(queue, i);
      if queue[i].NoBatch? {
        ExtendIsLongest(queue, i + 1, size, max);
      } else if size + ByteSize(queue[i].ops) <= max {
        ExtendIsLongest(queue, i + 1, size + ByteSize(queue[i].ops), max);
      }
    }
  }

  /** The group is the longest prefix of the queue that keeps the sync rule and, unless it carries the
      leader's batch alone, the size limit. */
  lemma GroupIsLongest(queue: seq<Request>)
    requires queue != [] && queue[0].Batch?
    ensures var n, max := GroupSize(queue), MaxSize(ByteSize(queue[0].ops));
            && SyncRule(queue, n) && StopsFor(queue, n, max)
            && (GroupBytes(queue[..n]) <= max || GroupOps(queue[..n]) == queue[0].ops)
  {
    var size := ByteSize(queue[0].ops);
    assert GroupSize(queue) == Extend(queue, 1, size, MaxSize(size));
    hide GroupBytes, GroupOps, GroupSize, Extend, StopsFor, ByteSize, MaxSize;
    FirstOfGroup(queue);
    ExtendIsLongest(queue, 1, size, MaxSize(size));
  }

  lemma FirstOfGroup(queue: seq<Request>)
    requires queue != [] && queue[0].Batch?
    ensures GroupBytes(queue[..1]) == ByteSize(queue[0].ops) && GroupOps(queue[..1]) == queue[0].ops
  {
    hide ByteSize;
    GroupSnoc(queue, 0);
    assert queue[..0] == [];
  }

  lemma {:induction false} OpsTakeBytes(ops: seq<Op>)
    ensures |OpsBytes(ops)| >= |ops|
  {
    if ops != [] {
      OpsTakeBytes(ops[1..]);
    }
  }

  lemma {:induction false} GroupTakesBytes(group: seq<Request>)
    ensures GroupBytes(group) >= |GroupOps(group)|
  {
    if group != [] {
      GroupTakesBytes(group[..|group| - 1]);
      OpsTakeBytes(Ops(group[|group| - 1]));
    }
  }

  /** Merging batches cannot overflow the count field: it fits if the leader's own count fits. */
  lemma GroupCountFits(queue: seq<Request>)
    requires queue != [] && queue[0].Batch? && |queue[0].ops| < 0x8000_0000
    ensures |GroupOps(queue[..GroupSize(queue)])| < 0x8000_0000
  {
    GroupIsLongest(queue);
    GroupTakesBytes(queue[..GroupSize(queue)]);
  }

  // ----- The queue in memory -----

  /** The contents of a batch are these updates, under some sequence number. */
  ghost predicate Carries(b: WriteBatch, ops: seq<Op>)
    reads b
  {
    exists s: Word64 :: b.rep == Layout(s, ops)
  }

  class Writer {
    const batch: WriteBatch?
    const sync: bool
    ghost const ops: seq<Op>
    var done: bool
    var status: bool
    var awake: bool  // not in cv.Wait(), or signalled since

    constructor (batch: WriteBatch?, sync: bool, ghost ops: seq<Op>)
      requires batch != null ==> Carries(batch, ops)
      ensures Valid() && AsRequest() == (if batch == null then NoBatch(sync) else Batch(ops, sync)) && !done && awake
      ensures this.batch == batch
    {
      this.batch, this.sync, this.ops := batch, sync, ops;
      done, status, awake := false, true, true;
    }

    ghost predicate Valid()
      reads this, batch
    {
      batch != null ==> Carries(batch, ops)
    }

    ghost function AsRequest(): Request {
      if batch == null then NoBatch(sync) else Batch(ops, sync)
    }
  }

  ghost function Requests(writers: seq<Writer>): (r: seq<Request>)
    ensures |r| == |writers|
  {
    seq(|writers|, i requires 0 <= i < |writers| => writers[i].AsRequest())
  }

  lemma LayoutSize(s: Word64, ops: seq<Op>)
    ensures |Layout(s, ops)| == ByteSize(ops) >= HEADER
  {
  }

  lemma CarriesLayout(b: WriteBatch, s: Word64)
    ensures forall ops: seq<Op> {:trigger Layout(s, ops)} :: b.rep == Layout(s, ops) ==> Carries(b, ops)
  {
  }

  lemma SizeOf(w: Writer)
    requires w.Valid() && w.batch != null
    ensures |w.batch.rep| == ByteSize(w.ops)
  {
    hide Layout, ByteSize;
    var s: Word64 :| w.batch.rep == Layout(s, w.ops);
    LayoutSize(s, w.ops);
  }

  lemma TailOfTail<T>(s: seq<T>, i: nat)
    requires i < |s|
    ensures s[i..][0] == s[i] && s[i..][1..] == s[i + 1..]
  {
  }

  class WriterQueue {
    var writers: seq<Writer>
    const tmpBatch: WriteBatch
    ghost var callers: set<Writer>  // everyone who ever joined

    constructor ()
      ensures Valid() && Woken() && writers == [] && callers == {}
    {
      writers, callers := [], {};
      tmpBatch := new WriteBatch();
    }

    ghost predicate Valid()
      reads this, writers, tmpBatch, set w | w in writers && w.batch != null :: w.batch
    {
      && (forall i, j :: 0 <= i < j < |writers| ==> writers[i] != writers[j])
      && (forall w :: w in writers ==> w.Valid() && w.batch != tmpBatch)
      && tmpBatch.rep == Layout(0, [])
    }

    /** Nobody sleeps without someone who will wake him: a caller that waits is queued behind a front that is
        awake, and a call that is done has been woken. */
    ghost predicate Woken()
      reads this, writers, callers
    {
      && (forall w :: w in writers ==> w in callers && !w.done)
      && (forall w :: w in callers && !w.awake ==> w in writers)
      && (writers != [] ==> writers[0].awake)
    }

    /** A caller joins the queue. */
    method Enqueue(w: Writer)
      requires Valid() && Woken() && w !in callers && w.Valid() && w.batch != tmpBatch && !w.done && w.awake
      modifies this
      ensures Valid() && Woken() && writers == old(writers) + [w] && callers == old(callers) + {w}
    {
      writers := writers + [w];
      callers := callers + {w};
    }

    /** The condition of the loop in Write: a caller waits on its own condition variable until it is done or at the front. */
    method WaitTurn(w: Writer) returns (goesOn: bool)
      requires Valid() && Woken() && w in callers && w.awake && (w.done || w in writers)
      modifies w`awake
      ensures Valid() && Woken()
      ensures goesOn <==> w.done || w == writers[0]
      ensures w.awake <==> goesOn
    {
      goesOn := w.done || w == writers[0];
      if !goesOn {
        w.awake := false;
      }
    }

    /** The batch to write so far: the leader's own, or the temporary one with the updates `joined`. */
    ghost predicate Holds(result: WriteBatch, first: Writer, joined: seq<Op>)
      reads tmpBatch
    {
      if result == first.batch then tmpBatch.rep == Layout(0, []) && joined == first.ops
      else result == tmpBatch && tmpBatch.rep == Layout(0, joined)
    }

    lemma HeldBatchCarries(result: WriteBatch, first: Writer, joined: seq<Op>)
      requires first.Valid() && first.batch != null && Holds(result, first, joined)
      ensures Carries(result, joined) && (result == tmpBatch || result == first.batch)
      ensures result == first.batch ==> tmpBatch.rep == Layout(0, [])
    {
      CarriesLayout(tmpBatch, 0);
    }

    method Join(result: WriteBatch, first: Writer, w: Writer, ghost joined: seq<Op>) returns (r: WriteBatch)
      requires first.Valid() && first.batch != null && first.batch != tmpBatch
      requires w.Valid() && w.batch != null && w.batch != tmpBatch
      requires Holds(result, first, joined)
      modifies tmpBatch
      ensures r == tmpBatch && tmpBatch.rep == Layout(0, joined + w.ops)
      ensures Holds(r, first, joined + w.ops)
    {
      hide Layout;
      ghost var s: Word64 :| w.batch.rep == Layout(s, w.ops);
      r := result;
      if result == first.batch {
        r := tmpBatch;
        ghost var s0: Word64 :| first.batch.rep == Layout(s0, first.ops);
        LayoutSize(0, []);
        LayoutSize(s0, first.ops);
        tmpBatch.Append(first.batch);
        assert [] + first.ops == first.ops;
      }
      LayoutSize(0, joined);
      LayoutSize(s, w.ops);
      tmpBatch.Append(w.batch);
    }

    /** A batch joins unless it makes the group too big. */
    method Admit(result: WriteBatch, first: Writer, w: Writer, size: nat, maxSize: nat, ghost joined: seq<Op>)
      returns (fits: bool, size': nat, r: WriteBatch)
      requires first.Valid() && first.batch != null && first.batch != tmpBatch
      requires w.Valid() && w.batch != null && w.batch != tmpBatch
      requires Holds(result, first, joined)
      modifies tmpBatch
      ensures size' == size + ByteSize(w.ops) && (fits <==> size' <= maxSize)
      ensures if fits then Holds(r, first, joined + w.ops) else r == result && unchanged(tmpBatch)
    {
      hide Holds, Layout, ByteSize;
      SizeOf(w);
      r := result;
      size' := size + |w.batch.rep|;
      fits := size' <= maxSize;
      if fits {
        r := Join(result, first, w, joined);
      }
    }

    /** The batch to write is the leader's own, or the temporary batch when others joined. */
    method BuildBatchGroup() returns (result: WriteBatch, lastWriter: Writer)
      requires Valid() && writers != [] && writers[0].batch != null
      modifies tmpBatch
      ensures var queue := Requests(writers);
              var n := GroupSize(queue);
              && lastWriter == writers[n - 1]
              && Carries(result, GroupOps(queue[..n]))
              && (result == tmpBatch || result == writers[0].batch)
              && (result != tmpBatch ==> tmpBatch.rep == Layout(0, []))
    {
      hide Layout, OpsBytes, GroupOps, GroupBytes, ByteSize, Carries;
      ghost var queue := Requests(writers);
      var first := writers[0];
      result := first.batch;
      SizeOf(first);
      var size: nat := |first.batch.rep|;
      var maxSize: nat := 0x10_0000;
      if size <= 0x2_0000 {
        maxSize := size + 0x2_0000;
      }
      lastWriter := first;
      assert GroupSize(queue) == Extend(queue, 1, size, maxSize);
      FirstOfGroup(queue);
      assert Holds(result, first, GroupOps(queue[..1]));
      hide GroupSize, MaxSize, Holds;
      var i := 1;
      while i < |writers|
        invariant 1 <= i <= |writers|
        invariant lastWriter == writers[i - 1]
        invariant Extend(queue, i, size, maxSize) == GroupSize(queue)
        invariant Holds(result, first, GroupOps(queue[..i]))
        invariant forall w :: w in writers ==> w.Valid()
      {
        var w := writers[i];
        GroupSnoc(queue, i);
        assert queue[i] == w.AsRequest();
        if w.sync && !first.sync {
          break;
        }
        if w.batch != null {
          var fits;
          fits, size, result := Admit(result, first, w, size, maxSize, GroupOps(queue[..i]));
          if !fits {
            break;
          }
        }
        lastWriter := w;
        i := i + 1;
      }
      HeldBatchCarries(result, first, GroupOps(queue[..i]));
    }

    /** The start of a commit: the group's batch is numbered from the last sequence on. */
    method StartGroup(lastSequence: Word64) returns (updates: WriteBatch, lastWriter: Writer, newLast: Word64)
      requires Valid() && writers != [] && writers[0].batch != null
      modifies tmpBatch, writers[0].batch
      ensures var queue := Requests(writers);
              var n := GroupSize(queue);
              && lastWriter == writers[n - 1]
              && updates.rep == Layout((lastSequence + 1) % TWO_64, GroupOps(queue[..n]))
              && (|writers[0].ops| < 0x8000_0000 ==> newLast == (lastSequence + |GroupOps(queue[..n])|) % TWO_64)
              && (updates != tmpBatch ==> tmpBatch.rep == Layout(0, []))
    {
      hide Layout, GroupOps, GroupSize, CountOf, SequenceOf, EncodeFixed, OpsBytes, Wrap;
      ghost var queue := Requests(writers);
      assert queue[0] == writers[0].AsRequest();
      updates, lastWriter := BuildBatchGroup();
      ghost var ops := GroupOps(queue[..GroupSize(queue)]);
      ghost var s: Word64 :| updates.rep == Layout(s, ops);
      LayoutSize(s, ops);
      updates.SetSequence((lastSequence + 1) % TWO_64);
      LayoutParts((lastSequence + 1) % TWO_64, ops);
      if |queue[0].ops| < 0x8000_0000 {
        GroupCountFits(queue);
      }
      SignedCount(CountOf(updates.rep), |ops|);
      newLast := (lastSequence + CountOf(updates.rep)) % TWO_64;
    }

    /** Takes the group off the queue, tells every other member how it went and wakes it, and wakes the new front. */
    method PopGroup(w: Writer, lastWriter: Writer, ghost n: nat, status: bool)
      requires 1 <= n <= |writers| && w == writers[0] && lastWriter == writers[n - 1]
      requires forall i, j :: 0 <= i < j < |writers| ==> writers[i] != writers[j]
      requires Woken()
      modifies this, writers
      ensures writers == old(writers[n..]) && callers == old(callers) && Woken()
      ensures forall i :: 1 <= i < n ==> old(writers[i]).done && old(writers[i]).status == status && old(writers[i]).awake
      ensures forall i :: n <= i < old(|writers|) ==>
                var q := old(writers[i]); q.status == old(q.status) && q.awake == (i == n || old(q.awake))
      ensures w.done == old(w.done) && w.status == old(w.status) && w.awake
    {
      ghost var queue := writers;
      PopMembers(w, lastWriter, n, status);
      forall c | c in callers && !c.awake ensures c in writers {
        if c in queue {
          var k :| 0 <= k < |queue| && queue[k] == c;
          assert k >= n && queue[n..][k - n] == c;
        }
      }
      if writers != [] {
        writers[0].awake := true;
      }
    }

    method PopMembers(w: Writer, lastWriter: Writer, ghost n: nat, status: bool)
      requires 1 <= n <= |writers| && w == writers[0] && lastWriter == writers[n - 1]
      requires forall i, j :: 0 <= i < j < |writers| ==> writers[i] != writers[j]
      modifies this`writers, writers
      ensures writers == old(writers[n..]) && unchanged(w)
      ensures forall i :: 1 <= i < n ==> old(writers[i]).done && old(writers[i]).status == status && old(writers[i]).awake
      ensures forall i :: n <= i < old(|writers|) ==> unchanged(old(writers[i]))
    {
      ghost var queue := writers;
      ghost var i := 0;
      while true
        invariant 0 <= i < n && writers == queue[i..] && unchanged(w)
        invariant forall k :: 1 <= k < i ==> queue[k].done && queue[k].status == status && queue[k].awake
        invariant forall k :: i <= k < |queue| ==> unchanged(queue[k])
        decreases n - i
      {
        var ready := Pop(w, status);
        TailOfTail(queue, i);
        i := i + 1;
        if ready == lastWriter {
          break;
        }
      }
    }

    /** The front leaves; unless it is the leader it is told how the commit went. */
    method Pop(w: Writer, status: bool) returns (ready: Writer)
      requires writers != []
      modifies this`writers, writers[0]
      ensures ready == old(writers[0]) && writers == old(writers[1..])
      ensures if ready == w then unchanged(ready) else ready.status == status && ready.done && ready.awake
    {
      ready := writers[0];
      writers := writers[1..];
      if ready != w {
        ready.status := status;
        ready.done := true;
        ready.awake := true;
      }
    }
  }
}
