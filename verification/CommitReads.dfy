/** What reads return while calls of DBImpl::Write interleave with them. */
module CommitReads {
  import opened History
  import opened WriteBatches
  import opened CommitQueue
  import opened CommitRuns

  /** The memtable entries of the updates inserted so far. */
  ghost function Inserted(rank: Bytes -> UserKey, applied: seq<(nat, Op)>): set<Entry>
    requires forall x :: x in applied ==> x.0 <= MAX_SEQUENCE
  {
    set x | x in applied :: EntryFor(rank, x.0, x.1)
  }

  /** A plain map from keys to values after the same updates, one by one. */
  function PlainRead(rank: Bytes -> UserKey, applied: seq<(nat, Op)>, k: UserKey): Lookup {
    if applied == [] then NotFound
    else
      var op := applied[|applied| - 1].1;
      if rank(op.key) != k then PlainRead(rank, applied[..|applied| - 1], k)
      else if op.Put? then Found(op.value) else NotFound
  }

  ghost predicate Increasing(applied: seq<(nat, Op)>) {
    forall i, j :: 0 <= i < j < |applied| ==> applied[i].0 < applied[j].0
  }

  lemma LastIsNewest(rank: Bytes -> UserKey, earlier: seq<(nat, Op)>, last: (nat, Op), s: nat)
    requires Increasing(earlier + [last]) && forall x :: x in earlier + [last] ==> x.0 <= s && x.0 <= MAX_SEQUENCE
    ensures last in earlier + [last]
    ensures var e := EntryFor(rank, last.0, last.1); IsNewest(Inserted(rank, earlier + [last]), e.key, s, e)
  {
    var applied := earlier + [last];
    assert applied[|earlier|] == last;
    forall o | o in Inserted(rank, applied) && o != EntryFor(rank, last.0, last.1) ensures o.sequence < last.0 {
      var x :| x in applied && o == EntryFor(rank, x.0, x.1);
      var j :| 0 <= j < |applied| && applied[j] == x;
    }
  }

  /** With growing numbers the newest entry is the last update. */
  lemma {:induction false} ReadIsPlainRead(rank: Bytes -> UserKey, applied: seq<(nat, Op)>, k: UserKey, s: nat)
    requires Increasing(applied) && forall x :: x in applied ==> x.0 <= s && x.0 <= MAX_SEQUENCE
    ensures Read(Inserted(rank, applied), k, s) == PlainRead(rank, applied, k)
  {
    hide Read, Inserted, IsNewest;
    if applied == [] {
      NothingInserted(rank, k, s);
    } else {
      var n := |applied| - 1;
      var earlier, last := applied[..n], applied[n];
      assert applied == earlier + [last];
      var e := EntryFor(rank, last.0, last.1);
      if e.key == k {
        LastIsNewest(rank, earlier, last, s);
        ReadIsNewest(Inserted(rank, applied), k, s, e);
      } else {
        ReadIsPlainRead(rank, earlier, k, s);
        InsertedSnoc(rank, earlier, last);
        SameVisibleSameRead(Inserted(rank, applied), Inserted(rank, earlier), k, s);
      }
    }
  }

  lemma NothingInserted(rank: Bytes -> UserKey, k: UserKey, s: nat)
    ensures Read(Inserted(rank, []), k, s) == NotFound
  {
    assert Inserted(rank, []) == {};
  }

  lemma InsertedSnoc(rank: Bytes -> UserKey, applied: seq<(nat, Op)>, x: (nat, Op))
    requires forall y :: y in applied + [x] ==> y.0 <= MAX_SEQUENCE
    ensures Inserted(rank, applied + [x]) == Inserted(rank, applied) + {EntryFor(rank, x.0, x.1)}
    ensures forall y :: y in applied ==> y in applied + [x]
  {
    assert x in applied + [x];
    assert forall y :: y in applied ==> y in applied + [x];
  }

  lemma {:induction false} SettledIncreases(start: nat, rs: seq<Request>, outcomes: seq<Outcome>)
    requires |rs| == |outcomes|
    ensures Increasing(OneAtATime(start, rs, outcomes).applied)
  {
    if rs != [] {
      var n := |rs| - 1;
      SettledIncreases(start, rs[..n], outcomes[..n]);
      NumbersAreBounded(start, rs[..n], outcomes[..n]);
      var s := OneAtATime(start, rs[..n], outcomes[..n]);
      assert forall i :: 0 <= i < |s.applied| ==> s.applied[i] in s.applied;
    }
  }

  /** Batches are atomic for readers: a Get at a snapshot taken in state `i` of a run returns, whenever
      later it reads the memtable, the value a plain map holds after the calls that had returned by then,
      taken one at a time in the order they queued up. */
  lemma GetsSeeWholeBatches(start: nat, run: seq<State>, i: nat, k: nat, rank: Bytes -> UserKey, key: UserKey)
    requires Run(start, run) && i <= k < |run|
    requires forall x :: x in run[k].applied ==> x.0 <= MAX_SEQUENCE
    ensures HistoryOk(run[i])
    ensures Read(Inserted(rank, run[k].applied), key, run[i].lastSequence)
         == PlainRead(rank, Settled(start, run[i]).applied, key)
  {
    hide Run, OneAtATime, PlainRead, Read;
    SnapshotsSeeWholeBatches(start, run, i, k);
    var s := run[i];
    var settled := Settled(start, s).applied;
    SettledIncreases(start, s.arrived[..|s.outcomes|], s.outcomes);
    assert forall x :: x in settled ==> x in run[k].applied && x.0 <= s.lastSequence;
    ReadIsPlainRead(rank, settled, key, s.lastSequence);
    SameVisibleSameRead(Inserted(rank, run[k].applied), Inserted(rank, settled), key, s.lastSequence);
  }
}
