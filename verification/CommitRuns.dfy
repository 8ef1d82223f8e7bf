/** Every interleaving of callers of DBImpl::Write, as steps taken while the mutex is held or by the
    one leader that works without it. */
module CommitRuns {
  import opened Basics
  import opened WriteBatches
  import opened CommitQueue

  /** How a call ended.  `first` is the sequence number its batch starts at, `record` the log record it is in. */
  datatype Outcome =
    | Rejected
    | Switched
    | Committed(first: nat, record: nat)
    | Failed(first: nat)

  datatype Stage = Logging | Syncing | Inserting(i: nat) | Finishing(ok: bool)

  datatype Phase = Free | Writing(group: nat, merged: bool, ops: seq<Op>, stage: Stage)

  datatype LogRecord = LogRecord(sequence: nat, ops: seq<Op>)

  /** `arrived` and `outcomes` record the history; the other fields are the database's own.
      `applied` is what the memtables hold, in insertion order; `synced` counts log records known to be on disk. */
  datatype State = State(
    queue: seq<Request>,
    tmp: seq<Op>,
    lastSequence: nat,
    applied: seq<(nat, Op)>,
    log: seq<LogRecord>,
    synced: nat,
    bgError: bool,
    phase: Phase,
    arrived: seq<Request>,
    outcomes: seq<Outcome>)

  predicate Init(s: State) {
    s == State([], [], s.lastSequence, [], [], 0, false, Free, [], [])
  }

  /** A caller takes the mutex and joins the queue; possible whenever the leader does not hold the mutex. */
  predicate Enqueue(s: State, t: State) {
    && |t.queue| > 0
    && var r := t.queue[|t.queue| - 1];
    t == s.(queue := s.queue + [r], arrived := s.arrived + [r])
  }

  /** MakeRoomForWrite fails, or the caller had no batch: only the front leaves. */
  predicate FrontAlone(s: State, t: State) {
    && s.phase.Free? && s.queue != []
    && (|| t == s.(queue := s.queue[1..], outcomes := s.outcomes + [Rejected])
        || (s.queue[0].NoBatch? && !s.bgError && t == s.(queue := s.queue[1..], outcomes := s.outcomes + [Switched])))
  }

  /** MakeRoomForWrite succeeds, which it does not after a sync error; the front becomes leader of a group. */
  predicate Lead(s: State, t: State) {
    && s.phase.Free? && s.queue != [] && s.queue[0].Batch? && !s.bgError
    && var n := GroupSize(s.queue);
    var merged := exists k :: 1 <= k < n && s.queue[k].Batch?;
    var tmp := if merged then s.tmp + GroupOps(s.queue[..n]) else s.tmp;
    t == s.(phase := Writing(n, merged, if merged then tmp else s.queue[0].ops, Logging), tmp := tmp)
  }

  predicate InStage(s: State, stage: Stage) {
    s.phase.Writing? && s.phase.stage == stage
  }

  /** AddRecord fails, with or without leaving a readable record behind, or succeeds. */
  predicate AddRecord(s: State, t: State) {
    && InStage(s, Logging) && s.queue != []
    && var log := s.log + [LogRecord(s.lastSequence + 1, s.phase.ops)];
       (|| t == s.(phase := s.phase.(stage := Finishing(false)))
        || t == s.(phase := s.phase.(stage := Finishing(false)), log := log)
        || t == s.(phase := s.phase.(stage := if s.queue[0].sync then Syncing else Inserting(0)),
                   log := log))
  }

  predicate Sync(s: State, t: State) {
    && InStage(s, Syncing)
    && (|| t == s.(phase := s.phase.(stage := Finishing(false)), bgError := true)
        || t == s.(phase := s.phase.(stage := Inserting(0)), synced := |s.log|))
  }

  /** One call of MemTable::Add by the inserter, or the end of the batch. */
  predicate Insert(s: State, t: State) {
    && s.phase.Writing? && s.phase.stage.Inserting?
    && var i, ops := s.phase.stage.i, s.phase.ops;
    if i < |ops| then
      t == s.(applied := s.applied + [(s.lastSequence + 1 + i, ops[i])], phase := s.phase.(stage := Inserting(i + 1)))
    else
      t == s.(phase := s.phase.(stage := Finishing(true)))
  }

  /** What the members of a group are told; the batch of each has its own part of the group's numbers. */
  function GroupOutcomes(group: seq<Request>, base: nat, record: nat, ok: bool): (r: seq<Outcome>)
    ensures |r| == |group|
  {
    if group == [] then []
    else
      var rest := GroupOutcomes(group[..|group| - 1], base, record, ok);
      var first := base + |GroupOps(group[..|group| - 1])|;
      rest + [if ok then Committed(first, record) else Failed(first)]
  }

  function LastRecord(s: State): nat {
    if s.log == [] then 0 else |s.log| - 1
  }

  /** With the mutex held again: clear the temporary batch, publish the last sequence, pop the group. */
  predicate Finish(s: State, t: State) {
    && s.phase.Writing? && s.phase.stage.Finishing?
    && s.phase.group <= |s.queue|
    && var n := s.phase.group;
    && t == s.(queue := s.queue[n..], tmp := if s.phase.merged then [] else s.tmp, lastSequence := s.lastSequence + |s.phase.ops|, phase := Free,
               outcomes := s.outcomes + GroupOutcomes(s.queue[..n], s.lastSequence + 1, LastRecord(s), s.phase.stage.ok))
  }

  /** A step of the caller at the front of the queue. */
  predicate FrontStep(s: State, t: State) {
    FrontAlone(s, t) || Lead(s, t) || AddRecord(s, t) || Sync(s, t) || Insert(s, t) || Finish(s, t)
  }

  predicate Step(s: State, t: State) {
    Enqueue(s, t) || FrontStep(s, t)
  }

  // ----- One at a time -----

  /** Entries as the inserter adds them: one sequence number per update. */
  function Numbered(sequence: nat, ops: seq<Op>): (r: seq<(nat, Op)>)
    ensures |r| == |ops|
  {
    seq(|ops|, i requires 0 <= i < |ops| => (sequence + i, ops[i]))
  }

  datatype Serial = Serial(applied: seq<(nat, Op)>, last: nat)

  /** One call more: its batch is applied on its own. */
  function Apply(s: Serial, r: Request, o: Outcome): Serial {
    match o
    case Rejected => s
    case Switched => s
    case Committed(_, _) => Serial(s.applied + Numbered(s.last + 1, Ops(r)), s.last + |Ops(r)|)
    case Failed(_) => Serial(s.applied, s.last + |Ops(r)|)
  }

  /** The simple way: take the requests in the order they arrived and apply each batch on its own. */
  function OneAtATime(start: nat, rs: seq<Request>, outcomes: seq<Outcome>): Serial
    requires |rs| == |outcomes|
  {
    if rs == [] then Serial([], start)
    else
      var n := |rs| - 1;
      Apply(OneAtATime(start, rs[..n], outcomes[..n]), rs[n], outcomes[n])
  }

  /** The numbers each call was given start right after those of the calls before it. */
  predicate InOrder(start: nat, rs: seq<Request>, outcomes: seq<Outcome>)
    requires |rs| == |outcomes|
  {
    rs == [] ||
      (var n := |rs| - 1;
       && InOrder(start, rs[..n], outcomes[..n])
       && (outcomes[n].Committed? || outcomes[n].Failed? ==>
             outcomes[n].first == OneAtATime(start, rs[..n], outcomes[..n]).last + 1))
  }

  lemma OneMore(start: nat, rs: seq<Request>, outcomes: seq<Outcome>, r: Request, o: Outcome)
    requires |rs| == |outcomes|
    ensures OneAtATime(start, rs + [r], outcomes + [o]) == Apply(OneAtATime(start, rs, outcomes), r, o)
    ensures InOrder(start, rs + [r], outcomes + [o]) <==>
              InOrder(start, rs, outcomes) &&
              (o.Committed? || o.Failed? ==> o.first == OneAtATime(start, rs, outcomes).last + 1)
  {
    hide Apply, Ops, Numbered;
    assert (rs + [r])[..|rs|] == rs && (outcomes + [o])[..|rs|] == outcomes;
  }

  lemma NumberedConcat(base: nat, a: seq<Op>, b: seq<Op>)
    ensures Numbered(base, a + b) == Numbered(base, a) + Numbered(base + |a|, b)
  {
  }

  /** Applying a group's merged batch is applying its members one at a time. */
  lemma {:induction false} GroupIsOneAtATime(start: nat, rs: seq<Request>, outcomes: seq<Outcome>,
                                             group: seq<Request>, record: nat, ok: bool)
    requires |rs| == |outcomes|
    ensures var s := OneAtATime(start, rs, outcomes);
            var t := OneAtATime(start, rs + group, outcomes + GroupOutcomes(group, s.last + 1, record, ok));
            && t.last == s.last + |GroupOps(group)|
            && t.applied == s.applied + if ok then Numbered(s.last + 1, GroupOps(group)) else []
    ensures InOrder(start, rs, outcomes) ==>
              InOrder(start, rs + group, outcomes + GroupOutcomes(group, OneAtATime(start, rs, outcomes).last + 1, record, ok))
    decreases |group|
  {
    hide Numbered, OneAtATime, InOrder, GroupOps, GroupOutcomes, Ops;
    var s := OneAtATime(start, rs, outcomes);
    if group == [] {
      Regroup(rs, group, group);
      Regroup(outcomes, [], []);
      Regroup(s.applied, [], []);
      EmptyGroup(s.last + 1, record, ok);
    } else {
      var init, r := group[..|group| - 1], group[|group| - 1];
      var outs := GroupOutcomes(init, s.last + 1, record, ok);
      var first := s.last + 1 + |GroupOps(init)|;
      var o := if ok then Committed(first, record) else Failed(first);
      GroupIsOneAtATime(start, rs, outcomes, init, record, ok);
      OneMore(start, rs + init, outcomes + outs, r, o);
      GroupUnfolds(group, s.last + 1, record, ok);
      Regroup(rs, init, [r]);
      Regroup(outcomes, outs, [o]);
      NumberedConcat(s.last + 1, GroupOps(init), Ops(r));
      Regroup(s.applied, Numbered(s.last + 1, GroupOps(init)), Numbered(first, Ops(r)));
    }
  }

  lemma EmptyGroup(base: nat, record: nat, ok: bool)
    ensures GroupOps([]) == [] && GroupOutcomes([], base, record, ok) == [] && Numbered(base, []) == []
  {
  }

  lemma GroupUnfolds(group: seq<Request>, base: nat, record: nat, ok: bool)
    requires group != []
    ensures var init, r := group[..|group| - 1], group[|group| - 1];
            var first := base + |GroupOps(init)|;
            && group == init + [r]
            && GroupOps(group) == GroupOps(init) + Ops(r)
            && GroupOutcomes(group, base, record, ok)
               == GroupOutcomes(init, base, record, ok) + [if ok then Committed(first, record) else Failed(first)]
  {
  }

  // ----- What holds in every reachable state -----

  ghost predicate HistoryOk(s: State) {
    && |s.outcomes| <= |s.arrived|
    && s.queue == s.arrived[|s.outcomes|..]
  }

  /** The calls that have returned, one at a time. */
  ghost function Settled(start: nat, s: State): Serial
    requires HistoryOk(s)
  {
    OneAtATime(start, s.arrived[..|s.outcomes|], s.outcomes)
  }

  /** The group's record is the newest in the log, and on disk if the leader asked for that. */
  ghost predicate Logged(s: State)
    requires s.phase.Writing? && s.queue != []
  {
    && s.log != []
    && s.log[|s.log| - 1] == LogRecord(s.lastSequence + 1, s.phase.ops)
    && (s.queue[0].sync ==> s.synced == |s.log|)
  }

  ghost predicate PhaseOk(s: State, settled: seq<(nat, Op)>) {
    match s.phase
    case Free => s.tmp == [] && s.applied == settled
    case Writing(n, merged, ops, stage) =>
      && 1 <= n <= |s.queue| && SyncRule(s.queue, n) && ops == GroupOps(s.queue[..n])
      && (!merged ==> s.tmp == [])
      && match stage
         case Logging => s.applied == settled
         case Syncing => s.applied == settled && s.log != [] && s.log[|s.log| - 1] == LogRecord(s.lastSequence + 1, ops)
         case Inserting(i) => i <= |ops| && s.applied == settled + Numbered(s.lastSequence + 1, ops[..i]) && Logged(s)
         case Finishing(ok) => s.applied == settled + (if ok then Numbered(s.lastSequence + 1, ops) else []) && (ok ==> Logged(s))
  }

  /** A committed call's batch lies in one log record under its own numbers, and that record is on disk if the call was sync. */
  ghost predicate InLog(r: Request, o: Outcome, log: seq<LogRecord>, synced: nat) {
    o.Committed? ==>
      && o.record < |log|
      && (r.sync ==> o.record < synced)
      && var l := log[o.record];
      && l.sequence <= o.first
      && var at := o.first - l.sequence;
      && at + |Ops(r)| <= |l.ops| && l.ops[at..at + |Ops(r)|] == Ops(r)
  }

  ghost predicate LogOk(s: State) {
    && s.synced <= |s.log|
    && |s.outcomes| <= |s.arrived|
    && forall k :: 0 <= k < |s.outcomes| ==> InLog(s.arrived[k], s.outcomes[k], s.log, s.synced)
  }

  /** The numbers of the log's records grow, up to the group under way. */
  ghost predicate LogSorted(s: State) {
    && (forall i, j :: 0 <= i < j < |s.log| ==> s.log[i].sequence + |s.log[i].ops| <= s.log[j].sequence)
    && var limit := s.lastSequence + 1 + if s.phase.Writing? && !s.phase.stage.Logging? then |s.phase.ops| else 0;
       forall i :: 0 <= i < |s.log| ==> 0 < s.log[i].sequence && s.log[i].sequence + |s.log[i].ops| <= limit
  }

  ghost predicate Inv(start: nat, s: State) {
    && HistoryOk(s)
    && s.lastSequence == Settled(start, s).last
    && InOrder(start, s.arrived[..|s.outcomes|], s.outcomes)
    && PhaseOk(s, Settled(start, s).applied)
    && LogOk(s) && LogSorted(s)
  }

  ghost predicate Run(start: nat, run: seq<State>) {
    && |run| > 0 && Init(run[0]) && run[0].lastSequence == start
    && forall k :: 0 <= k < |run| - 1 ==> Step(run[k], run[k + 1])
  }

  lemma EnqueueKeeps(start: nat, s: State, t: State)
    requires Inv(start, s) && Enqueue(s, t)
    ensures Inv(start, t)
  {
    hide OneAtATime, InOrder, GroupOps, Numbered, Ops;
    assert t.arrived[..|s.outcomes|] == s.arrived[..|s.outcomes|];
    assert s.phase.Writing? ==> t.queue[..s.phase.group] == s.queue[..s.phase.group];
  }

  lemma FrontAloneKeeps(start: nat, s: State, t: State)
    requires Inv(start, s) && FrontAlone(s, t)
    ensures Inv(start, t)
  {
    hide OneAtATime, InOrder, GroupOps, Numbered, Ops;
    var n := |s.outcomes|;
    assert s.queue[0] == s.arrived[n];
    assert t.arrived[..n + 1] == s.arrived[..n] + [s.arrived[n]];
    OneMore(start, s.arrived[..n], s.outcomes, s.arrived[n], t.outcomes[n]);
  }

  lemma LeadKeeps(start: nat, s: State, t: State)
    requires Inv(start, s) && Lead(s, t)
    ensures Inv(start, t)
  {
    hide OneAtATime, InOrder, GroupOps, GroupBytes, ByteSize, Extend, Numbered, Ops;
    var n := GroupSize(s.queue);
    GroupIsLongest(s.queue);
    Regroup([], GroupOps(s.queue[..n]), []);
    if !(exists k :: 1 <= k < n && s.queue[k].Batch?) {
      LoneBatch(s.queue, n);
    }
  }

  lemma {:induction false} LoneBatch(queue: seq<Request>, n: nat)
    requires 1 <= n <= |queue| && queue[0].Batch?
    requires forall k :: 1 <= k < n ==> queue[k].NoBatch?
    ensures GroupOps(queue[..n]) == queue[0].ops
  {
    GroupSnoc(queue, n - 1);
    if n == 1 {
      FirstOfGroup(queue);
    } else {
      LoneBatch(queue, n - 1);
    }
  }

  lemma LogGrows(r: Request, o: Outcome, log: seq<LogRecord>, synced: nat, more: seq<LogRecord>, synced': nat)
    requires InLog(r, o, log, synced) && synced <= synced'
    ensures InLog(r, o, log + more, synced')
  {
  }

  lemma AddRecordKeepsLog(s: State, t: State)
    requires LogOk(s) && LogSorted(s) && AddRecord(s, t)
    ensures LogOk(t) && LogSorted(t)
  {
    hide GroupOps, Ops, InLog;
    Regroup(s.log, [], []);
    var more := if t.log == s.log then [] else [LogRecord(s.lastSequence + 1, s.phase.ops)];
    forall k | 0 <= k < |t.outcomes| ensures InLog(t.arrived[k], t.outcomes[k], t.log, t.synced) {
      LogGrows(s.arrived[k], s.outcomes[k], s.log, s.synced, more, t.synced);
    }
  }

  lemma AddRecordKeeps(start: nat, s: State, t: State)
    requires Inv(start, s) && AddRecord(s, t)
    ensures Inv(start, t)
  {
    AddRecordKeepsLog(s, t);
    hide OneAtATime, InOrder, GroupOps, Ops, LogOk, LogSorted;
    Regroup(s.applied, [], []);
  }

  lemma SyncKeeps(start: nat, s: State, t: State)
    requires Inv(start, s) && Sync(s, t)
    ensures Inv(start, t)
  {
    hide OneAtATime, InOrder, GroupOps, Ops, InLog;
    Regroup(s.applied, [], []);
    forall k | 0 <= k < |t.outcomes| ensures InLog(t.arrived[k], t.outcomes[k], t.log, t.synced) {
      LogGrows(s.arrived[k], s.outcomes[k], s.log, s.synced, [], t.synced);
      Regroup(s.log, [], []);
    }
  }

  lemma InsertKeeps(start: nat, s: State, t: State)
    requires Inv(start, s) && Insert(s, t)
    ensures Inv(start, t)
  {
    hide OneAtATime, InOrder, GroupOps, Ops;
    var i, ops := s.phase.stage.i, s.phase.ops;
    if i < |ops| {
      assert Numbered(s.lastSequence + 1, ops[..i + 1])
          == Numbered(s.lastSequence + 1, ops[..i]) + [(s.lastSequence + 1 + i, ops[i])];
    } else {
      assert ops[..i] == ops;
    }
  }

  lemma {:induction false} GroupInLog(group: seq<Request>, base: nat, record: nat, ok: bool, log: seq<LogRecord>, synced: nat, k: nat)
    requires ok ==> record < |log| && log[record].sequence == base
    requires ok ==> |GroupOps(group)| <= |log[record].ops| && log[record].ops[..|GroupOps(group)|] == GroupOps(group)
    requires ok ==> forall j :: 0 <= j < |group| && group[j].sync ==> record < synced
    requires k < |group|
    ensures InLog(group[k], GroupOutcomes(group, base, record, ok)[k], log, synced)
    decreases |group|
  {
    hide GroupOps, GroupOutcomes, Ops;
    var init, r := group[..|group| - 1], group[|group| - 1];
    GroupUnfolds(group, base, record, ok);
    if ok {
      var a, b, whole := GroupOps(init), Ops(r), log[record].ops;
      assert whole[..|a + b|] == a + b;
      assert whole[..|a|] == a && whole[|a|..|a| + |b|] == b by {
        assert forall i :: 0 <= i < |a + b| ==> whole[i] == whole[..|a + b|][i];
      }
    }
    if k < |init| {
      GroupInLog(init, base, record, ok, log, synced, k);
    }
  }

  lemma FinishKeeps(start: nat, s: State, t: State)
    requires Inv(start, s) && Finish(s, t)
    ensures Inv(start, t)
  {
    hide OneAtATime, InOrder, GroupOps, GroupOutcomes, Ops, Numbered, InLog;
    var n, m, ok := s.phase.group, |s.outcomes|, s.phase.stage.ok;
    var group := s.queue[..n];
    var outs := GroupOutcomes(group, s.lastSequence + 1, LastRecord(s), ok);
    assert s.arrived[..m + n] == s.arrived[..m] + group;
    GroupIsOneAtATime(start, s.arrived[..m], s.outcomes, group, LastRecord(s), ok);
    assert t.queue == t.arrived[m + n..];
    assert ok ==> s.log[LastRecord(s)].ops[..|s.phase.ops|] == s.phase.ops;
    forall k | 0 <= k < |t.outcomes| ensures InLog(t.arrived[k], t.outcomes[k], t.log, t.synced) {
      if k < m {
        assert t.outcomes[k] == s.outcomes[k];
      } else {
        assert t.outcomes[k] == outs[k - m] && t.arrived[k] == group[k - m];
        GroupInLog(group, s.lastSequence + 1, LastRecord(s), ok, s.log, s.synced, k - m);
      }
    }
  }

  lemma StepKeeps(start: nat, s: State, t: State)
    requires Inv(start, s) && Step(s, t)
    ensures Inv(start, t)
  {
    hide Inv, Enqueue, FrontAlone, Lead, AddRecord, Sync, Insert, Finish;
    assert Enqueue(s, t) || FrontStep(s, t);
    if Enqueue(s, t) { EnqueueKeeps(start, s, t); }
    else if FrontAlone(s, t) { FrontAloneKeeps(start, s, t); }
    else if Lead(s, t) { LeadKeeps(start, s, t); }
    else if AddRecord(s, t) { AddRecordKeeps(start, s, t); }
    else if Sync(s, t) { SyncKeeps(start, s, t); }
    else if Insert(s, t) { InsertKeeps(start, s, t); }
    else { FinishKeeps(start, s, t); }
  }

  lemma {:induction false} RunKeeps(start: nat, run: seq<State>, k: nat)
    requires Run(start, run) && k < |run|
    ensures Inv(start, run[k])
    decreases k
  {
    hide Inv, Step;
    if k == 0 {
      InitKeeps(start, run[0]);
    } else {
      RunKeeps(start, run, k - 1);
      assert Step(run[k - 1], run[k - 1 + 1]);
      StepKeeps(start, run[k - 1], run[k]);
    }
  }

  lemma InitKeeps(start: nat, s: State)
    requires Init(s) && s.lastSequence == start
    ensures Inv(start, s)
  {
    assert s.arrived[..0] == [];
    assert InOrder(start, [], []);
  }

  /** Group commit is a FIFO linearisation: between groups the database is exactly what results from
      taking the calls one at a time in the order they queued up; a commit in progress has added a
      prefix of its group's updates.  Every committed batch is in the log, synced if that was asked. */
  lemma GroupCommitIsOneAtATime(start: nat, run: seq<State>, k: nat)
    requires Run(start, run) && k < |run|
    ensures var s := run[k];
            && HistoryOk(s) && LogOk(s) && LogSorted(s)
            && s.lastSequence == Settled(start, s).last
            && InOrder(start, s.arrived[..|s.outcomes|], s.outcomes)
            && Settled(start, s).applied <= s.applied
            && (s.phase.Free? ==> s.applied == Settled(start, s).applied && s.tmp == [])
  {
    hide OneAtATime, InOrder, GroupOps, Numbered, InLog;
    RunKeeps(start, run, k);
  }

  // ----- Every call is answered -----

  /** The states a commit passes through, counted down. */
  function StagesLeft(p: Phase): nat {
    match p
    case Free => 5
    case Writing(_, _, _, Logging) => 4
    case Writing(_, _, _, Syncing) => 3
    case Writing(_, _, _, Inserting(_)) => 2
    case Writing(_, _, _, Finishing(_)) => 1
  }

  function InsertsLeft(p: Phase): nat {
    if p.Writing? && p.stage.Inserting? && p.stage.i <= |p.ops| then |p.ops| - p.stage.i else 0
  }

  /** `t` is closer to the answer of the call that arrived as number `call`. */
  predicate Closer(s: State, t: State, call: nat) {
    || |t.outcomes| > call
    || |t.outcomes| > |s.outcomes|
    || (|t.outcomes| == |s.outcomes|
        && (|| StagesLeft(t.phase) < StagesLeft(s.phase)
            || (StagesLeft(t.phase) == StagesLeft(s.phase) && InsertsLeft(t.phase) < InsertsLeft(s.phase))))
  }

  /** No queued call waits for nothing: the caller at the front can always take a step, each such step brings
      every call in the queue closer to its answer, and newcomers do not put anyone back. */
  lemma CallsAreAnswered(start: nat, s: State, call: nat)
    requires Inv(start, s) && |s.outcomes| <= call < |s.arrived|
    ensures exists t :: FrontStep(s, t)
    ensures forall t :: FrontStep(s, t) ==> Closer(s, t, call)
    ensures forall t :: Enqueue(s, t) ==> t.outcomes == s.outcomes && t.phase == s.phase && t.arrived[call] == s.arrived[call]
  {
    hide OneAtATime, InOrder, GroupOps, GroupOutcomes, GroupSize, Numbered, Ops, InLog;
    FrontCanStep(start, s);
  }

  lemma FrontCanStep(start: nat, s: State)
    requires Inv(start, s) && s.queue != []
    ensures exists t :: FrontStep(s, t)
  {
    hide OneAtATime, InOrder, GroupOps, GroupOutcomes, GroupSize, Numbered, Ops, InLog;
    match s.phase {
      case Free =>
        assert FrontStep(s, s.(queue := s.queue[1..], outcomes := s.outcomes + [Rejected]));
      case Writing(_, _, ops, Logging) =>
        assert FrontStep(s, s.(phase := s.phase.(stage := Finishing(false))));
      case Writing(_, _, ops, Syncing) =>
        assert FrontStep(s, s.(phase := s.phase.(stage := Finishing(false)), bgError := true));
      case Writing(_, _, ops, Inserting(i)) =>
        if i < |ops| {
          assert FrontStep(s, s.(applied := s.applied + [(s.lastSequence + 1 + i, ops[i])], phase := s.phase.(stage := Inserting(i + 1))));
        } else {
          assert FrontStep(s, s.(phase := s.phase.(stage := Finishing(true))));
        }
      case Writing(n, merged, ops, Finishing(ok)) =>
        assert FrontStep(s, s.(queue := s.queue[n..], tmp := if merged then [] else s.tmp,
                               lastSequence := s.lastSequence + |ops|, phase := Free,
                               outcomes := s.outcomes + GroupOutcomes(s.queue[..n], s.lastSequence + 1, LastRecord(s), ok)));
    }
  }

  /** Every update of a committed batch is there, under consecutive numbers from the batch's own. */
  lemma {:induction false} BatchIsWhole(start: nat, rs: seq<Request>, outcomes: seq<Outcome>, k: nat, j: nat)
    requires |rs| == |outcomes| && InOrder(start, rs, outcomes)
    requires k < |rs| && outcomes[k].Committed? && j < |Ops(rs[k])|
    ensures var x := (outcomes[k].first + j, Ops(rs[k])[j]);
            && x in OneAtATime(start, rs, outcomes).applied
            && start < x.0 <= OneAtATime(start, rs, outcomes).last
    decreases |rs|
  {
    var n := |rs| - 1;
    if k < n {
      BatchIsWhole(start, rs[..n], outcomes[..n], k, j);
    } else {
      NumbersAreBounded(start, rs[..n], outcomes[..n]);
      assert Numbered(outcomes[k].first, Ops(rs[k]))[j] == (outcomes[k].first + j, Ops(rs[k])[j]);
    }
  }

  lemma {:induction false} NumbersAreBounded(start: nat, rs: seq<Request>, outcomes: seq<Outcome>)
    requires |rs| == |outcomes|
    ensures start <= OneAtATime(start, rs, outcomes).last
    ensures forall x :: x in OneAtATime(start, rs, outcomes).applied ==> x.0 <= OneAtATime(start, rs, outcomes).last
  {
    if rs != [] {
      NumbersAreBounded(start, rs[..|rs| - 1], outcomes[..|rs| - 1]);
    }
  }

  /** What a reader sees that took its snapshot in state `s`. */
  ghost predicate SeesExactly(snapshot: nat, applied: seq<(nat, Op)>, settled: seq<(nat, Op)>) {
    forall x :: x in applied && x.0 <= snapshot <==> x in settled
  }

  ghost predicate Undisturbed(start: nat, s: State, snapshot: nat, settled: seq<(nat, Op)>) {
    && snapshot <= s.lastSequence
    && settled <= s.applied
    && forall i :: |settled| <= i < |s.applied| ==> s.applied[i].0 > snapshot
  }

  lemma StepIsUndisturbing(start: nat, s: State, t: State, snapshot: nat, settled: seq<(nat, Op)>)
    requires Step(s, t) && Undisturbed(start, s, snapshot, settled)
    ensures Undisturbed(start, t, snapshot, settled)
  {
    hide GroupOps, GroupSize, GroupOutcomes;
  }

  lemma StartsUndisturbed(start: nat, s: State)
    requires Inv(start, s)
    ensures Undisturbed(start, s, s.lastSequence, Settled(start, s).applied)
  {
    hide OneAtATime, InOrder, GroupOps, InLog;
  }

  lemma {:induction false} StaysUndisturbed(start: nat, run: seq<State>, i: nat, k: nat)
    requires Run(start, run) && i <= k < |run|
    ensures HistoryOk(run[i]) && Undisturbed(start, run[k], run[i].lastSequence, Settled(start, run[i]).applied)
    decreases k
  {
    hide Step, PhaseOk, LogOk, Undisturbed, OneAtATime;
    RunKeeps(start, run, i);
    if i == k {
      StartsUndisturbed(start, run[i]);
    } else {
      StaysUndisturbed(start, run, i, k - 1);
      assert Step(run[k - 1], run[k - 1 + 1]);
      StepIsUndisturbing(start, run[k - 1], run[k], run[i].lastSequence, Settled(start, run[i]).applied);
    }
  }

  /** Batches are atomic for readers: whenever a snapshot was taken, and whenever the memtable is read,
      even between two inserts of a leader, the updates seen are those of the calls that had returned
      when the snapshot was taken, each batch whole and no other batch at all. */
  lemma SnapshotsSeeWholeBatches(start: nat, run: seq<State>, i: nat, k: nat)
    requires Run(start, run) && i <= k < |run|
    ensures HistoryOk(run[i])
    ensures SeesExactly(run[i].lastSequence, run[k].applied, Settled(start, run[i]).applied)
  {
    hide Step, PhaseOk, LogOk, OneAtATime;
    RunKeeps(start, run, i);
    StaysUndisturbed(start, run, i, k);
    var snapshot, applied, settled := run[i].lastSequence, run[k].applied, Settled(start, run[i]).applied;
    NumbersAreBounded(start, run[i].arrived[..|run[i].outcomes|], run[i].outcomes);
    forall x ensures x in applied && x.0 <= snapshot <==> x in settled {
      if x in settled {
        var j :| 0 <= j < |settled| && settled[j] == x;
        assert applied[j] == x;
      }
      if x in applied && x.0 <= snapshot {
        var j :| 0 <= j < |applied| && applied[j] == x;
        assert settled[j] == x;
      }
    }
  }
}
