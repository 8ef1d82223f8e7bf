/** What survives a crash: logs, tables, the manifest, memtable switches, background compactions and
    file deletion (DBImpl), as steps between which the process may stop at any point.

    Updates are named by their sequence numbers.  A table is the set of updates it accounts for: an
    entry that a compaction drops counts as accounted for by its outputs.  The crash is one of the
    process, so bytes handed to the file system stay.  A log is the list of batches its reader returns.  It is `sound` as
    long as its writer is in step with the file: every trailer is whole, and what failed calls have left out is nothing or
    whole blocks.  Once it is not, further batches are `doubtful`: the reader may miss any of them. */
module Durability {
  import opened Basics

  datatype Batch = Batch(first: nat, count: nat)

  datatype Log = Log(records: seq<Batch>, doubtful: seq<Batch>, sound: bool)

  /** The state that the manifest file describes. */
  datatype Manifest = Manifest(live: set<nat>, logNumber: nat, nextFile: nat, lastSequence: nat)

  datatype Disk = Disk(logs: map<nat, Log>, tables: map<nat, set<nat>>, manifest: Manifest)

  /** An edit that LogAndApply is writing, the mutex released. */
  datatype Edit = Edit(add: set<nat>, remove: set<nat>, logNumber: nat, nextFile: nat, lastSequence: nat, flushes: bool)

  /** WriteLevel0Table for the immutable memtable: reserved but not written, or written and no longer pending. */
  datatype Flush = NoFlush | Building(number: nat) | Built(add: set<nat>)

  datatype Merge = NoMerge | Merging(inputs: set<nat>, outputs: set<nat>, written: set<nat>)

  datatype Memory = Memory(
    live: set<nat>, logNumber: nat, nextFile: nat, lastSequence: nat,
    older: seq<set<nat>>, pending: set<nat>, bgError: bool,
    logfile: nat, mem: set<nat>, imm: Option<set<nat>>,
    writing: Option<Batch>, flush: Flush, merge: Merge, edit: Option<Edit>)

  /** Recover: the logs still to be replayed, what the reader returns for the first of them, and the tables made so far. */
  datatype Recovery = Recovery(todo: seq<nat>, reading: bool, current: seq<Batch>, at: nat, mem: set<nat>,
                               add: set<nat>, nextFile: nat, maxSequence: nat)

  datatype Process = Down | Recovering(r: Recovery) | Up(m: Memory)

  /** `promised` collects the updates acknowledged to callers, except those written to a log that is not sound; these
      are promised once their memtable has become a table. */
  datatype System = System(disk: Disk, process: Process, promised: set<nat>)

  predicate InBatch(b: Batch, q: nat) {
    b.first <= q < b.first + b.count
  }

  predicate InRecords(rs: seq<Batch>, q: nat) {
    exists i :: 0 <= i < |rs| && InBatch(rs[i], q)
  }

  predicate InTables(tables: map<nat, set<nat>>, numbers: set<nat>, q: nat) {
    exists n :: n in numbers && n in tables && q in tables[n]
  }

  function Updates(b: Batch): set<nat> {
    set q | b.first <= q < b.first + b.count && InBatch(b, q)
  }

  predicate Bounded(numbers: set<nat>, limit: nat) {
    forall n :: n in numbers ==> n < limit
  }

  // ----- Writers -----

  /** A log after a call of AddRecord for `b`: the call may put the writer out of step, and the batch is there or not. */
  predicate Appended(log: Log, log': Log, b: Batch, there: bool) {
    && (log'.sound ==> log.sound)
    && log' == if log'.sound then log.(records := log.records + if there then [b] else [])
               else log.(sound := false, doubtful := log.doubtful + if there then [b] else [])
  }

  /** The leader's AddRecord succeeds.  Even then a trailer may have been cut short. */
  predicate AppendRecord(s: System, t: System) {
    && s.process.Up?
    && var m := s.process.m;
    && m.writing.None? && !m.bgError && m.logfile in s.disk.logs && m.logfile in t.disk.logs
    && t.process.Up? && t.process.m.writing.Some?
    && var b, log := t.process.m.writing.value, t.disk.logs[m.logfile];
    && b.first == m.lastSequence + 1 && Appended(s.disk.logs[m.logfile], log, b, true)
    && t == s.(disk := s.disk.(logs := s.disk.logs[m.logfile := log]), process := Up(m.(writing := Some(b))))
  }

  /** AddRecord fails: nothing is inserted, but the sequence numbers are used up.  The writer may still be in step, and all
      bytes of the batch may have reached the file. */
  predicate AppendFails(s: System, t: System, there: bool) {
    && s.process.Up?
    && var m := s.process.m;
    && m.writing.None? && !m.bgError && m.logfile in s.disk.logs && m.logfile in t.disk.logs
    && t.process.Up? && t.process.m.lastSequence >= m.lastSequence
    && var b, log := Batch(m.lastSequence + 1, t.process.m.lastSequence - m.lastSequence), t.disk.logs[m.logfile];
    && Appended(s.disk.logs[m.logfile], log, b, there)
    && t == s.(disk := s.disk.(logs := s.disk.logs[m.logfile := log]),
               process := Up(m.(lastSequence := t.process.m.lastSequence)))
  }

  /** Sync and insertion succeed and the callers are told so. */
  predicate Acknowledge(s: System, t: System) {
    && s.process.Up?
    && var m := s.process.m;
    && m.writing.Some? && m.logfile in s.disk.logs
    && var b := m.writing.value;
    t == s.(process := Up(m.(writing := None, mem := m.mem + Updates(b), lastSequence := m.lastSequence + b.count)),
            promised := if s.disk.logs[m.logfile].sound then s.promised + Updates(b) else s.promised)
  }

  predicate SyncFails(s: System, t: System) {
    && s.process.Up?
    && var m := s.process.m;
    && m.writing.Some?
    && t == s.(process := Up(m.(writing := None, lastSequence := m.lastSequence + m.writing.value.count, bgError := true)))
  }

  /** MakeRoomForWrite switches to a new log and memtable; the old log is closed without a sync. */
  predicate SwitchMemtable(s: System, t: System) {
    && s.process.Up?
    && var m := s.process.m;
    && m.writing.None? && !m.bgError && m.imm.None?
    && t == s.(disk := s.disk.(logs := s.disk.logs[m.nextFile := Log([], [], true)]),
               process := Up(m.(logfile := m.nextFile, nextFile := m.nextFile + 1, imm := Some(m.mem), mem := {})))
  }

  // ----- The background thread -----

  predicate StartFlush(s: System, t: System) {
    && s.process.Up?
    && var m := s.process.m;
    && m.imm.Some? && m.flush.NoFlush? && m.edit.None?
    && t == s.(process := Up(m.(flush := Building(m.nextFile), pending := m.pending + {m.nextFile}, nextFile := m.nextFile + 1)))
  }

  /** BuildTable; an empty memtable makes no table.  The number stops being pending before the edit is applied. */
  predicate FinishBuild(s: System, t: System) {
    && s.process.Up?
    && var m := s.process.m;
    && m.flush.Building? && m.imm.Some? && m.edit.None?
    && var n := m.flush.number;
    if m.imm.value == {} then
      t == s.(process := Up(m.(flush := Built({}), pending := m.pending - {n})))
    else
      t == s.(disk := s.disk.(tables := s.disk.tables[n := m.imm.value]),
              process := Up(m.(flush := Built({n}), pending := m.pending - {n})))
  }

  predicate BuildFails(s: System, t: System) {
    && s.process.Up?
    && var m := s.process.m;
    && m.flush.Building? && m.edit.None?
    && t == s.(process := Up(m.(flush := NoFlush, pending := m.pending - {m.flush.number}, bgError := true)))
  }

  /** CompactMemTable hands its edit to LogAndApply: logs before the current one are no longer needed. */
  predicate BeginFlushEdit(s: System, t: System) {
    && s.process.Up?
    && var m := s.process.m;
    && m.flush.Built? && m.edit.None?
    && t == s.(process := Up(m.(edit := Some(Edit(m.flush.add, {}, m.logfile, m.nextFile, m.lastSequence, true)))))
  }

  predicate StartMerge(s: System, t: System) {
    && s.process.Up?
    && var m := s.process.m;
    && m.merge.NoMerge? && m.flush.NoFlush? && m.edit.None?
    && t.process.Up? && t.process.m.merge.Merging?
    && var inputs := t.process.m.merge.inputs;
    && inputs <= m.live
    && t == s.(process := Up(m.(merge := Merging(inputs, {}, {}))))
  }

  predicate OpenOutput(s: System, t: System) {
    && s.process.Up?
    && var m := s.process.m;
    && m.merge.Merging? && m.edit.None?
    && t == s.(process := Up(m.(merge := m.merge.(outputs := m.merge.outputs + {m.nextFile}),
                                pending := m.pending + {m.nextFile}, nextFile := m.nextFile + 1)))
  }

  predicate WriteOutput(s: System, t: System, n: nat) {
    && s.process.Up?
    && var m := s.process.m;
    && m.merge.Merging? && m.edit.None? && n in m.merge.outputs - m.merge.written
    && n in t.disk.tables
    && t == s.(disk := s.disk.(tables := s.disk.tables[n := t.disk.tables[n]]),
               process := Up(m.(merge := m.merge.(written := m.merge.written + {n}))))
  }

  /** A compaction that fails before its edit, or is cut off by a shutdown: its outputs are given up. */
  predicate MergeFails(s: System, t: System) {
    && s.process.Up?
    && var m := s.process.m;
    && m.merge.Merging? && m.flush.NoFlush? && m.edit.None?
    && t == s.(process := Up(m.(merge := NoMerge, pending := m.pending - m.merge.outputs, bgError := true)))
  }

  /** The outputs account for exactly what the inputs did. */
  ghost predicate SameUpdates(tables: map<nat, set<nat>>, a: set<nat>, b: set<nat>) {
    forall q: nat :: InTables(tables, a, q) <==> InTables(tables, b, q)
  }

  ghost predicate BeginMergeEdit(s: System, t: System) {
    && s.process.Up?
    && var m := s.process.m;
    && m.merge.Merging? && m.merge.written == m.merge.outputs && m.flush.NoFlush? && m.edit.None?
    && SameUpdates(s.disk.tables, m.merge.inputs, m.merge.outputs)
    && t == s.(process := Up(m.(edit := Some(
                Edit(m.merge.outputs, m.merge.inputs, m.logNumber, m.nextFile, m.lastSequence, false)))))
  }

  function Edited(live: set<nat>, e: Edit): set<nat> {
    live - e.remove + e.add
  }

  function Apply(manifest: Manifest, e: Edit): Manifest {
    Manifest(Edited(manifest.live, e), e.logNumber, e.nextFile, e.lastSequence)
  }

  /** The job that asked for the edit is over. */
  function JobDone(m: Memory): Memory
    requires m.edit.Some?
  {
    var done := m.(edit := None);
    if m.edit.value.flushes then done.(flush := NoFlush)
    else done.(merge := NoMerge, pending := m.pending - (if m.merge.Merging? then m.merge.outputs else {}))
  }

  /** LogAndApply returns.  On success disk and memory agree on the new version; on failure the record may have
      reached the disk or not, and the error is recorded. */
  predicate EndEdit(s: System, t: System) {
    && s.process.Up?
    && var m := s.process.m;
    && m.edit.Some?
    && var e := m.edit.value;
    var disk' := s.disk.(manifest := Apply(s.disk.manifest, e));
    || (&& t.disk == disk'
        && t.process == Up(JobDone(m).(live := Edited(m.live, e), logNumber := e.logNumber,
                                       imm := if e.flushes then None else m.imm))
        && t.promised == if e.flushes && m.imm.Some? then s.promised + m.imm.value else s.promised)
    || (&& (t.disk == s.disk || t.disk == disk')
        && t.process == Up(JobDone(m).(bgError := true))
        && t.promised == s.promised)
  }

  /** A reader takes or drops a reference to a version. */
  predicate Reference(s: System, t: System) {
    && s.process.Up? && t.process.Up?
    && var m := s.process.m;
    && (t.process.m.older == m.older + [m.live] || forall v :: v in t.process.m.older ==> v in m.older)
    && t == s.(process := Up(m.(older := t.process.m.older)))
  }

  /** What DeleteObsoleteFiles keeps: logs from LogNumber on, tables of any referenced version, and pending outputs. */
  predicate KeepLog(m: Memory, n: nat) {
    n >= m.logNumber
  }

  predicate KeepTable(m: Memory, n: nat) {
    n in m.live || n in m.pending || exists v :: v in m.older && n in v
  }

  /** One deletion; the background thread deletes only when it has no edit under way and no unprotected new table. */
  predicate MayDelete(m: Memory) {
    !m.bgError && m.edit.None? && !m.flush.Built?
  }

  predicate DeleteLog(s: System, t: System, n: nat) {
    && s.process.Up? && MayDelete(s.process.m) && !KeepLog(s.process.m, n)
    && t == s.(disk := s.disk.(logs := s.disk.logs - {n}))
  }

  predicate DeleteTable(s: System, t: System, n: nat) {
    && s.process.Up? && MayDelete(s.process.m) && !KeepTable(s.process.m, n)
    && t == s.(disk := s.disk.(tables := s.disk.tables - {n}))
  }

  // ----- Crash and recovery -----

  /** An edit under way may have reached the manifest. */
  predicate Crash(s: System, t: System) {
    && t.process.Down? && t.promised == s.promised
    && (|| t.disk == s.disk
        || (s.process.Up? && s.process.m.edit.Some?
            && t.disk == s.disk.(manifest := Apply(s.disk.manifest, s.process.m.edit.value))))
  }

  predicate Ascending(ns: seq<nat>) {
    forall i, j :: 0 <= i < j < |ns| ==> ns[i] < ns[j]
  }

  /** The logs that recovery replays: those from the manifest's log number on, oldest first. */
  ghost predicate LogsToReplay(disk: Disk, todo: seq<nat>) {
    && Ascending(todo)
    && forall n: nat :: n in todo <==> n in disk.logs && n >= disk.manifest.logNumber
  }

  ghost predicate BeginRecover(s: System, t: System) {
    && s.process.Down? && s.disk.manifest.live <= s.disk.tables.Keys
    && t.process.Recovering?
    && LogsToReplay(s.disk, t.process.r.todo)
    && t == s.(process := Recovering(Recovery(t.process.r.todo, false, [], 0, {}, {}, s.disk.manifest.nextFile, 0)))
  }

  /** What the log reader may return. */
  predicate Reads(log: Log, rs: seq<Batch>) {
    && log.records <= rs
    && (log.sound ==> rs == log.records)
    && forall b :: b in rs[|log.records|..] ==> b in log.doubtful
  }

  predicate OpenLog(s: System, t: System) {
    && s.process.Recovering? && t.process.Recovering?
    && var r := s.process.r;
    && r.todo != [] && !r.reading && r.todo[0] in s.disk.logs
    && Reads(s.disk.logs[r.todo[0]], t.process.r.current)
    && t == s.(process := Recovering(r.(reading := true, current := t.process.r.current, at := 0)))
  }

  function Max(a: nat, b: nat): nat {
    if a < b then b else a
  }

  predicate ReplayRecord(s: System, t: System) {
    && s.process.Recovering?
    && var r := s.process.r;
    && r.reading && r.at < |r.current| && r.current[r.at].first + r.current[r.at].count > 0
    && var b := r.current[r.at];
    t == s.(process := Recovering(r.(mem := r.mem + Updates(b), at := r.at + 1,
                                     maxSequence := Max(r.maxSequence, b.first + b.count - 1))))
  }

  /** WriteLevel0Table during recovery, when the memtable is full or its log is finished. */
  predicate FlushRecovered(s: System, t: System) {
    && s.process.Recovering?
    && var r := s.process.r;
    && r.mem != {}
    && t == s.(disk := s.disk.(tables := s.disk.tables[r.nextFile := r.mem]),
               process := Recovering(r.(mem := {}, add := r.add + {r.nextFile}, nextFile := r.nextFile + 1)))
  }

  predicate CloseLog(s: System, t: System) {
    && s.process.Recovering?
    && var r := s.process.r;
    && r.reading && r.at == |r.current| && r.mem == {} && r.todo != []
    && t == s.(process := Recovering(r.(todo := r.todo[1..], reading := false, nextFile := Max(r.nextFile, r.todo[0] + 1))))
  }

  function Opened(manifest: Manifest): Memory {
    Memory(manifest.live, manifest.logNumber, manifest.nextFile, manifest.lastSequence, [], {}, false,
           manifest.logNumber, {}, None, None, NoFlush, NoMerge, None)
  }

  /** A new log is made and the recovered tables are installed together with its number. */
  predicate FinishRecover(s: System, t: System) {
    && s.process.Recovering?
    && var r := s.process.r;
    && r.todo == [] && r.mem == {}
    && var n := r.nextFile;
    var disk := s.disk.(logs := s.disk.logs[n := Log([], [], true)]);
    var manifest := Manifest(s.disk.manifest.live + r.add, n, n + 1, Max(s.disk.manifest.lastSequence, r.maxSequence));
    && t.promised == s.promised
    && (|| (t.disk == disk && t.process == Down)
        || (t.disk == disk.(manifest := manifest) && (t.process == Down || t.process == Up(Opened(manifest)))))
  }

  ghost predicate Step(s: System, t: System) {
    || AppendRecord(s, t) || (exists there :: AppendFails(s, t, there)) || Acknowledge(s, t) || SyncFails(s, t) || SwitchMemtable(s, t)
    || StartFlush(s, t) || FinishBuild(s, t) || BuildFails(s, t) || BeginFlushEdit(s, t)
    || StartMerge(s, t) || OpenOutput(s, t) || (exists n :: WriteOutput(s, t, n)) || MergeFails(s, t) || BeginMergeEdit(s, t) || EndEdit(s, t)
    || Reference(s, t) || (exists n :: DeleteLog(s, t, n)) || (exists n :: DeleteTable(s, t, n))
    || Crash(s, t) || BeginRecover(s, t) || OpenLog(s, t) || ReplayRecord(s, t) || FlushRecovered(s, t)
    || CloseLog(s, t) || FinishRecover(s, t)
  }
}
