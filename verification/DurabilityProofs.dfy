/** What holds in every state of every run of the database, crashes and recoveries included. */
module DurabilityProofs {
  import opened Durability

  // ----- The invariants -----

  /** Every update in these tables is at most `limit`. */
  ghost predicate TablesUpTo(tables: map<nat, set<nat>>, numbers: set<nat>, limit: nat) {
    forall q: nat :: InTables(tables, numbers, q) ==> q <= limit
  }

  predicate UpTo(updates: set<nat>, limit: nat) {
    forall q :: q in updates ==> q <= limit
  }

  /** The update is in some log from `from` on, among the records a reader is sure to return. */
  predicate InLogs(logs: map<nat, Log>, from: nat, q: nat) {
    exists n :: n in logs && n >= from && InRecords(logs[n].records, q)
  }

  /** What Recover would find: the tables of the manifest and the logs from its log number on. */
  predicate Recoverable(disk: Disk, q: nat) {
    InTables(disk.tables, disk.manifest.live, q) || InLogs(disk.logs, disk.manifest.logNumber, q)
  }

  ghost predicate Promised(s: System) {
    forall q :: q in s.promised ==> Recoverable(s.disk, q)
  }

  ghost predicate DiskOk(disk: Disk) {
    && disk.manifest.live <= disk.tables.Keys
    && Bounded(disk.manifest.live, disk.manifest.nextFile)
    && disk.manifest.logNumber < disk.manifest.nextFile
    && TablesUpTo(disk.tables, disk.manifest.live, disk.manifest.lastSequence)
  }

  /** File numbers: everything in use is below the next one, and a number that is being written is in no version. */
  ghost predicate NumbersOk(disk: Disk, m: Memory) {
    && m.logfile in disk.logs
    && m.logNumber <= disk.manifest.logNumber <= m.logfile
    && Bounded(disk.logs.Keys, m.nextFile)
    && Bounded(m.live, m.nextFile)
    && disk.manifest.nextFile <= m.nextFile
    && (forall v :: v in m.older ==> Bounded(v, m.nextFile))
    && (m.flush.Building? ==> m.flush.number < m.nextFile && NotInUse(disk, m, m.flush.number))
    && (m.merge.Merging? ==>
          && Bounded(m.merge.outputs, m.nextFile)
          && m.merge.written <= m.merge.outputs
          && (forall n :: n in m.merge.outputs ==> NotInUse(disk, m, n)))
    && (m.flush.Building? && m.merge.Merging? ==> m.flush.number !in m.merge.outputs)
    && (m.flush.Built? && m.merge.Merging? ==> m.flush.add !! m.merge.outputs)
    && (m.flush.Built? ==> Bounded(m.flush.add, m.nextFile))
  }

  predicate NotInUse(disk: Disk, m: Memory, n: nat) {
    n !in m.live && n !in disk.manifest.live && forall v :: v in m.older ==> n !in v
  }

  /** No file of a referenced version and no finished output is missing. */
  ghost predicate FilesOk(disk: Disk, m: Memory) {
    && m.live <= disk.tables.Keys
    && (forall v :: v in m.older ==> v <= disk.tables.Keys)
    && (m.merge.Merging? ==> m.merge.written <= disk.tables.Keys && m.merge.inputs <= m.live && m.merge.outputs <= m.pending)
    && (m.flush.Building? ==> m.flush.number in m.pending)
    && (m.flush.Built? ==>
          && m.imm.Some? && m.flush.add <= disk.tables.Keys
          && forall q :: q in m.imm.value <==> InTables(disk.tables, m.flush.add, q))
  }

  /** Without a background error, memory knows what the manifest says. */
  ghost predicate Agrees(disk: Disk, m: Memory) {
    !m.bgError ==> disk.manifest.live == m.live && disk.manifest.logNumber == m.logNumber
  }

  /** An edit under way would keep the disk in order. */
  ghost predicate EditOk(disk: Disk, m: Memory) {
    m.edit.Some? ==>
      var e := m.edit.value;
      && e.add <= disk.tables.Keys
      && m.logNumber <= e.logNumber < e.nextFile <= m.nextFile && e.logNumber <= m.logfile
      && Bounded(disk.manifest.live, e.nextFile) && Bounded(m.live, e.nextFile) && Bounded(e.add, e.nextFile)
      && e.lastSequence <= m.lastSequence
      && TablesUpTo(disk.tables, disk.manifest.live, e.lastSequence)
      && TablesUpTo(disk.tables, e.add, e.lastSequence)
      && if e.flushes then
           m.flush == Built(e.add) && e.remove == {} && e.logNumber == m.logfile && m.imm.Some?
         else
           && m.flush.NoFlush? && m.merge == Merging(e.remove, e.add, e.add) && e.logNumber == m.logNumber
           && SameUpdates(disk.tables, e.remove, e.add)
  }

  ghost predicate SequencesOk(disk: Disk, m: Memory) {
    && disk.manifest.lastSequence <= m.lastSequence
    && UpTo(m.mem, m.lastSequence)
    && (m.imm.Some? ==> UpTo(m.imm.value, m.lastSequence))
    && TablesUpTo(disk.tables, m.live, m.lastSequence)
    && (m.writing.Some? ==>
          && m.writing.value.first == m.lastSequence + 1
          && (m.logfile in disk.logs && disk.logs[m.logfile].sound ==> m.writing.value in disk.logs[m.logfile].records))
  }

  predicate InImm(m: Memory, q: nat) {
    m.imm.Some? && q in m.imm.value
  }

  /** Readers find every promised update, and the part of it that is in no table is in the right logs. */
  ghost predicate Served(s: System, m: Memory)
    requires m.logfile in s.disk.logs
  {
    && (forall q :: q in s.promised ==> InTables(s.disk.tables, m.live, q) || InImm(m, q) || q in m.mem)
    && (forall q :: q in s.promised ==>
          || InTables(s.disk.tables, s.disk.manifest.live, q) || InImm(m, q)
          || InRecords(s.disk.logs[m.logfile].records, q))
  }

  ghost predicate UpOk(s: System, m: Memory) {
    && NumbersOk(s.disk, m) && FilesOk(s.disk, m) && Agrees(s.disk, m) && EditOk(s.disk, m) && SequencesOk(s.disk, m)
    && Served(s, m)
  }

  ghost predicate RecoveryNumbersOk(disk: Disk, r: Recovery) {
    && disk.manifest.nextFile <= r.nextFile
    && r.add <= disk.tables.Keys && Bounded(r.add, r.nextFile)
    && r.add !! disk.manifest.live
    && TablesUpTo(disk.tables, r.add, r.maxSequence) && UpTo(r.mem, r.maxSequence)
    && Ascending(r.todo)
    && (forall n :: n in r.todo ==> n in disk.logs && n >= disk.manifest.logNumber)
    && (forall n :: n in disk.logs && n >= disk.manifest.logNumber && n !in r.todo ==> n < r.nextFile)
    && (r.reading ==> r.todo != [] && r.at <= |r.current|)
  }

  /** A promised update not yet in a table of the manifest has been gathered, or is still to be replayed. */
  predicate Gathered(disk: Disk, r: Recovery, q: nat) {
    || InTables(disk.tables, disk.manifest.live, q)
    || InTables(disk.tables, r.add, q)
    || q in r.mem
    || (r.reading && r.at <= |r.current| && InRecords(r.current[r.at..], q))
    || exists i :: (if r.reading then 1 else 0) <= i < |r.todo| && r.todo[i] in disk.logs && InRecords(disk.logs[r.todo[i]].records, q)
  }

  ghost predicate RecoveringOk(s: System, r: Recovery) {
    && RecoveryNumbersOk(s.disk, r)
    && forall q :: q in s.promised ==> Gathered(s.disk, r, q)
  }

  ghost predicate Inv(s: System) {
    && DiskOk(s.disk) && Promised(s)
    && match s.process
       case Down => true
       case Recovering(r) => RecoveringOk(s, r)
       case Up(m) => UpOk(s, m)
  }

  // ----- Writers -----

  lemma RecordsGrow(a: seq<Batch>, b: seq<Batch>, q: nat)
    requires a <= b && InRecords(a, q)
    ensures InRecords(b, q)
  {
    var i :| 0 <= i < |a| && InBatch(a[i], q);
    assert b[i] == a[i];
  }

  /** Changing one log so that its records stay a prefix loses nothing. */
  lemma LogGrows(s: System, t: System, n: nat, log: Log)
    requires Promised(s) && t.promised == s.promised
    requires t.disk == s.disk.(logs := s.disk.logs[n := log])
    requires n in s.disk.logs ==> s.disk.logs[n].records <= log.records
    ensures Promised(t)
  {
    forall q | q in t.promised ensures Recoverable(t.disk, q) {
      assert Recoverable(s.disk, q);
      if !InTables(s.disk.tables, s.disk.manifest.live, q) {
        var k :| k in s.disk.logs && k >= s.disk.manifest.logNumber && InRecords(s.disk.logs[k].records, q);
        if k == n {
          RecordsGrow(s.disk.logs[n].records, log.records, q);
        }
        assert k in t.disk.logs && InRecords(t.disk.logs[k].records, q);
      }
    }
  }

  lemma AppendKeeps(s: System, t: System)
    requires Inv(s) && (AppendRecord(s, t) || exists there :: AppendFails(s, t, there))
    ensures Inv(t)
  {
    hide InRecords, InTables, Recoverable;
    var m := s.process.m;
    LogGrows(s, t, m.logfile, t.disk.logs[m.logfile]);
    forall q | q in s.promised && InRecords(s.disk.logs[m.logfile].records, q)
      ensures InRecords(t.disk.logs[m.logfile].records, q)
    {
      RecordsGrow(s.disk.logs[m.logfile].records, t.disk.logs[m.logfile].records, q);
    }
  }

  lemma AcknowledgeKeeps(s: System, t: System)
    requires Inv(s) && Acknowledge(s, t)
    ensures Inv(t)
  {
    hide InTables;
    var m := s.process.m;
    var b := m.writing.value;
    if s.disk.logs[m.logfile].sound {
      var i :| 0 <= i < |s.disk.logs[m.logfile].records| && s.disk.logs[m.logfile].records[i] == b;
      forall q | q in Updates(b) ensures InRecords(s.disk.logs[m.logfile].records, q) {
        assert InBatch(s.disk.logs[m.logfile].records[i], q);
      }
      forall q | q in t.promised ensures Recoverable(t.disk, q) {
        if q in Updates(b) {
          assert m.logfile in s.disk.logs && InRecords(s.disk.logs[m.logfile].records, q);
        } else {
          assert Recoverable(s.disk, q);
        }
      }
    }
  }

  lemma SyncFailsKeeps(s: System, t: System)
    requires Inv(s) && SyncFails(s, t)
    ensures Inv(t)
  {
    hide InRecords, InTables, Recoverable;
  }

  lemma SwitchKeeps(s: System, t: System)
    requires Inv(s) && SwitchMemtable(s, t)
    ensures Inv(t)
  {
    hide InRecords, InTables, Recoverable;
    LogGrows(s, t, s.process.m.nextFile, Log([], [], true));
  }

  // ----- The background thread -----

  /** A table written under a number outside `numbers` does not matter to them. */
  lemma OtherTable(tables: map<nat, set<nat>>, tables': map<nat, set<nat>>, n: nat, numbers: set<nat>)
    requires n !in numbers
    requires forall k :: k in tables && k != n ==> k in tables' && tables'[k] == tables[k]
    requires forall k :: k in tables' && k != n ==> k in tables
    ensures forall q: nat :: InTables(tables', numbers, q) <==> InTables(tables, numbers, q)
  {
    forall q: nat ensures InTables(tables', numbers, q) <==> InTables(tables, numbers, q) {
      if InTables(tables, numbers, q) {
        var k :| k in numbers && k in tables && q in tables[k];
        assert k in tables' && q in tables'[k];
      }
      if InTables(tables', numbers, q) {
        var k :| k in numbers && k in tables' && q in tables'[k];
        assert k in tables && q in tables[k];
      }
    }
  }

  lemma ThisTable(tables: map<nat, set<nat>>, n: nat)
    ensures n in tables ==> forall q: nat :: InTables(tables, {n}, q) <==> q in tables[n]
    ensures forall q: nat :: !InTables(tables, {}, q)
  {
  }

  lemma ReserveKeeps(s: System, t: System)
    requires Inv(s) && (StartFlush(s, t) || StartMerge(s, t) || OpenOutput(s, t) || BuildFails(s, t) || MergeFails(s, t))
    ensures Inv(t)
  {
    hide InRecords, InTables, Recoverable, SameUpdates;
  }

  /** Writing a table under a number that is in no version keeps everything about the disk. */
  lemma NewTableKeepsDisk(disk: Disk, n: nat, content: set<nat>, promised: set<nat>)
    requires DiskOk(disk) && n !in disk.manifest.live
    requires forall q :: q in promised ==> Recoverable(disk, q)
    ensures var disk' := disk.(tables := disk.tables[n := content]);
            DiskOk(disk') && forall q :: q in promised ==> Recoverable(disk', q)
  {
    hide InTables, InLogs;
    var disk' := disk.(tables := disk.tables[n := content]);
    OtherTable(disk.tables, disk'.tables, n, disk.manifest.live);
    assert disk'.manifest.live <= disk'.tables.Keys;
    assert TablesUpTo(disk'.tables, disk.manifest.live, disk.manifest.lastSequence);
    forall q | q in promised ensures Recoverable(disk', q) {
      assert Recoverable(disk, q);
    }
  }

  lemma FinishBuildKeeps(s: System, t: System)
    requires Inv(s) && FinishBuild(s, t)
    ensures Inv(t)
  {
    hide InRecords, InTables, Recoverable, SameUpdates;
    var m := s.process.m;
    var n, content := m.flush.number, m.imm.value;
    ThisTable(t.disk.tables, n);
    if content != {} {
      NewTableKeepsDisk(s.disk, n, content, s.promised);
      OtherTable(s.disk.tables, t.disk.tables, n, s.disk.manifest.live);
      OtherTable(s.disk.tables, t.disk.tables, n, m.live);
    }
  }

  lemma BeginFlushEditKeeps(s: System, t: System)
    requires Inv(s) && BeginFlushEdit(s, t)
    ensures Inv(t)
  {
    hide InRecords, InTables, Recoverable, SameUpdates;
  }

  lemma WriteOutputKeeps(s: System, t: System, n: nat)
    requires Inv(s) && WriteOutput(s, t, n)
    ensures Inv(t)
  {
    hide InRecords, InTables, Recoverable, SameUpdates;
    var m := s.process.m;
    var content := t.disk.tables[n];
    NewTableKeepsDisk(s.disk, n, content, s.promised);
    OtherTable(s.disk.tables, t.disk.tables, n, s.disk.manifest.live);
    OtherTable(s.disk.tables, t.disk.tables, n, m.live);
    if m.flush.Built? {
      OtherTable(s.disk.tables, t.disk.tables, n, m.flush.add);
    }
  }

  lemma SubsetOfTables(tables: map<nat, set<nat>>, a: set<nat>, b: set<nat>, limit: nat)
    requires a <= b && TablesUpTo(tables, b, limit)
    ensures TablesUpTo(tables, a, limit)
  {
    forall q: nat | InTables(tables, a, q) ensures q <= limit {
      var n :| n in a && n in tables && q in tables[n];
      assert InTables(tables, b, q);
    }
  }

  lemma BeginMergeEditKeeps(s: System, t: System)
    requires Inv(s) && BeginMergeEdit(s, t)
    ensures Inv(t)
  {
    hide InRecords, InTables, Recoverable;
    var m := s.process.m;
    SubsetOfTables(s.disk.tables, m.merge.inputs, m.live, m.lastSequence);
  }

  /** The edited version has the updates of the old one and those of the added tables, as long as the removed
      tables are accounted for by the added ones. */
  lemma EditedTables(tables: map<nat, set<nat>>, live: set<nat>, e: Edit, q: nat)
    requires e.remove == {} || SameUpdates(tables, e.remove, e.add)
    ensures InTables(tables, live, q) || InTables(tables, e.add, q) ==> InTables(tables, Edited(live, e), q)
    ensures InTables(tables, Edited(live, e), q) ==> InTables(tables, live, q) || InTables(tables, e.add, q)
  {
    if InTables(tables, e.add, q) {
      var n :| n in e.add && n in tables && q in tables[n];
      assert n in Edited(live, e);
    } else if InTables(tables, live, q) {
      var n :| n in live && n in tables && q in tables[n];
      if n in e.remove {
        assert InTables(tables, e.remove, q);
      } else {
        assert n in Edited(live, e);
      }
    }
    if InTables(tables, Edited(live, e), q) {
      var n :| n in Edited(live, e) && n in tables && q in tables[n];
      assert n in live || n in e.add;
    }
  }

  /** The manifest may take the edit at any moment from now on. */
  lemma EditKeepsDisk(s: System, m: Memory)
    requires DiskOk(s.disk) && Promised(s) && UpOk(s, m) && m.edit.Some?
    ensures var e := m.edit.value;
            var disk := s.disk.(manifest := Apply(s.disk.manifest, e));
            && DiskOk(disk)
            && (forall q :: q in s.promised ==> Recoverable(disk, q))
            && (e.flushes ==> forall q :: q in m.imm.value ==> Recoverable(disk, q))
  {
    hide InRecords, InTables;
    var e := m.edit.value;
    var disk := s.disk.(manifest := Apply(s.disk.manifest, e));
    forall q: nat ensures
        && (InTables(disk.tables, s.disk.manifest.live, q) || InTables(disk.tables, e.add, q) ==> InTables(disk.tables, disk.manifest.live, q))
        && (InTables(disk.tables, disk.manifest.live, q) ==> InTables(disk.tables, s.disk.manifest.live, q) || InTables(disk.tables, e.add, q))
    {
      EditedTables(s.disk.tables, s.disk.manifest.live, e, q);
    }
    forall q | q in s.promised ensures Recoverable(disk, q) {
      if e.flushes {
        assert InRecords(s.disk.logs[m.logfile].records, q) ==> InLogs(disk.logs, e.logNumber, q);
      } else if InLogs(s.disk.logs, s.disk.manifest.logNumber, q) {
        var n :| n in s.disk.logs && n >= s.disk.manifest.logNumber && InRecords(s.disk.logs[n].records, q);
      }
    }
  }

  lemma EndEditKeeps(s: System, t: System)
    requires Inv(s) && EndEdit(s, t)
    ensures Inv(t)
  {
    hide InRecords, InTables, Recoverable, SameUpdates;
    var m := s.process.m;
    var e := m.edit.value;
    EditKeepsDisk(s, m);
    forall q: nat ensures
        && (InTables(s.disk.tables, m.live, q) || InTables(s.disk.tables, e.add, q) ==> InTables(s.disk.tables, Edited(m.live, e), q))
        && (InTables(s.disk.tables, Edited(m.live, e), q) ==> InTables(s.disk.tables, m.live, q) || InTables(s.disk.tables, e.add, q))
        && ((InTables(s.disk.tables, s.disk.manifest.live, q) || InTables(s.disk.tables, e.add, q)) ==>
              InTables(s.disk.tables, Edited(s.disk.manifest.live, e), q))
    {
      EditedTables(s.disk.tables, m.live, e, q);
      EditedTables(s.disk.tables, s.disk.manifest.live, e, q);
    }
    assert Edited(m.live, e) <= t.disk.tables.Keys;
  }

  lemma ReferenceKeeps(s: System, t: System)
    requires Inv(s) && Reference(s, t)
    ensures Inv(t)
  {
    hide InRecords, InTables, Recoverable, SameUpdates;
    var m := s.process.m;
    if t.process.m.older == m.older + [m.live] {
      forall v | v in t.process.m.older ensures v in m.older || v == m.live {
      }
    }
  }

  /** A deleted log holds nothing that recovery would need. */
  lemma DeleteLogKeeps(s: System, t: System, n: nat)
    requires Inv(s) && DeleteLog(s, t, n)
    ensures Inv(t)
  {
    hide InRecords, InTables, SameUpdates;
    var m := s.process.m;
    forall q | q in t.promised ensures Recoverable(t.disk, q) {
      assert Recoverable(s.disk, q);
      if InLogs(s.disk.logs, s.disk.manifest.logNumber, q) {
        var k :| k in s.disk.logs && k >= s.disk.manifest.logNumber && InRecords(s.disk.logs[k].records, q);
        assert k in t.disk.logs && InRecords(t.disk.logs[k].records, q);
      }
    }
  }

  /** A deleted table is neither in a version nor an output that is still needed. */
  lemma DeleteTableKeeps(s: System, t: System, n: nat)
    requires Inv(s) && DeleteTable(s, t, n)
    ensures Inv(t)
  {
    hide InRecords, InTables, Recoverable, SameUpdates;
    var m := s.process.m;
    OtherTable(s.disk.tables, t.disk.tables, n, m.live);
    forall q | q in t.promised ensures Recoverable(t.disk, q) {
      assert Recoverable(s.disk, q);
      RecoverableIs(s.disk, q);
      RecoverableIs(t.disk, q);
    }
    forall v | v in m.older ensures n !in v {
    }
  }

  lemma RecoverableIs(disk: Disk, q: nat)
    ensures Recoverable(disk, q) <==>
              InTables(disk.tables, disk.manifest.live, q) || InLogs(disk.logs, disk.manifest.logNumber, q)
  {
  }

  // ----- Crash and recovery -----

  lemma CrashKeeps(s: System, t: System)
    requires Inv(s) && Crash(s, t)
    ensures Inv(t)
  {
    if t.disk != s.disk {
      EditKeepsDisk(s, s.process.m);
    }
  }

  lemma BeginRecoverKeeps(s: System, t: System)
    requires Inv(s) && BeginRecover(s, t)
    ensures Inv(t)
  {
    hide InRecords, InTables;
    var r := t.process.r;
    assert forall q: nat :: !InTables(t.disk.tables, {}, q) by { ThisTable(t.disk.tables, 0); }
    forall q | q in t.promised ensures Gathered(t.disk, r, q) {
      assert Recoverable(s.disk, q);
      if InLogs(s.disk.logs, s.disk.manifest.logNumber, q) {
        var n :| n in s.disk.logs && n >= s.disk.manifest.logNumber && InRecords(s.disk.logs[n].records, q);
        assert n in r.todo;
        var i :| 0 <= i < |r.todo| && r.todo[i] == n;
      }
    }
  }

  lemma OpenLogKeeps(s: System, t: System)
    requires Inv(s) && OpenLog(s, t)
    ensures Inv(t)
  {
    hide InRecords, InTables, Recoverable;
    var r, r' := s.process.r, t.process.r;
    forall q | q in t.promised ensures Gathered(t.disk, r', q) {
      assert Gathered(s.disk, r, q);
      if i :| 0 <= i < |r.todo| && r.todo[i] in s.disk.logs && InRecords(s.disk.logs[r.todo[i]].records, q) {
        if i == 0 {
          RecordsGrow(s.disk.logs[r.todo[0]].records, r'.current, q);
          assert r'.current[0..] == r'.current;
        }
      }
    }
  }

  lemma FirstRecord(rs: seq<Batch>, at: nat, q: nat)
    requires at < |rs| && InRecords(rs[at..], q)
    ensures InBatch(rs[at], q) || InRecords(rs[at + 1..], q)
  {
    var i :| 0 <= i < |rs[at..]| && InBatch(rs[at..][i], q);
    if i > 0 {
      assert rs[at + 1..][i - 1] == rs[at..][i];
    }
  }

  lemma ReplayRecordKeeps(s: System, t: System)
    requires Inv(s) && ReplayRecord(s, t)
    ensures Inv(t)
  {
    hide InRecords, InTables, Recoverable;
    var r, r' := s.process.r, t.process.r;
    forall q: nat | InTables(s.disk.tables, r.add, q) ensures q <= r'.maxSequence {
    }
    forall q | q in t.promised ensures Gathered(t.disk, r', q) {
      assert Gathered(s.disk, r, q);
      if InRecords(r.current[r.at..], q) {
        FirstRecord(r.current, r.at, q);
      }
    }
  }

  lemma FlushRecoveredKeeps(s: System, t: System)
    requires Inv(s) && FlushRecovered(s, t)
    ensures Inv(t)
  {
    hide InRecords, InTables, Recoverable;
    var r, r' := s.process.r, t.process.r;
    var n := r.nextFile;
    NewTableKeepsDisk(s.disk, n, r.mem, s.promised);
    OtherTable(s.disk.tables, t.disk.tables, n, r.add);
    OtherTable(s.disk.tables, t.disk.tables, n, s.disk.manifest.live);
    ThisTable(t.disk.tables, n);
    forall q: nat ensures InTables(t.disk.tables, r'.add, q) <==> InTables(t.disk.tables, r.add, q) || q in r.mem {
      UnionOfTables(t.disk.tables, r.add, {n}, q);
    }
    forall q | q in t.promised ensures Gathered(t.disk, r', q) {
      assert Gathered(s.disk, r, q);
    }
  }

  lemma UnionOfTables(tables: map<nat, set<nat>>, a: set<nat>, b: set<nat>, q: nat)
    ensures InTables(tables, a + b, q) <==> InTables(tables, a, q) || InTables(tables, b, q)
  {
    if InTables(tables, a, q) {
      var n :| n in a && n in tables && q in tables[n];
      assert n in a + b;
    }
    if InTables(tables, b, q) {
      var n :| n in b && n in tables && q in tables[n];
      assert n in a + b;
    }
  }

  lemma FirstOrLater(todo: seq<nat>)
    requires todo != [] && Ascending(todo)
    ensures Ascending(todo[1..])
    ensures forall n :: n in todo ==> n == todo[0] || n in todo[1..]
    ensures forall n :: n in todo[1..] ==> n in todo
  {
    forall n | n in todo ensures n == todo[0] || n in todo[1..] {
      var i :| 0 <= i < |todo| && todo[i] == n;
      assert i > 0 ==> todo[1..][i - 1] == n;
    }
  }

  /** With the log out of the way, its number counts as used. */
  lemma CloseLogNumbers(disk: Disk, r: Recovery, r': Recovery)
    requires RecoveryNumbersOk(disk, r) && r.todo != []
    requires r' == r.(todo := r.todo[1..], reading := false, nextFile := Max(r.nextFile, r.todo[0] + 1))
    ensures RecoveryNumbersOk(disk, r')
  {
    hide InTables;
    FirstOrLater(r.todo);
  }

  lemma CloseLogKeeps(s: System, t: System)
    requires Inv(s) && CloseLog(s, t)
    ensures Inv(t)
  {
    var r, r' := s.process.r, t.process.r;
    CloseLogNumbers(s.disk, r, r');
    hide InTables, Recoverable, RecoveryNumbersOk;
    forall q | q in t.promised ensures Gathered(t.disk, r', q) {
      assert Gathered(s.disk, r, q);
      if i :| 1 <= i < |r.todo| && r.todo[i] in s.disk.logs && InRecords(s.disk.logs[r.todo[i]].records, q) {
        assert r'.todo[i - 1] == r.todo[i];
      }
    }
  }

  lemma FinishRecoverKeeps(s: System, t: System)
    requires Inv(s) && FinishRecover(s, t)
    ensures Inv(t)
  {
    hide InRecords, InTables;
    var r := s.process.r;
    var n := r.nextFile;
    var log := Log([], [], true);
    var logged := s.(disk := s.disk.(logs := s.disk.logs[n := log]));
    assert n !in s.disk.logs by {
      assert n in s.disk.logs ==> n >= s.disk.manifest.logNumber && n !in r.todo;
    }
    LogGrows(s, logged, n, log);
    forall q: nat ensures InTables(s.disk.tables, s.disk.manifest.live + r.add, q) <==>
        InTables(s.disk.tables, s.disk.manifest.live, q) || InTables(s.disk.tables, r.add, q)
    {
      UnionOfTables(s.disk.tables, s.disk.manifest.live, r.add, q);
    }
    forall q | q in s.promised
      ensures InTables(s.disk.tables, s.disk.manifest.live, q) || InTables(s.disk.tables, r.add, q)
    {
      assert Gathered(s.disk, r, q);
    }
  }

  // ----- Whole runs -----

  lemma StepKeeps(s: System, t: System)
    requires Inv(s) && Step(s, t)
    ensures Inv(t)
  {
    hide Inv, AppendRecord, AppendFails, Acknowledge, SyncFails, SwitchMemtable, StartFlush, FinishBuild, BuildFails,
      BeginFlushEdit, StartMerge, OpenOutput, WriteOutput, MergeFails, BeginMergeEdit, EndEdit, Reference, DeleteLog, DeleteTable,
      Crash, BeginRecover, OpenLog, ReplayRecord, FlushRecovered, CloseLog, FinishRecover;
    if AppendRecord(s, t) || exists there :: AppendFails(s, t, there) { AppendKeeps(s, t); }
    else if Acknowledge(s, t) { AcknowledgeKeeps(s, t); }
    else if SyncFails(s, t) { SyncFailsKeeps(s, t); }
    else if SwitchMemtable(s, t) { SwitchKeeps(s, t); }
    else if StartFlush(s, t) || StartMerge(s, t) || OpenOutput(s, t) || BuildFails(s, t) || MergeFails(s, t) { ReserveKeeps(s, t); }
    else if FinishBuild(s, t) { FinishBuildKeeps(s, t); }
    else if BeginFlushEdit(s, t) { BeginFlushEditKeeps(s, t); }
    else if n :| WriteOutput(s, t, n) { WriteOutputKeeps(s, t, n); }
    else if BeginMergeEdit(s, t) { BeginMergeEditKeeps(s, t); }
    else if EndEdit(s, t) { EndEditKeeps(s, t); }
    else if Reference(s, t) { ReferenceKeeps(s, t); }
    else if n :| DeleteLog(s, t, n) { DeleteLogKeeps(s, t, n); }
    else if n :| DeleteTable(s, t, n) { DeleteTableKeeps(s, t, n); }
    else if Crash(s, t) { CrashKeeps(s, t); }
    else if BeginRecover(s, t) { BeginRecoverKeeps(s, t); }
    else if OpenLog(s, t) { OpenLogKeeps(s, t); }
    else if ReplayRecord(s, t) { ReplayRecordKeeps(s, t); }
    else if FlushRecovered(s, t) { FlushRecoveredKeeps(s, t); }
    else if CloseLog(s, t) { CloseLogKeeps(s, t); }
    else { FinishRecoverKeeps(s, t); }
  }

  /** NewDB: an empty manifest that names no log and reserves its own file number. */
  predicate Init(s: System) {
    s == System(Disk(map[], map[], Manifest({}, 0, 2, 0)), Down, {})
  }

  ghost predicate Run(run: seq<System>) {
    && |run| > 0 && Init(run[0])
    && forall k :: 0 <= k < |run| - 1 ==> Step(run[k], run[k + 1])
  }

  lemma {:induction false} RunKeeps(run: seq<System>, k: nat)
    requires Run(run) && k < |run|
    ensures Inv(run[k])
    decreases k
  {
    hide Step;
    if k > 0 {
      hide Inv;
      RunKeeps(run, k - 1);
      assert Step(run[k - 1], run[k - 1 + 1]);
      StepKeeps(run[k - 1], run[k]);
    }
  }

  /** At every moment of every run, whatever was promised is in a table of the manifest or in a log that
      recovery would replay. */
  lemma PromisesAreDurable(run: seq<System>, k: nat, q: nat)
    requires Run(run) && k < |run| && q in run[k].promised
    ensures Recoverable(run[k].disk, q)
  {
    RunKeeps(run, k);
  }

  /** While the database is open, readers find every promised update in the memtables or the current version,
      no file of a referenced version is missing, and finished outputs of a running compaction are still there. */
  lemma NothingInUseIsDeleted(run: seq<System>, k: nat)
    requires Run(run) && k < |run| && run[k].process.Up?
    ensures var s, m := run[k], run[k].process.m;
            && (forall q :: q in s.promised ==> InTables(s.disk.tables, m.live, q) || InImm(m, q) || q in m.mem)
            && m.live <= s.disk.tables.Keys
            && (forall v :: v in m.older ==> v <= s.disk.tables.Keys)
            && (m.merge.Merging? ==> m.merge.written <= s.disk.tables.Keys)
            && (m.flush.Built? ==> m.flush.add <= s.disk.tables.Keys)
            && m.logfile in s.disk.logs
  {
    hide InTables, TablesUpTo, InRecords, Recoverable, SameUpdates;
    RunKeeps(run, k);
  }

  /** The checks LogAndApply makes on an edit's log number never fail. */
  lemma EditNumbersAreOrdered(run: seq<System>, k: nat)
    requires Run(run) && k < |run| && run[k].process.Up? && run[k].process.m.edit.Some?
    ensures var m := run[k].process.m; m.logNumber <= m.edit.value.logNumber < m.nextFile
  {
    hide InTables, TablesUpTo, InRecords, Recoverable, SameUpdates;
    RunKeeps(run, k);
  }

  /** Recovery never misses a table, and when it is done every promise is in a table of the new version and
      the last sequence is at least every update found. */
  lemma RecoveryRestoresPromises(run: seq<System>, k: nat, q: nat)
    requires Run(run) && k + 1 < |run| && FinishRecover(run[k], run[k + 1]) && run[k + 1].process.Up?
    ensures var t := run[k + 1];
            && (q in t.promised ==> InTables(t.disk.tables, t.process.m.live, q))
            && (InTables(t.disk.tables, t.process.m.live, q) ==> q <= t.process.m.lastSequence)
            && t.process.m.live <= t.disk.tables.Keys
  {
    hide InTables, InRecords, Recoverable, SameUpdates;
    RunKeeps(run, k + 1);
  }

  lemma RecoveryFindsItsTables(run: seq<System>, k: nat)
    requires Run(run) && k < |run| && run[k].process.Down?
    ensures run[k].disk.manifest.live <= run[k].disk.tables.Keys
  {
    RunKeeps(run, k);
  }
}
