/** Opening a database and cleaning up after it: DeleteObsoleteFiles, the choice of logs in Recover,
    and the replay of one log. */
module RecoveryCode {
  import opened History
  import opened Coding
  import opened LogFormat
  import opened MemTables
  import opened WriteBatches
  import LogReader
  import LogProofs
  import CommitQueue
  import CommitRuns
  import Durability

  /** The files of a database directory, by what ParseFileName makes of their names. */
  datatype FileName =
    | LogFile(number: nat)
    | DescriptorFile(number: nat)
    | TableFile(number: nat)
    | TempFile(number: nat)
    | CurrentFile
    | DBLockFile
    | InfoLogFile
    | Foreign(name: string)

  /** ParseFileName fails on foreign names and gives the number 0 to the files without one. */
  function Number(f: FileName): nat
    requires !f.Foreign?
  {
    match f
    case LogFile(n) => n
    case DescriptorFile(n) => n
    case TableFile(n) => n
    case TempFile(n) => n
    case _ => 0
  }

  predicate Ordered(s: seq<nat>) {
    forall i, j :: 0 <= i < j < |s| ==> s[i] <= s[j]
  }

  /** The first `i + 1` elements are in order but for the one at `j`, which may have to go further down. */
  predicate OrderedBut(s: seq<nat>, i: nat, j: nat)
    requires j <= i < |s|
  {
    forall p, q :: 0 <= p < q <= i && q != j ==> s[p] <= s[q]
  }

  function Swapped(s: seq<nat>, j: nat): seq<nat>
    requires 0 < j < |s|
  {
    s[j - 1 := s[j]][j := s[j - 1]]
  }

  lemma SwapKeeps(s: seq<nat>, i: nat, j: nat)
    requires 0 < j <= i < |s| && OrderedBut(s, i, j) && s[j - 1] > s[j]
    ensures OrderedBut(Swapped(s, j), i, j - 1) && multiset(Swapped(s, j)) == multiset(s)
  {
  }

  lemma InOrderNow(s: seq<nat>, i: nat, j: nat)
    requires j <= i < |s| && OrderedBut(s, i, j) && (j > 0 ==> s[j - 1] <= s[j])
    ensures Ordered(s[..i + 1])
  {
    forall p, q | 0 <= p < q < i + 1 ensures s[p] <= s[q] {
      if q == j && p < j - 1 {
        assert s[p] <= s[j - 1];
      }
    }
  }

  method Sort(a: array<nat>)
    modifies a
    ensures Ordered(a[..])
    ensures multiset(a[..]) == multiset(old(a[..]))
  {
    for i := 0 to a.Length
      invariant Ordered(a[..i]) && multiset(a[..]) == multiset(old(a[..]))
    {
      SiftDown(a, i);
    }
    assert a[..a.Length] == a[..];
  }

  method SiftDown(a: array<nat>, i: nat)
    requires i < a.Length && Ordered(a[..i])
    modifies a
    ensures Ordered(a[..i + 1]) && multiset(a[..]) == multiset(old(a[..]))
  {
    var j: nat := i;
    assert OrderedBut(a[..], i, i);
    hide Ordered, OrderedBut;
    while j > 0 && a[j - 1] > a[j]
      invariant j <= i && OrderedBut(a[..], i, j) && multiset(a[..]) == multiset(old(a[..]))
    {
      ghost var before := a[..];
      SwapKeeps(before, i, j);
      a[j - 1], a[j] := a[j], a[j - 1];
      assert a[..] == Swapped(before, j);
      j := j - 1;
    }
    InOrderNow(a[..], i, j);
    assert a[..][..i + 1] == a[..i + 1];
  }

  /** The members of a sequence without repetitions, in ascending order. */
  method Sorted(ns: seq<nat>) returns (r: seq<nat>)
    requires forall i, j :: 0 <= i < j < |ns| ==> ns[i] != ns[j]
    ensures Durability.Ascending(r)
    ensures forall n :: n in r <==> n in ns
  {
    var a := new nat[|ns|](i requires 0 <= i < |ns| => ns[i]);
    assert a[..] == ns;
    Sort(a);
    r := a[..];
    assert multiset(r) == multiset(ns);
    forall n ensures n in r <==> n in ns {
      assert n in r <==> n in multiset(r);
      assert n in ns <==> n in multiset(ns);
    }
    forall i, j | 0 <= i < j < |r| ensures r[i] < r[j] {
      DistinctByCount(ns, r, i, j);
    }
  }

  lemma {:induction false} CountOne(ns: seq<nat>, n: nat)
    requires forall i, j :: 0 <= i < j < |ns| ==> ns[i] != ns[j]
    ensures multiset(ns)[n] <= 1
  {
    if ns != [] {
      assert ns == [ns[0]] + ns[1..];
      CountOne(ns[1..], n);
      if n == ns[0] {
        assert n !in ns[1..];
        assert n !in multiset(ns[1..]);
      }
    }
  }

  lemma DistinctByCount(ns: seq<nat>, r: seq<nat>, i: nat, j: nat)
    requires forall i, j :: 0 <= i < j < |ns| ==> ns[i] != ns[j]
    requires multiset(r) == multiset(ns) && i < j < |r|
    ensures r[i] != r[j]
  {
    CountOne(ns, r[i]);
    assert r == r[..j] + [r[j]] + r[j + 1..];
    assert r[..j][i] == r[i];
    assert r[i] in multiset(r[..j]);
  }

  class Directory {
    var files: set<FileName>

    constructor ()
      ensures files == {}
    {
      files := {};
    }

    /** Env::GetChildren: every file once, in any order. */
    method GetChildren() returns (names: seq<FileName>)
      ensures forall f :: f in names <==> f in files
      ensures forall i, j :: 0 <= i < j < |names| ==> names[i] != names[j]
    {
      names := [];
      var rest := files;
      while rest != {}
        invariant rest <= files
        invariant forall f :: f in names <==> f in files - rest
        invariant forall i, j :: 0 <= i < j < |names| ==> names[i] != names[j]
        decreases rest
      {
        var f :| f in rest;
        assert f !in names;
        assert forall g :: g in names + [f] <==> g in names || g == f;
        names := names + [f];
        rest := rest - {f};
      }
    }
  }

  class Database {
    const dir: Directory
    var versions: seq<set<nat>>     // the tables of every version that is still referenced; the last is current
    var logNumber: nat
    var prevLogNumber: nat
    var manifestNumber: nat
    var pendingOutputs: set<nat>
    var bgError: bool

    constructor (dir: Directory, live: set<nat>, logNumber: nat, prevLogNumber: nat, manifestNumber: nat)
      ensures this.dir == dir && versions == [live] && pendingOutputs == {} && !bgError
      ensures this.logNumber == logNumber && this.prevLogNumber == prevLogNumber && this.manifestNumber == manifestNumber
    {
      this.dir, this.logNumber, this.prevLogNumber, this.manifestNumber := dir, logNumber, prevLogNumber, manifestNumber;
      versions, pendingOutputs, bgError := [live], {}, false;
    }

    method AddLiveFiles(live: set<nat>) returns (r: set<nat>)
      ensures forall n :: n in r <==> n in live || exists v :: v in versions && n in v
    {
      r := live;
      for i := 0 to |versions|
        invariant forall n :: n in r <==> n in live || exists v :: v in versions[..i] && n in v
      {
        assert versions[..i + 1] == versions[..i] + [versions[i]];
        r := r + versions[i];
      }
      assert versions[..|versions|] == versions;
    }

    ghost predicate InUse(n: nat)
      reads this
    {
      n in pendingOutputs || exists v :: v in versions && n in v
    }

    /** Whether a file may still be needed. */
    ghost predicate Needed(f: FileName)
      reads this
    {
      match f
      case LogFile(n) => n >= logNumber || n == prevLogNumber
      case DescriptorFile(n) => n >= manifestNumber
      case TableFile(n) => InUse(n)
      case TempFile(n) => InUse(n)
      case _ => true
    }

    /** Everything that is not needed goes; after a background error everything stays. */
    method DeleteObsoleteFiles()
      modifies dir
      ensures if bgError then dir.files == old(dir.files)
              else forall f :: f in dir.files <==> f in old(dir.files) && Needed(f)
    {
      if bgError {
        return;
      }
      var live := AddLiveFiles(pendingOutputs);
      var filenames := dir.GetChildren();
      for i := 0 to |filenames|
        invariant forall f :: f in dir.files <==> f in old(dir.files) && (f in filenames[..i] ==> Needed(f))
      {
        var f := filenames[i];
        assert filenames[..i + 1] == filenames[..i] + [f];
        var keep := true;
        match f {
          case LogFile(n) => keep := n >= logNumber || n == prevLogNumber;
          case DescriptorFile(n) => keep := n >= manifestNumber;
          case TableFile(n) => keep := n in live;
          case TempFile(n) => keep := n in live;
          case _ =>
        }
        if !keep {
          dir.files := dir.files - {f};
        }
      }
      assert filenames[..|filenames|] == filenames;
    }

    /** A table of some version has a number that no file in the directory has. */
    ghost predicate Missing(n: nat)
      reads this, dir
    {
      (exists v :: v in versions && n in v) && !exists f :: f in dir.files && !f.Foreign? && Number(f) == n
    }

    /** The part of Recover that decides what to replay.  A table counts as present when any file has its number. */
    method LogsToReplay() returns (missing: bool, logs: seq<nat>)
      ensures missing <==> exists n: nat :: Missing(n)
      ensures Durability.Ascending(logs)
      ensures forall n: nat :: n in logs <==> LogFile(n) in dir.files && (n >= logNumber || n == prevLogNumber)
    {
      var expected := AddLiveFiles({});
      var filenames := dir.GetChildren();
      var found: seq<nat> := [];
      for i := 0 to |filenames|
        invariant forall n :: n in expected <==>
            (exists v :: v in versions && n in v) && !exists f :: f in filenames[..i] && !f.Foreign? && Number(f) == n
        invariant forall n: nat :: n in found <==> LogFile(n) in filenames[..i] && (n >= logNumber || n == prevLogNumber)
        invariant forall j, k :: 0 <= j < k < |found| ==> found[j] != found[k]
      {
        var f := filenames[i];
        assert filenames[..i + 1] == filenames[..i] + [f];
        assert f !in filenames[..i];
        if !f.Foreign? {
          expected := expected - {Number(f)};
          if f.LogFile? && (f.number >= logNumber || f.number == prevLogNumber) {
            found := found + [f.number];
          }
        }
      }
      assert filenames[..|filenames|] == filenames;
      logs := Sorted(found);
      assert forall n :: n in expected <==> Missing(n);
      missing := expected != {};
      if missing {
        ghost var n :| n in expected;
        assert Missing(n);
      }
    }
  }

  /** The choices the code makes are those of the step model: same logs and tables kept, same logs replayed. */
  lemma KeepsWhatTheModelKeeps(db: Database, m: Durability.Memory, disk: Durability.Disk, logs: seq<nat>)
    requires db.versions == m.older + [m.live] && db.pendingOutputs == m.pending
    requires db.logNumber == m.logNumber && db.prevLogNumber == 0
    requires forall n: nat :: LogFile(n) in db.dir.files <==> n in disk.logs
    requires 0 !in disk.logs
    ensures forall n: nat :: n > 0 ==> (db.Needed(LogFile(n)) <==> Durability.KeepLog(m, n))
    ensures forall n: nat :: db.Needed(TableFile(n)) <==> Durability.KeepTable(m, n)
    ensures disk.manifest.logNumber == m.logNumber && Durability.Ascending(logs) &&
            (forall n: nat :: n in logs <==> LogFile(n) in db.dir.files && (n >= db.logNumber || n == db.prevLogNumber)) ==>
              Durability.LogsToReplay(disk, logs)
  {
    forall n: nat ensures db.InUse(n) <==> Durability.KeepTable(m, n) {
      assert m.live in db.versions;
    }
  }

  // ----- Replaying one log -----

  datatype Replayed = Replayed(entries: set<Entry>, maxSequence: nat, ok: bool)

  /** The last sequence number of a record, in 64-bit arithmetic. */
  function LastOf(record: Bytes): Word64
    requires |record| >= HEADER
  {
    (SequenceOf(record) + CountOf(record) - 1) % TWO_64
  }

  function OpsOf(record: Bytes): seq<Op>
    requires |record| >= HEADER
  {
    ParseOps(record[HEADER..]).ops
  }

  predicate Accepted(record: Bytes)
    requires |record| >= HEADER
  {
    var r := ParseOps(record[HEADER..]);
    r.complete && |r.ops| == CountOf(record)
  }

  /** The records may be inserted: sizes and sequence numbers fit, and numbers grow from record to record,
      so that no two entries compare equal. */
  ghost predicate Insertable(records: seq<Bytes>) {
    && (forall i :: 0 <= i < |records| && |records[i]| >= HEADER ==>
          && SequenceOf(records[i]) + |OpsOf(records[i])| <= MAX_SEQUENCE + 1
          && forall k :: 0 <= k < |OpsOf(records[i])| ==> Fits(OpsOf(records[i])[k].key, ValueOf(OpsOf(records[i])[k])))
    && (forall i, j :: 0 <= i < j < |records| && |records[i]| >= HEADER && |records[j]| >= HEADER ==>
          SequenceOf(records[i]) + |OpsOf(records[i])| <= SequenceOf(records[j]))
  }

  lemma InsertablePrefix(records: seq<Bytes>, n: nat)
    requires Insertable(records) && n <= |records|
    ensures Insertable(records[..n])
  {
    hide SequenceOf, OpsOf, Fits, ValueOf;
  }

  /** What the records of one log leave behind.  With paranoid checks the first bad record ends the replay with
      an error; without, a short record is skipped and a malformed one contributes what parses. */
  ghost function ReplayLog(rank: Bytes -> UserKey, records: seq<Bytes>, paranoid: bool): Replayed
    requires Insertable(records)
  {
    if records == [] then Replayed({}, 0, true)
    else
      var n := |records| - 1;
      InsertablePrefix(records, n);
      var before := ReplayLog(rank, records[..n], paranoid);
      ReplayOne(rank, before, records[n], paranoid)
  }

  ghost function ReplayOne(rank: Bytes -> UserKey, before: Replayed, record: Bytes, paranoid: bool): Replayed
    requires |record| >= HEADER ==> SequenceOf(record) + |OpsOf(record)| <= MAX_SEQUENCE + 1
  {
    if !before.ok then before
    else if |record| < HEADER then before.(ok := !paranoid)
    else
      var entries := before.entries + EntriesOf(rank, SequenceOf(record), OpsOf(record));
      if paranoid && !Accepted(record) then Replayed(entries, before.maxSequence, false)
      else Replayed(entries, if LastOf(record) > before.maxSequence then LastOf(record) else before.maxSequence, true)
  }

  ghost function Union(tables: seq<set<Entry>>): set<Entry> {
    if tables == [] then {} else Union(tables[..|tables| - 1]) + tables[|tables| - 1]
  }

  lemma UnionSnoc(tables: seq<set<Entry>>, t: set<Entry>)
    ensures Union(tables + [t]) == Union(tables) + t
  {
    assert (tables + [t])[..|tables|] == tables;
  }

  /** Every number in the memtable is below those of the records to come. */
  ghost predicate BelowRest(entries: set<Entry>, records: seq<Bytes>, i: nat) {
    forall e, j :: e in entries && i <= j < |records| && |records[j]| >= HEADER ==> e.sequence < SequenceOf(records[j])
  }

  lemma StaysBelow(rank: Bytes -> UserKey, entries: set<Entry>, records: seq<Bytes>, i: nat)
    requires Insertable(records) && i < |records| && |records[i]| >= HEADER && BelowRest(entries, records, i)
    ensures CanInsert(rank, entries, SequenceOf(records[i]), OpsOf(records[i]))
    ensures BelowRest(entries + EntriesOf(rank, SequenceOf(records[i]), OpsOf(records[i])), records, i + 1)
  {
    hide SequenceOf, OpsOf, Fits, ValueOf;
  }

  /** One record further, with the facts that let the record be inserted. */
  lemma ReplayLogStep(rank: Bytes -> UserKey, records: seq<Bytes>, i: nat, paranoid: bool)
    requires Insertable(records) && i < |records|
    ensures Insertable(records[..i]) && Insertable(records[..i + 1])
    ensures |records[i]| >= HEADER ==>
              && SequenceOf(records[i]) + |OpsOf(records[i])| <= MAX_SEQUENCE + 1
              && forall k :: 0 <= k < |OpsOf(records[i])| ==> Fits(OpsOf(records[i])[k].key, ValueOf(OpsOf(records[i])[k]))
    ensures ReplayLog(rank, records[..i + 1], paranoid)
         == ReplayOne(rank, ReplayLog(rank, records[..i], paranoid), records[i], paranoid)
  {
    hide SequenceOf, OpsOf, ReplayOne;
    InsertablePrefix(records, i);
    InsertablePrefix(records, i + 1);
    assert records[..i + 1][..i] == records[..i];
  }

  lemma {:induction false} FailureStays(rank: Bytes -> UserKey, records: seq<Bytes>, i: nat, paranoid: bool)
    requires Insertable(records) && i <= |records|
    ensures Insertable(records[..i])
    ensures !ReplayLog(rank, records[..i], paranoid).ok ==> !ReplayLog(rank, records, paranoid).ok
    decreases |records| - i
  {
    InsertablePrefix(records, i);
    if i < |records| {
      ReplayLogStep(rank, records, i, paranoid);
      FailureStays(rank, records, i + 1, paranoid);
    } else {
      assert records[..i] == records;
    }
  }

  /** What the tables and the current memtable hold. */
  ghost function Collected(tables: seq<set<Entry>>, mem: MemTable?): set<Entry>
    reads mem, if mem == null then {} else {mem.table}
    requires mem != null ==> mem.Valid()
  {
    if mem == null then Union(tables) else Union(tables) + mem.Contents()
  }

  lemma Absorb(union: set<Entry>, mem: set<Entry>, more: set<Entry>)
    ensures union + (mem + more) == union + mem + more
    ensures union + ({} + more) == union + more
  {
  }

  /** The loop of RecoverLogFile over the records of one log.  The memtable is written out as a table whenever it has
      grown beyond the write buffer, which is up to the caller's memory accounting, and at the end; `failed` says that
      such a write failed.  `reported` counts the records in front of the first corruption that the log reader reports,
      and is larger than their number if there is none; with paranoid checks a report is an error. */
  method RecoverLogFile(rank: Bytes -> UserKey, records: seq<Bytes>, paranoid: bool, reported: nat)
    returns (ok: bool, tables: seq<set<Entry>>, maxSequence: nat, failed: bool)
    requires Insertable(records)
    ensures ok <==> ReplayLog(rank, records, paranoid).ok && !failed && !(paranoid && reported <= |records|)
    ensures ok ==> Union(tables) == ReplayLog(rank, records, paranoid).entries
    ensures ok ==> maxSequence == ReplayLog(rank, records, paranoid).maxSequence
  {
    hide SequenceOf, LastOf, Insertable, ParseOps, CountOf, Union, EntriesOf, ReplayLog, Fits;
    ok, tables, maxSequence, failed := true, [], 0, false;
    var mem: MemTable? := null;
    var i := 0;
    NothingReplayed(rank, records, paranoid);
    while i < |records| && ok
      invariant 0 <= i <= |records|
      invariant mem != null ==> mem.Valid() && mem.rank == rank && fresh(mem) && fresh(mem.table)
      invariant mem != null ==> BelowRest(mem.Contents(), records, i)
      invariant Insertable(records[..i]) && (ok <==> ReplayLog(rank, records[..i], paranoid).ok && !failed)
      invariant paranoid ==> reported >= i
      invariant ok ==> Collected(tables, mem) == ReplayLog(rank, records[..i], paranoid).entries
      invariant ok ==> maxSequence == ReplayLog(rank, records[..i], paranoid).maxSequence
    {
      if paranoid && reported == i {
        break;
      }
      var record := records[i];
      ReplayLogStep(rank, records, i, paranoid);
      if |record| < HEADER {
        ok := !paranoid;
      } else {
        if mem == null {
          mem := new MemTable(rank);
        }
        StaysBelow(rank, mem.Contents(), records, i);
        Absorb(Union(tables), mem.Contents(), EntriesOf(rank, SequenceOf(record), OpsOf(record)));
        var accepted := InsertRecord(record, mem);
        ok := accepted || !paranoid;
        if ok {
          if LastOf(record) > maxSequence {
            maxSequence := LastOf(record);
          }
          var full: bool := *;
          if full {
            failed := *;
            ok := !failed;
            if ok {
              UnionSnoc(tables, mem.Contents());
              tables := tables + [mem.arena.Keys];
            }
            mem := null;
          }
        }
      }
      i := i + 1;
    }
    FailureStays(rank, records, i, paranoid);
    assert records[..|records|] == records;
    if paranoid && reported <= |records| {
      ok := false;
    }
    if mem != null && ok {
      failed := *;
      ok := !failed;
      UnionSnoc(tables, mem.Contents());
      tables := tables + [mem.arena.Keys];
    }
  }

  /** SetContents and InsertInto. */
  method InsertRecord(record: Bytes, mem: MemTable) returns (ok: bool)
    requires |record| >= HEADER && mem.Valid()
    requires CanInsert(mem.rank, mem.Contents(), SequenceOf(record), OpsOf(record))
    modifies mem, mem.table
    ensures mem.Valid() && ok == Accepted(record)
    ensures mem.Contents() == old(mem.Contents()) + EntriesOf(mem.rank, SequenceOf(record), OpsOf(record))
  {
    hide SequenceOf, ParseOps, CountOf, EntriesOf, CanInsert;
    var batch := new WriteBatch();
    batch.SetContents(record);
    ok := batch.InsertInto(mem);
  }

  lemma NothingReplayed(rank: Bytes -> UserKey, records: seq<Bytes>, paranoid: bool)
    requires Insertable(records)
    ensures Insertable(records[..0]) && ReplayLog(rank, records[..0], paranoid) == Replayed({}, 0, true)
    ensures Union([]) == {}
  {
    InsertablePrefix(records, 0);
  }

  // ----- Recover -----

  /** What all logs together leave behind, oldest first; an error in one of them ends it. */
  ghost function ReplayLogs(rank: Bytes -> UserKey, logs: seq<seq<Bytes>>, paranoid: bool): Replayed
    requires forall l :: l in logs ==> Insertable(l)
  {
    if logs == [] then Replayed({}, 0, true)
    else
      var n := |logs| - 1;
      var before := ReplayLogs(rank, logs[..n], paranoid);
      var log := ReplayLog(rank, logs[n], paranoid);
      if !before.ok then before
      else Replayed(before.entries + log.entries,
                    if log.maxSequence > before.maxSequence then log.maxSequence else before.maxSequence, log.ok)
  }

  lemma ReplayLogsStep(rank: Bytes -> UserKey, logs: seq<seq<Bytes>>, i: nat, paranoid: bool)
    requires (forall l :: l in logs ==> Insertable(l)) && i < |logs|
    requires ReplayLogs(rank, logs[..i], paranoid).ok
    ensures var before, log := ReplayLogs(rank, logs[..i], paranoid), ReplayLog(rank, logs[i], paranoid);
            ReplayLogs(rank, logs[..i + 1], paranoid)
              == Replayed(before.entries + log.entries,
                          if log.maxSequence > before.maxSequence then log.maxSequence else before.maxSequence, log.ok)
  {
    hide ReplayLog, Insertable;
    assert logs[..i + 1][..i] == logs[..i];
  }

  lemma {:induction false} LogFailureStays(rank: Bytes -> UserKey, logs: seq<seq<Bytes>>, i: nat, paranoid: bool)
    requires (forall l :: l in logs ==> Insertable(l)) && i <= |logs|
    requires !ReplayLogs(rank, logs[..i], paranoid).ok
    ensures !ReplayLogs(rank, logs, paranoid).ok
    decreases |logs| - i
  {
    hide ReplayLog, Insertable;
    if i < |logs| {
      assert logs[..i + 1][..i] == logs[..i];
      LogFailureStays(rank, logs, i + 1, paranoid);
    } else {
      assert logs[..i] == logs;
    }
  }

  lemma {:induction false} UnionConcat(a: seq<set<Entry>>, b: seq<set<Entry>>)
    ensures Union(a + b) == Union(a) + Union(b)
  {
    if b == [] {
      assert a + b == a;
    } else {
      assert (a + b)[..|a + b| - 1] == a + b[..|b| - 1];
      UnionConcat(a, b[..|b| - 1]);
    }
  }

  /** The log reader reports a corruption in one of the logs. */
  ghost predicate Damaged(logs: seq<seq<Bytes>>, reported: seq<nat>)
    requires |reported| == |logs|
  {
    exists k :: 0 <= k < |logs| && reported[k] <= |logs[k]|
  }

  /** The second half of Recover: replay the chosen logs in order, mark their numbers used, and raise the last
      sequence to the largest one found. */
  method RecoverLogs(rank: Bytes -> UserKey, numbers: seq<nat>, logs: seq<seq<Bytes>>, paranoid: bool,
                     reported: seq<nat>, nextFileNumber: nat, versionSequence: nat)
    returns (ok: bool, tables: seq<set<Entry>>, nextFile: nat, lastSequence: nat, failed: bool)
    requires |numbers| == |reported| == |logs| && forall l :: l in logs ==> Insertable(l)
    ensures ok <==> ReplayLogs(rank, logs, paranoid).ok && !failed && !(paranoid && Damaged(logs, reported))
    ensures ok ==> Union(tables) == ReplayLogs(rank, logs, paranoid).entries
    ensures ok ==> lastSequence == Durability.Max(versionSequence, ReplayLogs(rank, logs, paranoid).maxSequence)
    ensures ok ==> nextFile >= nextFileNumber && forall n :: n in numbers ==> n < nextFile
  {
    hide Insertable, ReplayLog, Union;
    ok, tables, nextFile, lastSequence, failed := true, [], nextFileNumber, versionSequence, false;
    var maxSequence: nat := 0;
    var i := 0;
    assert Union([]) == {} by { UnionOfNothing(); }
    while i < |logs|
      invariant 0 <= i <= |logs| && ok && !failed && ReplayLogs(rank, logs[..i], paranoid).ok
      invariant paranoid ==> forall k :: 0 <= k < i ==> reported[k] > |logs[k]|
      invariant Union(tables) == ReplayLogs(rank, logs[..i], paranoid).entries
      invariant maxSequence == ReplayLogs(rank, logs[..i], paranoid).maxSequence
      invariant nextFile >= nextFileNumber && forall n :: n in numbers[..i] ==> n < nextFile
    {
      ReplayLogsStep(rank, logs, i, paranoid);
      assert numbers[..i + 1] == numbers[..i] + [numbers[i]];
      var made, max;
      ok, made, max, failed := RecoverLogFile(rank, logs[i], paranoid, reported[i]);
      if !ok {
        if !ReplayLog(rank, logs[i], paranoid).ok {
          LogFailureStays(rank, logs, i + 1, paranoid);
        }
        return;
      }
      UnionConcat(tables, made);
      tables := tables + made;
      if max > maxSequence {
        maxSequence := max;
      }
      if nextFile <= numbers[i] {
        nextFile := numbers[i] + 1;
      }
      i := i + 1;
    }
    assert logs[..|logs|] == logs && numbers[..|numbers|] == numbers;
    if lastSequence < maxSequence {
      lastSequence := maxSequence;
    }
  }

  lemma UnionOfNothing()
    ensures Union([]) == {}
  {
  }

  /** The last sequence covers every entry found, whatever the records: provided their counts are right. */
  lemma {:induction false} MaxCoversEntries(rank: Bytes -> UserKey, records: seq<Bytes>, paranoid: bool, e: Entry)
    requires Insertable(records) && ReplayLog(rank, records, paranoid).ok
    requires forall i :: 0 <= i < |records| && |records[i]| >= HEADER ==> Accepted(records[i])
    requires e in ReplayLog(rank, records, paranoid).entries
    ensures e.sequence <= ReplayLog(rank, records, paranoid).maxSequence
  {
    if records != [] {
      var n := |records| - 1;
      var record := records[n];
      InsertablePrefix(records, n);
      if e in ReplayLog(rank, records[..n], paranoid).entries {
        assert forall i :: 0 <= i < n ==> records[..n][i] == records[i];
        MaxCoversEntries(rank, records[..n], paranoid, e);
      } else {
        assert |record| >= HEADER && e in EntriesOf(rank, SequenceOf(record), OpsOf(record));
        LastCovers(rank, record, e);
      }
    }
  }

  lemma LastCovers(rank: Bytes -> UserKey, record: Bytes, e: Entry)
    requires |record| >= HEADER && Accepted(record) && SequenceOf(record) + |OpsOf(record)| <= MAX_SEQUENCE + 1
    requires e in EntriesOf(rank, SequenceOf(record), OpsOf(record))
    ensures e.sequence <= LastOf(record)
  {
    hide SequenceOf, ParseOps, CountOf;
  }

  // ----- From the writers to recovery -----

  /** A batch as the group leader logs it. */
  datatype Logged = Logged(first: SequenceNumber, ops: seq<Op>)

  ghost predicate WellFormed(batches: seq<Logged>) {
    && (forall i :: 0 <= i < |batches| ==>
          && 0 < batches[i].first && batches[i].first + |batches[i].ops| <= MAX_SEQUENCE + 1
          && |batches[i].ops| < 0x8000_0000
          && forall k :: 0 <= k < |batches[i].ops| ==> Fits(batches[i].ops[k].key, ValueOf(batches[i].ops[k])))
    && (forall i, j :: 0 <= i < j < |batches| ==> batches[i].first + |batches[i].ops| <= batches[j].first)
  }

  function Records(batches: seq<Logged>): (r: seq<Bytes>)
    ensures |r| == |batches|
  {
    seq(|batches|, i requires 0 <= i < |batches| => Layout(batches[i].first, batches[i].ops))
  }

  /** The entries of the first `n` batches. */
  ghost function EntriesOfAll(rank: Bytes -> UserKey, batches: seq<Logged>, n: nat): set<Entry>
    requires n <= |batches| && forall i :: 0 <= i < |batches| ==> batches[i].first + |batches[i].ops| <= MAX_SEQUENCE + 1
  {
    if n == 0 then {}
    else EntriesOfAll(rank, batches, n - 1) + EntriesOf(rank, batches[n - 1].first, batches[n - 1].ops)
  }

  lemma RecordOfBatch(b: Logged)
    requires 0 < b.first && b.first + |b.ops| <= MAX_SEQUENCE + 1 && |b.ops| < 0x8000_0000
    requires forall k :: 0 <= k < |b.ops| ==> Fits(b.ops[k].key, ValueOf(b.ops[k]))
    ensures var r := Layout(b.first, b.ops);
            && |r| >= HEADER && SequenceOf(r) == b.first && OpsOf(r) == b.ops && Accepted(r)
            && LastOf(r) == b.first + |b.ops| - 1
  {
    hide Layout, ParseOps, SequenceOf, CountOf;
    assert forall k :: 0 <= k < |b.ops| ==> Fits(b.ops[k].key, ValueOf(b.ops[k])) ==> SmallOp(b.ops[k]);
    BatchRoundTrip(b.first, b.ops);
  }

  lemma RecordsAreInsertable(batches: seq<Logged>)
    requires WellFormed(batches)
    ensures Insertable(Records(batches))
  {
    hide Layout, SequenceOf, OpsOf, Accepted, LastOf, Fits;
    forall i | 0 <= i < |batches| ensures var r := Records(batches)[i];
        |r| >= HEADER && SequenceOf(r) == batches[i].first && OpsOf(r) == batches[i].ops
    {
      RecordOfBatch(batches[i]);
    }
  }

  lemma {:induction false} ReplayOfBatches(rank: Bytes -> UserKey, batches: seq<Logged>, n: nat, paranoid: bool)
    requires WellFormed(batches) && n <= |batches|
    ensures Insertable(Records(batches)) && Insertable(Records(batches)[..n])
    ensures var r := ReplayLog(rank, Records(batches)[..n], paranoid);
            && r.ok && r.entries == EntriesOfAll(rank, batches, n)
            && (forall i :: 0 <= i < n ==> batches[i].first + |batches[i].ops| - 1 <= r.maxSequence)
    decreases n
  {
    hide Layout, SequenceOf, OpsOf, Accepted, LastOf, Fits, Insertable, EntriesOf, ReplayLog, Records;
    var records := Records(batches);
    RecordsAreInsertable(batches);
    if n == 0 {
      NothingReplayed(rank, records, paranoid);
    } else {
      ReplayOfBatches(rank, batches, n - 1, paranoid);
      ReplayLogStep(rank, records, n - 1, paranoid);
      RecordOfBatch(batches[n - 1]);
      assert records[n - 1] == Layout(batches[n - 1].first, batches[n - 1].ops) by { RecordAt(batches, n - 1); }
    }
  }

  lemma RecordAt(batches: seq<Logged>, i: nat)
    requires i < |batches|
    ensures Records(batches)[i] == Layout(batches[i].first, batches[i].ops)
  {
  }

  /** From the bytes of a log cut off anywhere to the memtable: recovery finds exactly the batches whose
      records lie wholly inside what is left, each with all its updates under its own sequence numbers,
      reports no error, and knows a last sequence that covers them all. */
  lemma RecoveredFromTornLog(crc: Crc, rank: Bytes -> UserKey, batches: seq<Logged>, m: nat, paranoid: bool) returns (n: nat)
    requires WellFormed(batches) && m <= |EmitAll(crc, Records(batches), 0)|
    ensures n <= |batches| && LogProofs.Whole(Records(batches), 0, m) == Records(batches)[..n]
    ensures n < |batches| ==> m < EndOfAll(Records(batches)[..n + 1], 0)
    ensures var found := LogReader.Replay(crc, EmitAll(crc, Records(batches), 0)[..m], 0, false, []);
            && found.reports == [] && found.records == Records(batches)[..n] && Insertable(found.records)
            && var r := ReplayLog(rank, found.records, paranoid);
            && r.ok && r.entries == EntriesOfAll(rank, batches, n)
            && (forall i :: 0 <= i < n ==> batches[i].first + |batches[i].ops| - 1 <= r.maxSequence)
  {
    hide EmitAll, WellFormed, ReplayLog, Insertable, EndOfAll, LogProofs.Whole, LogReader.Replay, Records, EntriesOfAll;
    var records := Records(batches);
    LogProofs.TornTail(crc, records, m);
    n := |LogProofs.Whole(records, 0, m)|;
    ReplayOfBatches(rank, batches, n, paranoid);
    WholeIsLongest(records, 0, m);
  }

  lemma {:induction false} WholeIsLongest(records: seq<Bytes>, off: nat, m: nat)
    ensures var n := |LogProofs.Whole(records, off, m)|;
            n < |records| ==> m < EndOfAll(records[..n + 1], off)
  {
    var n := |LogProofs.Whole(records, off, m)|;
    if records != [] {
      var end := EndOf(records[0], off);
      if m < end {
        assert records[..1][1..] == [];
      } else {
        WholeIsLongest(records[1..], end, m);
        if n < |records| {
          assert records[..n + 1][1..] == records[1..][..n];
        }
      }
    }
  }

  lemma {:induction false} LaterEndsAreLater(records: seq<Bytes>, a: nat, b: nat, off: nat)
    requires a <= b <= |records|
    ensures EndOfAll(records[..a], off) <= EndOfAll(records[..b], off)
  {
    if a > 0 {
      assert records[..a][1..] == records[1..][..a - 1] && records[..b][1..] == records[1..][..b - 1];
      LaterEndsAreLater(records[1..], a - 1, b - 1, EndOf(records[0], off));
    } else {
      assert records[..0] == [];
      LogProofs.AllWhole(records[..b], off);
    }
  }

  lemma {:induction false} EntryIsAmongAll(rank: Bytes -> UserKey, batches: seq<Logged>, n: nat, i: nat, k: nat)
    requires forall i :: 0 <= i < |batches| ==> batches[i].first + |batches[i].ops| <= MAX_SEQUENCE + 1
    requires i < n <= |batches| && k < |batches[i].ops|
    ensures var op := batches[i].ops[k];
            Entry(rank(op.key), batches[i].first + k, KindOf(op), ValueOf(op)) in EntriesOfAll(rank, batches, n)
    decreases n
  {
    if i < n - 1 {
      EntryIsAmongAll(rank, batches, n - 1, i, k);
    }
  }

  /** The records of a commit log, as far as their numbers fit the 56 bits of a sequence number. */
  function Batches(log: seq<CommitRuns.LogRecord>): (r: seq<Logged>)
    requires forall i :: 0 <= i < |log| ==> log[i].sequence <= MAX_SEQUENCE
    ensures |r| == |log|
  {
    seq(|log|, i requires 0 <= i < |log| => Logged(log[i].sequence, log[i].ops))
  }

  ghost predicate LimitsRespected(log: seq<CommitRuns.LogRecord>) {
    forall i :: 0 <= i < |log| ==>
      && log[i].sequence <= MAX_SEQUENCE && log[i].sequence + |log[i].ops| <= MAX_SEQUENCE + 1
      && |log[i].ops| < 0x8000_0000
      && forall k :: 0 <= k < |log[i].ops| ==> Fits(log[i].ops[k].key, ValueOf(log[i].ops[k]))
  }

  /** From the return of Write to recovery: once a call has been told that its batch is committed, every update of
      the batch is recovered, under its number, from any log file that reaches to the end of the call's record. */
  lemma CommittedCallsAreRecovered(start: nat, run: seq<CommitRuns.State>, t: nat, call: nat, j: nat,
                                   crc: Crc, rank: Bytes -> UserKey, m: nat, paranoid: bool)
    requires CommitRuns.Run(start, run) && t < |run|
    requires var s := run[t];
             && call < |s.outcomes| && |s.outcomes| <= |s.arrived|
             && s.outcomes[call].Committed? && j < |CommitQueue.Ops(s.arrived[call])|
             && LimitsRespected(s.log) && s.outcomes[call].record < |s.log|
             && EndOfAll(Records(Batches(s.log))[..s.outcomes[call].record + 1], 0) <= m
             && m <= |EmitAll(crc, Records(Batches(s.log)), 0)|
    ensures var s := run[t];
            var op := CommitQueue.Ops(s.arrived[call])[j];
            var found := LogReader.Replay(crc, EmitAll(crc, Records(Batches(s.log)), 0)[..m], 0, false, []);
            && Insertable(found.records)
            && s.outcomes[call].first + j <= MAX_SEQUENCE
            && Entry(rank(op.key), s.outcomes[call].first + j, KindOf(op), ValueOf(op))
                 in ReplayLog(rank, found.records, paranoid).entries
  {
    hide CommitRuns.Run, CommitRuns.Settled, CommitRuns.HistoryOk, Insertable, ReplayLog, EmitAll, EndOfAll, LogReader.Replay,
      LimitsRespected, CommitRuns.InOrder;
    var s := run[t];
    CommitRuns.GroupCommitIsOneAtATime(start, run, t);
    assert CommitRuns.InLog(s.arrived[call], s.outcomes[call], s.log, s.synced);
    LoggedUpdateIsRecovered(s.log, s.outcomes[call], CommitQueue.Ops(s.arrived[call]), j, crc, rank, m, paranoid);
  }

  lemma LoggedUpdateIsRecovered(log: seq<CommitRuns.LogRecord>, o: CommitRuns.Outcome, ops: seq<Op>, j: nat,
                                crc: Crc, rank: Bytes -> UserKey, m: nat, paranoid: bool)
    requires LimitsRespected(log) && o.Committed? && o.record < |log| && j < |ops|
    requires var l := log[o.record];
             l.sequence <= o.first && o.first - l.sequence + |ops| <= |l.ops|
             && l.ops[o.first - l.sequence..o.first - l.sequence + |ops|] == ops
    requires forall i, k :: 0 <= i < k < |log| ==> log[i].sequence + |log[i].ops| <= log[k].sequence
    requires forall i :: 0 <= i < |log| ==> 0 < log[i].sequence
    requires EndOfAll(Records(Batches(log))[..o.record + 1], 0) <= m <= |EmitAll(crc, Records(Batches(log)), 0)|
    ensures var found := LogReader.Replay(crc, EmitAll(crc, Records(Batches(log)), 0)[..m], 0, false, []);
            && Insertable(found.records)
            && o.first + j <= MAX_SEQUENCE
            && Entry(rank(ops[j].key), o.first + j, KindOf(ops[j]), ValueOf(ops[j]))
                 in ReplayLog(rank, found.records, paranoid).entries
  {
    hide Insertable, ReplayLog, EmitAll, EndOfAll, LogReader.Replay, Fits, EntriesOfAll, Records, LogProofs.Whole;
    var at := o.first - log[o.record].sequence;
    assert log[o.record].ops[at..at + |ops|][j] == log[o.record].ops[at + j];
    var batches := Batches(log);
    assert WellFormed(batches);
    var n := RecoveredFromTornLog(crc, rank, batches, m, paranoid);
    if n <= o.record {
      LaterEndsAreLater(Records(batches), n + 1, o.record + 1, 0);
    }
    EntryIsAmongAll(rank, batches, n, o.record, at + j);
  }
}
