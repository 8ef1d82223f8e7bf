# LevelDB and nanopb, modelled and proved

This project models the two C and C++ libraries among the application's pods that carry real algorithms, and
proves in Dafny what they are relied on for. `dafny verify dfyconfig.toml` checks everything.

**LevelDB as a multi-version store.** The yardstick is `History.Read`: given a set of entries
`(user key, sequence, type, value)`, a read at snapshot `s` returns the newest entry at or below `s`. Everything
else is measured against it or against another simple reference:

| part | modules | yardstick |
|---|---|---|
| compaction, live snapshots | `Compaction`, `Snapshots` | reads before and after are equal, with the exact condition |
| iteration in both directions | `DbIter` | a cursor over the sorted list of live pairs |
| skip list walked by readers during an insert | `SkipLists` | the sorted set at one instant of the run |
| memtable, internal keys, point lookups over all layers | `MemTables`, `InternalKeys` | newest visible entry, from the bytes in the arena |
| batches | `WriteBatches` | the list of updates, numbered consecutively |
| group commit | `CommitQueue`, `CommitRuns`, `CommitReads` | one caller at a time, in queue order |
| log writer and reader | `LogFormat`, `LogWriter`, `LogReader`, `LogProofs`, `LogCapacity`, `LogAppends`, `LogAlignment` | the list of records written |
| memtable switch, flush, compaction, file deletion, crash, recovery | `Durability`, `DurabilityProofs`, `RecoveryCode` | the updates promised to callers |
| background scheduling | `Background` | a monitor invariant: every waiter has a wake-up coming |

**nanopb.** `PbWire` (varints and ZigZag), `PbMessage` (descriptors, message structs, what the encoder and decoder
compute), `PbProofs` and `PbRoundTrip` (round trip and forward compatibility for any descriptor tree), `PbEncode` and
`PbDecode` (the stream code, proved against `PbMessage`), `PbRequired` (the required-field check) and `PbIter` (the
field iterator). The standard is the Protocol Buffers "Encoding" specification, sections "Base 128 Varints", "Signed
Integers", "Message Structure", "Length-Delimited Records" and "Packed Repeated Fields".

`History` and `Coding` hold what several parts share; `Basics` two generic helpers.

## How the model reads

- Code that updates fields is a class whose methods have the source's branches and loops; each method is proved
  against a specification function, and the results are lemmas about those functions or invariants of the class.
- Interleavings (skip list readers, callers of `Write`, crashes) are state machines: a predicate per atomic step, and
  lemmas about every state of every run. Acquire loads and release stores are single atomic steps.
- A user key is its place in the comparator's total order, a real number; where bytes matter a function `rank` gives
  the place of a byte string. The CRC is an arbitrary function of the bytes it covers.
- Helpers outside the modelled files are used by contract: `LogAndApply` installs an edit as a whole or not at all (after
  a failure the disk may have it or not), `IsBaseLevelForKey(k)` means that nothing deeper has `k`,
  `NeedsCompaction()` holds at or above the level-0 trigger, `Version::Get` answers a read of the version's entries.
- Random heights, memory accounting, table cuts, sleeps and the success of I/O are inputs or free choices.

## Where the code does not do what one would expect

- Compaction: with keys that do not parse among the inputs, a value deleted below the smallest snapshot can become
  visible again. `Compaction.CompactionPreservesReadsIff` gives the exact condition and
  `Compaction.ResurrectionIsVisible` the wrong read. With a smallest snapshot of 2^56-1 every entry is dropped
  (`Compaction.SaturatedSnapshotDropsAll`), and reads are unchanged exactly if no input entry mattered to them
  (`Compaction.SaturatedPreservesReadsIff`).
- Log writer: that every acknowledged record can be read back is false. `block_offset_` advances even when an append
  fails, `DBImpl::Write` keeps using the writer, and the status of the append that fills a trailer is dropped. A
  writer logs everything to come correctly if and only if its block offset agrees with the length of the file modulo
  the block size; this holds behind any file, for any checksum (`LogAlignment.ExactlyAlignedWritersLogCorrectly`).
  `LogWriter.Writer.AddRecord` says when a call keeps the two together: when the bytes missing from the file are a
  multiple of the block size. After a failed call of which nothing reached the file that is so exactly if the call
  ended on a block boundary (`LogAlignment.FailedAppendLosesRecord`). With an ignored failure in a trailer the call
  itself succeeds, its record can be lost (`LogAlignment.CutTrailerLosesRecord`, an empty record) and the writer is
  out of step: no caller can see it. `Durability` therefore promises updates written to a log that is out of step only
  once their memtable has become a table.
- Manual compaction: when a background error is recorded, or a shutdown begins, while a manual compaction runs, its
  requester may clear `manual_compaction_`, which the background thread then reads as a null pointer
  (`Background.RequesterLeavesTooEarly`). `Background.Scheduler.FinishCompaction` shows that this happens exactly if
  the requester has taken its request back.
- Recovery's check for missing files looks at numbers only: a log with the number of a missing table hides it
  (`RecoveryCode.Database.LogsToReplay`).
- The comment on `DBIter::Direction` (db_iter.cc:46-47) says that a reverse iterator stands just before all entries of the
  current key. Entries that are unreadable at the snapshot may lie between; the model follows the code.
- nanopb: the encoder accepts a string that fills its buffer, the decoder needs one byte more for the NUL.
  `PbRoundTrip.WholeMessageRoundTrip` shows that this is the only way a well-formed message fails to come back.
- nanopb: `pb_decode_varint32` counts bits in eight bits. Behind 37 continuation bytes it accepts a group that lies beyond bit
  32 (`PbWire.WrappedGroupAccepted`); up to 36 it agrees with a wider counter (`PbWire.WideAgrees`).
- nanopb: in an empty message `pb_field_iter_find` accepts tag 0, the terminator (`PbIter.FieldIter.Find`).

## Model

| member | source | states |
|---|---|---|
| History.ReadIsNewest | new-pompeius/Pods/leveldb-library/db/dbformat.cc:47-64 | the newest visible entry, in the internal key order, alone decides a read |
| History.NewestExists | new-pompeius/Pods/leveldb-library/db/dbformat.cc:47-64 | with distinct tags, whatever is visible has a newest entry |
| Compaction.DoCompactionWork | new-pompeius/Pods/leveldb-library/db/db_impl.cc:905-999 | the loop with its three key variables writes, over all its output tables together, exactly the entries that rules (A) and (B) keep among those it took, in order; it took all of them unless a shutdown or an output table that cannot be opened or finished ends it, and then the result is not ok; every table records its first and last key |
| Compaction.AddEntry | new-pompeius/Pods/leveldb-library/db/db_impl.cc:973-996 | opening a table when none is being built, and adding to the last one, appends exactly one entry to what all tables hold |
| Compaction.SurvivorsAre | new-pompeius/Pods/leveldb-library/db/db_impl.cc:931-963 | the kept entries are the input entries at the positions that no rule drops |
| Compaction.CompactionPreservesReadsIff | new-pompeius/Pods/leveldb-library/db/db_impl.cc:890-999 | reads of every key at every snapshot at or above the smallest are unchanged if and only if no dropped deletion marker is separated from an older value by an unparsable key |
| Compaction.ParsableInputPreservesReads | new-pompeius/Pods/leveldb-library/db/db_impl.cc:890-999 | with parsable inputs every such read is unchanged |
| Compaction.ReadUnchanged | new-pompeius/Pods/leveldb-library/db/db_impl.cc:938-963 | one read: if nothing is resurrected, the answer before and after is the same |
| Compaction.NothingOutlivesMarker | new-pompeius/Pods/leveldb-library/db/db_impl.cc:938-963 | a value that becomes visible behind a dropped marker got there through an unparsable key |
| Compaction.ResurrectionIsVisible | new-pompeius/Pods/leveldb-library/db/db_impl.cc:931-936 | in that case a read at the smallest snapshot was "not found" before and finds a value afterwards |
| Compaction.SurvivorIsValue | new-pompeius/Pods/leveldb-library/db/db_impl.cc:950-958 | no marker of a base level key survives at or below the smallest snapshot |
| Compaction.SaturatedSnapshotDropsAll | new-pompeius/Pods/leveldb-library/db/db_impl.cc:938-946 | a smallest snapshot equal to the largest sequence number drops every parsable entry |
| Compaction.SaturatedPreservesReadsIff | new-pompeius/Pods/leveldb-library/db/db_impl.cc:938-946 | in that case reads are unchanged if and only if, wherever an input entry is the newest of its key, the deeper levels give the same answer without it |
| Snapshots.SnapshotList.constructor | new-pompeius/Pods/leveldb-library/db/snapshot.h:41-44 | the empty ring: the head linked to itself |
| Snapshots.SnapshotList.Empty | new-pompeius/Pods/leveldb-library/db/snapshot.h:46-46 | true exactly when no snapshot is live |
| Snapshots.SnapshotList.Oldest | new-pompeius/Pods/leveldb-library/db/snapshot.h:47-50 | the first live snapshot, whose number is the minimum |
| Snapshots.SnapshotList.Newest | new-pompeius/Pods/leveldb-library/db/snapshot.h:51-54 | the last live snapshot, whose number is the maximum |
| Snapshots.SnapshotList.New | new-pompeius/Pods/leveldb-library/db/snapshot.h:57-71 | rewrites four links; the ring is whole again, ordered, with the new snapshot last |
| Snapshots.SnapshotList.Delete | new-pompeius/Pods/leveldb-library/db/snapshot.h:79-86 | unlinks any live node; the ring is whole again without exactly that node |
| Snapshots.SnapshotList.SmallestSnapshot | new-pompeius/Pods/leveldb-library/db/db_impl.cc:890-894 | a lower bound of all live snapshots and of the last sequence |
| Snapshots.LiveSnapshotsKeepTheirReads | new-pompeius/Pods/leveldb-library/db/db_impl.cc:890-999 | no read through a live snapshot, or through a later sequence number, is changed by a compaction |
| DbIter.PairsAreTheReads | new-pompeius/Pods/leveldb-library/db/db_iter.cc:33-39 | the cursor list is strictly sorted by key and holds exactly the pairs that reads at the snapshot find |
| DbIter.DBIter.constructor | new-pompeius/Pods/leveldb-library/db/db_iter.cc:49-57 | a new iterator is not valid |
| DbIter.DBIter.Key | new-pompeius/Pods/leveldb-library/db/db_iter.cc:64-67 | the key of the cursor's pair, in either direction |
| DbIter.DBIter.Value | new-pompeius/Pods/leveldb-library/db/db_iter.cc:68-71 | the value of the cursor's pair, in either direction |
| DbIter.DBIter.ParseKey | new-pompeius/Pods/leveldb-library/db/db_iter.cc:122-139 | fails exactly on unparsable keys, and then records a corruption |
| DbIter.DBIter.FindNextUserEntry | new-pompeius/Pods/leveldb-library/db/db_iter.cc:168-198 | stops at the next live entry behind the skipped key, or at the end; nothing live is passed |
| DbIter.DBIter.Next | new-pompeius/Pods/leveldb-library/db/db_iter.cc:141-166 | moves the cursor one pair forward, also right after moving backwards |
| DbIter.DBIter.FindPrevUserEntry | new-pompeius/Pods/leveldb-library/db/db_iter.cc:227-267 | finds the last live pair in front of the position and saves it |
| DbIter.DBIter.Prev | new-pompeius/Pods/leveldb-library/db/db_iter.cc:200-225 | moves the cursor one pair back, also right after moving forward; past the first pair it becomes invalid |
| DbIter.DBIter.Seek | new-pompeius/Pods/leveldb-library/db/db_iter.cc:269-281 | places the cursor on the first pair at or after the target |
| DbIter.DBIter.SeekToFirst | new-pompeius/Pods/leveldb-library/db/db_iter.cc:283-292 | places the cursor on the first pair |
| DbIter.DBIter.SeekToLast | new-pompeius/Pods/leveldb-library/db/db_iter.cc:294-299 | places the cursor on the last pair |
| SkipLists.WalkIsTheSortedSet | new-pompeius/Pods/leveldb-library/db/skiplist.h:206-231 | following the links of a level meets its entries in strictly ascending order, all of them |
| SkipLists.LevelsAreSortedLists | new-pompeius/Pods/leveldb-library/db/skiplist.h:337-368 | level 0 is the strictly sorted list of everything; each level is a sorted part of the one below |
| SkipLists.SkipList.constructor | new-pompeius/Pods/leveldb-library/db/skiplist.h:324-334 | an empty list of height 1 whose twelve head links are null |
| SkipLists.SkipList.FindGreaterOrEqual | new-pompeius/Pods/leveldb-library/db/skiplist.h:260-281 | returns the first entry at or after the key and fills prev with the predecessor on every level in use |
| SkipLists.SkipList.FindLessThan | new-pompeius/Pods/leveldb-library/db/skiplist.h:283-303 | returns the last entry before the key, or the head |
| SkipLists.SkipList.FindLast | new-pompeius/Pods/leveldb-library/db/skiplist.h:305-322 | returns the last entry, or the head of an empty list |
| SkipLists.SkipList.RandomHeight | new-pompeius/Pods/leveldb-library/db/skiplist.h:241-252 | a height from 1 to 12 |
| SkipLists.SkipList.Insert | new-pompeius/Pods/leveldb-library/db/skiplist.h:336-368 | adds exactly the key; the list is in order after every single store |
| SkipLists.SkipList.Contains | new-pompeius/Pods/leveldb-library/db/skiplist.h:370-378 | true exactly when an entry compares equal |
| SkipLists.SkipListIterator.Next | new-pompeius/Pods/leveldb-library/db/skiplist.h:206-210 | moves to the next entry of level 0 |
| SkipLists.SkipListIterator.Prev | new-pompeius/Pods/leveldb-library/db/skiplist.h:212-221 | searches again for the last smaller entry; invalid when there is none |
| SkipLists.SkipListIterator.Seek | new-pompeius/Pods/leveldb-library/db/skiplist.h:223-226 | moves to the first entry at or after the target |
| SkipLists.SkipListIterator.SeekToFirst | new-pompeius/Pods/leveldb-library/db/skiplist.h:228-231 | moves to the first entry |
| SkipLists.SkipListIterator.SeekToLast | new-pompeius/Pods/leveldb-library/db/skiplist.h:233-239 | moves to the last entry; invalid exactly when the list is empty |
| SkipLists.StepKeepsOrder | new-pompeius/Pods/leveldb-library/db/skiplist.h:337-368 | after every load or store of any interleaving the list is in order and no entry has become unreachable |
| SkipLists.PublishKeepsOrder | new-pompeius/Pods/leveldb-library/db/skiplist.h:361-367 | storing the prepared node into its predecessor's link keeps a level in order and adds exactly that entry |
| SkipLists.PrepareKeepsOrder | new-pompeius/Pods/leveldb-library/db/skiplist.h:361-366 | setting the link of a node that is not reachable yet changes nothing |
| SkipLists.StepKeepsReader | new-pompeius/Pods/leveldb-library/db/skiplist.h:260-281 | a reader always stands on a reachable node in front of its goal; its last load gives both neighbours of the goal |
| SkipLists.SearchIsAtomic | new-pompeius/Pods/leveldb-library/db/skiplist.h:260-322 | a search interleaved with inserts, from the head at any height, ends with the answer for the list at one instant of the run, and steps past no entry that was there when it began |
| InternalKeys.ParseInternalKey | new-pompeius/Pods/leveldb-library/db/dbformat.h:165-175 | accepts exactly the keys of at least eight bytes whose type byte is known, and the fields it finds pack to the same bytes |
| InternalKeys.InternalKeyRoundTrip | new-pompeius/Pods/leveldb-library/db/dbformat.cc:14-24 | user key, sequence number and type survive packing into an internal key |
| InternalKeys.CompareIsTheOrder | new-pompeius/Pods/leveldb-library/db/dbformat.cc:47-64 | comparing encoded keys is: user keys ascending, then sequence numbers descending, then types descending |
| InternalKeys.SeparatorSeparates | new-pompeius/Pods/leveldb-library/db/dbformat.cc:66-83 | the shortened key lies at or after the start and strictly before the limit, for any proposal of the user comparator |
| InternalKeys.SuccessorIsNotSmaller | new-pompeius/Pods/leveldb-library/db/dbformat.cc:85-97 | the shortened key is not smaller than the key, and is a different one only if it is shorter and larger |
| MemTables.ComparatorIsTheOrder | new-pompeius/Pods/leveldb-library/db/memtable.cc:28-34 | KeyComparator computes the internal key order from the bytes of entries and lookup keys |
| MemTables.BufferParts | new-pompeius/Pods/leveldb-library/db/memtable.cc:106-128 | the pieces Get cuts out of an entry are the ones Add put in |
| MemTables.EncodeEntry | new-pompeius/Pods/leveldb-library/db/memtable.cc:75-98 | the arena block filled through the moving pointer is length-prefixed internal key, length-prefixed value, and ends exactly at its computed length |
| MemTables.MemTable.constructor | new-pompeius/Pods/leveldb-library/db/memtable.cc:21-22 | a new memtable holds nothing |
| MemTables.MemTable.Add | new-pompeius/Pods/leveldb-library/db/memtable.cc:75-100 | adds exactly the entry (key, sequence, type, value) |
| MemTables.MemTable.Get | new-pompeius/Pods/leveldb-library/db/memtable.cc:102-134 | returns the value, the deletion or "not here" that the newest entry at or below the snapshot says |
| MemTables.CeilingDecides | new-pompeius/Pods/leveldb-library/db/memtable.cc:102-115 | the first entry at or after (key, s, largest type) is the newest visible one; with another user key, nothing is visible |
| MemTables.LookupDecidesRead | new-pompeius/Pods/leveldb-library/db/memtable.cc:116-130 | "not here" means that nothing is visible; any other answer is the answer of the read |
| MemTables.UpperLayerDecides | new-pompeius/Pods/leveldb-library/db/db_impl.cc:1121-1131 | if all of a layer is newer, its answer is final, and without one the layer below answers |
| MemTables.Get | new-pompeius/Pods/leveldb-library/db/db_impl.cc:1100-1145 | memtable, immutable memtable and tables searched in this order answer a read of their union |
| Coding.FixedRoundTrip | new-pompeius/Pods/leveldb-library/util/coding.cc:9-33 | little-endian integers round trip |
| Coding.GetVarint32RoundTrip | new-pompeius/Pods/leveldb-library/util/coding.cc:112-140 | 32-bit varints round trip in front of any bytes |
| Coding.LengthPrefixedRoundTrip | new-pompeius/Pods/leveldb-library/util/coding.cc:98-101 | length-prefixed slices round trip in front of any bytes |
| Coding.UnmaskMask | new-pompeius/Pods/leveldb-library/util/crc32c.h:29-38 | unmasking a masked checksum gives it back |
| WriteBatches.WriteBatch.constructor | new-pompeius/Pods/leveldb-library/db/write_batch.cc:29-38 | a new batch is an empty layout |
| WriteBatches.WriteBatch.Clear | new-pompeius/Pods/leveldb-library/db/write_batch.cc:35-38 | an empty layout again |
| WriteBatches.WriteBatch.SetSequence | new-pompeius/Pods/leveldb-library/db/write_batch.cc:94-96 | only the sequence number of the layout changes |
| WriteBatches.WriteBatch.Add | new-pompeius/Pods/leveldb-library/db/write_batch.cc:98-109 | a layout of some updates becomes the layout of these and one more, whatever the lengths |
| WriteBatches.WriteBatch.Append | new-pompeius/Pods/leveldb-library/db/write_batch.cc:144-148 | the layouts of two lists of updates become the layout of their concatenation |
| WriteBatches.WriteBatch.Iterate | new-pompeius/Pods/leveldb-library/db/write_batch.cc:42-80 | replays the longest prefix of records that parses; succeeds exactly if all do and the count agrees |
| WriteBatches.WriteBatch.InsertInto | new-pompeius/Pods/leveldb-library/db/write_batch.cc:114-137 | the memtable gains exactly the replayed updates, under consecutive sequence numbers, if it has none of their internal keys yet |
| WriteBatches.LayoutGrows | new-pompeius/Pods/leveldb-library/db/write_batch.cc:98-109 | counting and appending records, in place, yields the layout of the longer list, the count modulo 2^32 |
| WriteBatches.BatchRoundTrip | new-pompeius/Pods/leveldb-library/db/write_batch.cc:42-148 | what any Puts, Deletes and Appends laid out is replayed exactly; the count check passes exactly below 2^31 updates |
| CommitQueue.GroupIsLongest | new-pompeius/Pods/leveldb-library/db/db_impl.cc:1269-1303 | a group is the longest prefix of the queue that keeps sync writers out of non-sync groups and, unless it carries the leader's batch alone, the size limit |
| CommitQueue.GroupCountFits | new-pompeius/Pods/leveldb-library/db/db_impl.cc:1207-1207 | merging batches cannot overflow the signed count if the leader's own count fits |
| CommitQueue.WriterQueue.BuildBatchGroup | new-pompeius/Pods/leveldb-library/db/db_impl.cc:1258-1306 | the loop picks exactly that group, and the returned batch carries the group's updates in queue order; the temporary batch is touched only if used |
| CommitQueue.WriterQueue.Join | new-pompeius/Pods/leveldb-library/db/db_impl.cc:1294-1301 | switching to the temporary batch and appending yields the concatenation |
| CommitQueue.WriterQueue.StartGroup | new-pompeius/Pods/leveldb-library/db/db_impl.cc:1202-1207 | the group's batch is numbered from the last sequence on, and the new last sequence is its last update if the leader's own count fits |
| CommitQueue.WriterQueue.Enqueue | new-pompeius/Pods/leveldb-library/db/db_impl.cc:1185-1192 | a caller joins at the end; nobody in the queue is left without someone awake at the front |
| CommitQueue.WriterQueue.WaitTurn | new-pompeius/Pods/leveldb-library/db/db_impl.cc:1193-1198 | a caller goes on exactly when its call is done or it is at the front, and sleeps otherwise, with somebody awake at the front |
| CommitQueue.WriterQueue.PopGroup | new-pompeius/Pods/leveldb-library/db/db_impl.cc:1239-1253 | exactly the group leaves the queue; every other member gets the status, is marked done and woken; the new front is woken, nobody else; whoever still sleeps is in the queue behind a front that is awake |
| CommitRuns.GroupIsOneAtATime | new-pompeius/Pods/leveldb-library/db/db_impl.cc:1200-1237 | committing a group and committing its members one after the other give the same updates, numbers and last sequence |
| CommitRuns.StepKeeps | new-pompeius/Pods/leveldb-library/db/db_impl.cc:1185-1256 | the invariant below holds after every step of any caller |
| CommitRuns.FinishKeeps | new-pompeius/Pods/leveldb-library/db/db_impl.cc:1226-1248 | ending a group moves exactly its members from the queue to the settled calls, clears the temporary batch and publishes the numbers |
| CommitRuns.LeadKeeps | new-pompeius/Pods/leveldb-library/db/db_impl.cc:1203-1207 | starting a group finds the temporary batch empty and takes over exactly the group's updates |
| CommitRuns.GroupInLog | new-pompeius/Pods/leveldb-library/db/db_impl.cc:1215-1222 | each member's updates lie in the group's log record at its own numbers; a sync member's record is synced |
| CommitRuns.GroupCommitIsOneAtATime | new-pompeius/Pods/leveldb-library/db/db_impl.cc:1185-1256 | in every state of every run: FIFO order, contiguous numbers, the database equal to the calls applied one at a time (plus a prefix of the group under way), temporary batch empty between groups, committed batches in the log and synced if asked |
| CommitRuns.CallsAreAnswered | new-pompeius/Pods/leveldb-library/db/db_impl.cc:1192-1253 | while a call is queued the caller at the front can take a step; every such step brings the call closer to its answer, and new arrivals do not put it back |
| CommitRuns.BatchIsWhole | new-pompeius/Pods/leveldb-library/db/db_impl.cc:1206-1224 | every update of a committed batch is there, under consecutive numbers |
| CommitRuns.SnapshotsSeeWholeBatches | new-pompeius/Pods/leveldb-library/db/db_impl.cc:1100-1136 | a reader with any snapshot, at any later moment and even between two inserts of a leader, sees exactly the batches settled when the snapshot was taken |
| CommitRuns.StaysUndisturbed | new-pompeius/Pods/leveldb-library/db/db_impl.cc:1223-1236 | later commits add only updates with numbers above a snapshot already taken |
| CommitReads.ReadIsPlainRead | new-pompeius/Pods/leveldb-library/db/memtable.cc:102-134 | with growing numbers, the newest visible entry of a key is its last update: a read is a look into a plain map |
| CommitReads.GetsSeeWholeBatches | new-pompeius/Pods/leveldb-library/db/db_impl.cc:1100-1136 | a Get at a snapshot taken in any state of a run returns, at any later moment, what a plain map holds after the calls settled by then, taken one at a time in queue order |
| LogFormat.NextChunk | new-pompeius/Pods/leveldb-library/db/log_writer.cc:40-72 | a fragment never crosses a block, follows at most six bytes of trailer, and is empty only in front of a block end |
| LogFormat.EmitLength | new-pompeius/Pods/leveldb-library/db/log_writer.cc:34-80 | the bytes emitted for a record end where the placement says |
| LogFormat.EmittedRecordHeld | new-pompeius/Pods/leveldb-library/db/log_writer.cc:34-80 | every chunk of an emitted record lies in the file at its place |
| LogFormat.LogsConcatenate | new-pompeius/Pods/leveldb-library/db/log_writer.cc:27-30 | the layout of two lists of records is the first layout followed by the second from where it ended |
| LogWriter.Writer.constructor | new-pompeius/Pods/leveldb-library/db/log_writer.cc:23-25 | a writer of an empty file |
| LogWriter.Writer.Reopen | new-pompeius/Pods/leveldb-library/db/log_writer.cc:27-30 | a writer that continues a file, aligned with its length |
| LogWriter.Writer.EmitPhysicalRecord | new-pompeius/Pods/leveldb-library/db/log_writer.cc:82-108 | header and data are in the file if the call succeeds and a prefix of them otherwise, also when only the flush fails; the block offset advances in any case |
| LogWriter.Writer.SwitchBlock | new-pompeius/Pods/leveldb-library/db/log_writer.cc:44-55 | fills a trailer with zeros, or with as many as the append took, and starts a new block as if it had taken all |
| LogWriter.Writer.EmitFragment | new-pompeius/Pods/leveldb-library/db/log_writer.cc:43-77 | one turn of the loop: some of the trailer, then the next fragment of the layout or a prefix of it; the offset moves on as if all were written |
| LogWriter.Writer.WriteNext | new-pompeius/Pods/leveldb-library/db/log_writer.cc:43-77 | each turn continues the record's chunks where the last one ended, and gets closer to the whole record or stops at a failure |
| LogWriter.Writer.AddRecord | new-pompeius/Pods/leveldb-library/db/log_writer.cc:34-80 | a prefix of the trailer and a prefix of the chunks of the record's layout are appended, all the chunks on success; the offset moves on by the whole trailer and the chunks up to the failing one; an aligned writer stays aligned exactly if the missing bytes are a multiple of the block size |
| LogWriter.EmitByOffsetInBlock | new-pompeius/Pods/leveldb-library/db/log_writer.cc:34-80 | what is written depends only on the offset within the block |
| LogReader.Reader.constructor | new-pompeius/Pods/leveldb-library/db/log_reader.cc:18-29 | a reader at the start of the file |
| LogReader.Reader.ReadBlock | new-pompeius/Pods/leveldb-library/db/log_reader.cc:192-208 | the next block is read whole, or what is left of the file; a failing read is reported as a dropped block and counts as the end |
| LogReader.Reader.ReadPhysicalRecord | new-pompeius/Pods/leveldb-library/db/log_reader.cc:189-271 | buffered reading agrees with a stateless reading of the file at the current offset, including trailers, the end of the file and dropped bytes, unless a read fails, which ends it |
| LogReader.Reader.ParsePhysicalRecord | new-pompeius/Pods/leveldb-library/db/log_reader.cc:217-270 | bad lengths, zeroed headers and checksum failures give up the buffer and report what they drop |
| LogReader.Reader.TakeFragment | new-pompeius/Pods/leveldb-library/db/log_reader.cc:88-170 | one physical record changes the assembly exactly as specified, report for report |
| LogReader.Reader.ReadRecord | new-pompeius/Pods/leveldb-library/db/log_reader.cc:56-174 | returns the next record of the replay with exactly its reports, or ends with nothing left or at a failed read; each record consumes bytes |
| LogReader.Reader.ReadAll | new-pompeius/Pods/leveldb-library/db/db_impl.cc:418-453 | reading until the end returns the whole replay, and after a failed read a prefix of its records |
| LogProofs.ReadChunk | new-pompeius/Pods/leveldb-library/db/log_reader.cc:189-271 | a reader in front of a chunk, or in the trailer before it, gets the chunk |
| LogProofs.ReadTorn | new-pompeius/Pods/leveldb-library/db/log_reader.cc:218-232 | a file cut off inside a chunk reads as its end |
| LogProofs.LogRoundTrip | new-pompeius/Pods/leveldb-library/db/log_reader.cc:56-271 | reading a complete log returns exactly the records written, with no report |
| LogProofs.TornTail | new-pompeius/Pods/leveldb-library/db/log_reader.cc:56-271 | after truncation at any byte, exactly the records wholly inside the rest are returned, with no report |
| LogProofs.DamageNeverFabricates | new-pompeius/Pods/leveldb-library/db/log_reader.cc:56-271 | with any bytes damaged and changes detected by the checksum, only whole written records are returned, in order, and every record without a fragment in a damaged block is |
| LogProofs.RetainedPositions | new-pompeius/Pods/leveldb-library/db/log_reader.cc:56-174 | spelled out: the returned records are the written ones at strictly increasing positions, all protected positions among them |
| LogProofs.DamagedRecord | new-pompeius/Pods/leveldb-library/db/log_reader.cc:88-170 | from any point inside a record, in step or out of step, the reader retains what it must |
| LogProofs.ReadDamaged | new-pompeius/Pods/leveldb-library/db/log_reader.cc:236-257 | at the place of a chunk the reader gets the chunk, or gives up a damaged block, or is at the end of the file |
| LogCapacity.ReplayWithinCapacity | new-pompeius/Pods/leveldb-library/db/log_reader.cc:189-271 | whatever the bytes and whatever the checksum, a reader returns no more payload than the blocks have room for beside one header each |
| LogCapacity.PendingHelpsItsOwn | new-pompeius/Pods/leveldb-library/db/log_reader.cc:88-170 | an unfinished record can complete no record but one that starts with it |
| LogAppends.AppendExtendsLog | new-pompeius/Pods/leveldb-library/db/log_writer.cc:34-80 | a complete call of an aligned writer turns the log of some records into the log of these and one more |
| LogAppends.ReadsCompleteLog | new-pompeius/Pods/leveldb-library/db/log_reader.cc:56-271 | a reader goes through a complete log to its end and has nothing pending there, whatever follows |
| LogAppends.InStepIsAligned | new-pompeius/Pods/leveldb-library/db/log_writer.cc:34-80 | a call with a whole trailer, missing nothing or a multiple of a block, keeps an aligned writer aligned; with a whole trailer no other call does |
| LogAppends.CallReads | new-pompeius/Pods/leveldb-library/db/log_writer.cc:34-80 | after one such call a reader gets the records before it and, exactly if all of it is in the file, its record |
| LogAppends.CallsRead | new-pompeius/Pods/leveldb-library/db/log_writer.cc:34-80 | however many calls have failed, as long as each was in step: a reader gets exactly the records whose bytes are all in the file |
| LogAppends.LogAfterCalls | new-pompeius/Pods/leveldb-library/db/log_writer.cc:27-80 | the same from any complete log on, for a fresh or a reopened writer |
| LogAppends.AcknowledgedIsThere | new-pompeius/Pods/leveldb-library/db/log_writer.cc:34-80 | every acknowledged record is among those |
| LogAppends.ReopenedLogRoundTrip | new-pompeius/Pods/leveldb-library/db/log_writer.cc:27-30 | a writer reopened on a complete log continues it: the reader gets both parts |
| LogAppends.WriteAll | new-pompeius/Pods/leveldb-library/db/db_impl.cc:1214-1221 | a writer that is used on past any failures leaves the file that its calls describe; if they were all in step the reader gets the log before it and exactly the records completely written, all acknowledged ones among them |
| LogAlignment.ExactlyAlignedWritersLogCorrectly | new-pompeius/Pods/leveldb-library/db/log_writer.cc:34-108 | behind any file that reads as some records, with anything pending: every list of further records, appended without error, is read back if and only if the writer's offset and the file's length agree modulo the block size |
| LogAlignment.ExactlyAlignedWritersContinueLogs | new-pompeius/Pods/leveldb-library/db/log_writer.cc:27-108 | the same behind the complete log of any records |
| LogAlignment.LostOutOfStep | new-pompeius/Pods/leveldb-library/db/log_writer.cc:34-108 | for any writer out of step and any checksum, a list of records that is appended without error and not read back |
| LogAlignment.StraddlerIsLost | new-pompeius/Pods/leveldb-library/db/log_reader.cc:217-232 | a chunk laid across a block boundary yields nothing |
| LogAlignment.ShiftedChunkIsLost | new-pompeius/Pods/leveldb-library/db/log_reader.cc:217-257 | a chunk behind a few zeros at the start of a block does not come back, whatever passes for a header there |
| LogAlignment.CutTrailerLosesRecord | new-pompeius/Pods/leveldb-library/db/log_writer.cc:44-55 | when the append that fills a trailer is cut short and the rest succeeds, AddRecord of an empty record succeeds, the record is not read back, and the writer is out of step |
| LogAlignment.FailedAppendLosesRecord | new-pompeius/Pods/leveldb-library/db/log_writer.cc:82-108 | after a failed call of which nothing reached the file the writer logs correctly if and only if the call ended on a block boundary |
| DurabilityProofs.PromisesAreDurable | new-pompeius/Pods/leveldb-library/db/db_impl.cc:316-369 | in every state of every run, with crashes anywhere, each promised update is in a table of the manifest or in a log that recovery replays |
| DurabilityProofs.NothingInUseIsDeleted | new-pompeius/Pods/leveldb-library/db/db_impl.cc:223-278 | while open: readers find every promised update, no table of a referenced version is missing, and finished outputs of a running compaction or flush are still there |
| DurabilityProofs.RecoveryRestoresPromises | new-pompeius/Pods/leveldb-library/db/db_impl.cc:349-369 | when recovery ends, every promise is in a table of the new version, and the last sequence is at least every update found |
| DurabilityProofs.RecoveryFindsItsTables | new-pompeius/Pods/leveldb-library/db/db_impl.cc:330-347 | recovery never finds a table of the manifest missing |
| DurabilityProofs.EditNumbersAreOrdered | new-pompeius/Pods/leveldb-library/db/db_impl.cc:551-555 | the log number of an edit is never below the current one and always below the next file number |
| DurabilityProofs.StepKeeps | new-pompeius/Pods/leveldb-library/db/db_impl.cc:1310-1370 | the invariant behind these holds after every step |
| DurabilityProofs.AppendKeeps | new-pompeius/Pods/leveldb-library/db/db_impl.cc:1215-1221 | appending to the log, in step or out of step, or failing to with or without the record in the file |
| DurabilityProofs.AcknowledgeKeeps | new-pompeius/Pods/leveldb-library/db/db_impl.cc:1223-1236 | inserting and telling the callers |
| DurabilityProofs.SwitchKeeps | new-pompeius/Pods/leveldb-library/db/db_impl.cc:1345-1366 | switching to a new log and memtable, the old log closed without a sync |
| DurabilityProofs.FinishBuildKeeps | new-pompeius/Pods/leveldb-library/db/db_impl.cc:491-533 | writing the level-0 table; from here on its number is no longer pending |
| DurabilityProofs.EndEditKeeps | new-pompeius/Pods/leveldb-library/db/db_impl.cc:549-566 | installing a flush or a compaction, or failing to with the disk changed or not |
| DurabilityProofs.EditKeepsDisk | new-pompeius/Pods/leveldb-library/db/db_impl.cc:549-555 | an edit that is being written leaves the disk recoverable whenever it takes effect |
| DurabilityProofs.DeleteLogKeeps | new-pompeius/Pods/leveldb-library/db/db_impl.cc:244-247 | deleting a log below the log number |
| DurabilityProofs.DeleteTableKeeps | new-pompeius/Pods/leveldb-library/db/db_impl.cc:253-261 | deleting a table that is neither in a version nor pending |
| DurabilityProofs.CrashKeeps | new-pompeius/Pods/leveldb-library/db/db_impl.cc:316-369 | the process stops anywhere |
| DurabilityProofs.ReplayRecordKeeps | new-pompeius/Pods/leveldb-library/db/db_impl.cc:418-439 | replaying one record |
| DurabilityProofs.FlushRecoveredKeeps | new-pompeius/Pods/leveldb-library/db/db_impl.cc:441-452 | writing a table during recovery, over whatever an earlier attempt left under its number |
| DurabilityProofs.CloseLogKeeps | new-pompeius/Pods/leveldb-library/db/db_impl.cc:351-362 | finishing a log and marking its number used |
| DurabilityProofs.FinishRecoverKeeps | new-pompeius/Pods/leveldb-library/db/db_impl.cc:1483-1502 | making a new log and installing the recovered tables together with its number |
| RecoveryCode.Database.AddLiveFiles | new-pompeius/Pods/leveldb-library/db/db_impl.cc:232-234 | the union of all referenced versions and the pending outputs |
| RecoveryCode.Database.DeleteObsoleteFiles | new-pompeius/Pods/leveldb-library/db/db_impl.cc:223-278 | exactly the files that are not needed go, over all file types; nothing goes after a background error |
| RecoveryCode.Database.LogsToReplay | new-pompeius/Pods/leveldb-library/db/db_impl.cc:316-350 | exactly the logs from the log number on (and the previous log), in ascending order; a table is missed exactly if no file of any kind has its number |
| RecoveryCode.KeepsWhatTheModelKeeps | new-pompeius/Pods/leveldb-library/db/db_impl.cc:244-261 | the files kept and the logs chosen are those of the step model |
| RecoveryCode.RecoverLogFile | new-pompeius/Pods/leveldb-library/db/db_impl.cc:371-489 | the tables written hold together exactly what the records say; short and malformed records end the replay or are passed over as the paranoid setting asks; it fails exactly for a bad record or a reported corruption under paranoid checks, or a table that cannot be written; the largest last sequence is returned |
| RecoveryCode.RecoverLogs | new-pompeius/Pods/leveldb-library/db/db_impl.cc:349-368 | the loop of Recover: the tables of all logs hold together exactly what the logs say, every log number is marked used, and the last sequence becomes the largest of the version's and the logs'; it fails exactly if the replay of one of the logs does |
| RecoveryCode.MaxCoversEntries | new-pompeius/Pods/leveldb-library/db/db_impl.cc:435-439 | the largest last sequence of a replayed log is at least the number of every entry recovered from it |
| RecoveryCode.InsertRecord | new-pompeius/Pods/leveldb-library/db/db_impl.cc:424-430 | one record is inserted as far as it parses |
| RecoveryCode.ReplayOfBatches | new-pompeius/Pods/leveldb-library/db/db_impl.cc:418-453 | the records of well-formed batches replay without error to exactly their entries |
| RecoveryCode.RecoveredFromTornLog | new-pompeius/Pods/leveldb-library/db/db_impl.cc:408-453 | from the bytes of a log cut off anywhere: exactly the batches wholly inside are recovered, each whole and under its own numbers, without an error, and the last sequence covers them |
| RecoveryCode.CommittedCallsAreRecovered | new-pompeius/Pods/leveldb-library/db/db_impl.cc:1185-1256 | from the return of Write to recovery: every update of a committed call is recovered from any log file that reaches to the end of the call's record |
| Background.Scheduler.MaybeScheduleCompaction | new-pompeius/Pods/leveldb-library/db/db_impl.cc:648-663 | schedules exactly when there is work and no error or shutdown, and never a second call |
| Background.Scheduler.RecordBackgroundError | new-pompeius/Pods/leveldb-library/db/db_impl.cc:640-646 | the first error is kept and everyone is woken |
| Background.Scheduler.MakeRoomTurn | new-pompeius/Pods/leveldb-library/db/db_impl.cc:1310-1370 | each turn of the loop takes the first applicable branch; a writer waits only while exactly one background call is outstanding |
| Background.Scheduler.CompactRangeTurn | new-pompeius/Pods/leveldb-library/db/db_impl.cc:608-621 | a requester puts its request if the place is free, waits only while a call is outstanding, and takes its request back when it leaves |
| Background.Scheduler.UpdateStats | new-pompeius/Pods/leveldb-library/db/db_impl.cc:1138-1140 | work found by a read is scheduled at once |
| Background.Scheduler.SyncError | new-pompeius/Pods/leveldb-library/db/db_impl.cc:1227-1232 | a failed sync stops background work and wakes everyone |
| Background.Scheduler.BackgroundCall | new-pompeius/Pods/leveldb-library/db/db_impl.cc:669-704 | a call flushes first, then serves a manual request, then compacts; with an error or a shutdown it only ends |
| Background.Scheduler.EndCall | new-pompeius/Pods/leveldb-library/db/db_impl.cc:680-685 | the flag is cleared, more work is scheduled exactly if there is some, and everyone is woken |
| Background.Scheduler.EndCompactMemTable | new-pompeius/Pods/leveldb-library/db/db_impl.cc:557-565 | imm_ and has_imm_ change together, or the error is recorded |
| Background.Scheduler.NestedFlush | new-pompeius/Pods/leveldb-library/db/db_impl.cc:906-917 | a flush in the middle of a compaction wakes waiting writers although the call goes on |
| Background.Scheduler.FinishFlush | new-pompeius/Pods/leveldb-library/db/db_impl.cc:691-694 | the end of a flush: the invariant, and nobody left waiting |
| Background.Scheduler.FinishCompaction | new-pompeius/Pods/leveldb-library/db/db_impl.cc:746-766 | a manual compaction finds its request gone exactly if the requester took it back, which takes an error or a shutdown |
| Background.WaitersAreWoken | new-pompeius/Pods/leveldb-library/db/db_impl.cc:669-686 | whoever waits has exactly one background call ahead of it |
| Background.RequesterLeavesTooEarly | new-pompeius/Pods/leveldb-library/db/db_impl.cc:754-766 | a sync error during a manual compaction makes the background thread read a null request |
| PbWire.VarintRoundTrip | new-pompeius/Pods/nanopb/pb_decode.c:255-276 | every 64-bit number survives in at most ten bytes |
| PbWire.ZigZagRoundTrip | new-pompeius/Pods/nanopb/pb_decode.c:1269-1281 | every 64-bit signed number survives ZigZag |
| PbWire.Varint32RoundTrip | new-pompeius/Pods/nanopb/pb_decode.c:187-247 | every 32-bit number survives the 32-bit decoder |
| PbWire.Varint32OfEncoder | new-pompeius/Pods/nanopb/pb_decode.c:187-247 | on encoder output the 32-bit decoder returns numbers below 2^32 and the low half of a sign-extended negative int32, and rejects everything from 2^32 up to 2^63 |
| PbWire.WideAgrees | new-pompeius/Pods/nanopb/pb_decode.c:209-237 | up to 36 continuation bytes, counting bits in eight bits makes no difference |
| PbWire.WrappedGroupAccepted | new-pompeius/Pods/nanopb/pb_decode.c:209-237 | behind 37 continuation bytes a group beyond bit 32 is accepted and lands at bit 3 |
| PbProofs.SignedRoundTrip | new-pompeius/Pods/nanopb/pb_decode.c:1329-1364 | integers of 1 to 8 bytes survive the clamping decoder |
| PbProofs.ValueRoundTrip | new-pompeius/Pods/nanopb/pb_decode.c:1318-1548 | every kind of value, nested messages included, survives exactly if it fits the decoder |
| PbProofs.PackedRoundTrip | new-pompeius/Pods/nanopb/pb_decode.c:413-440 | a packed array survives element by element |
| PbProofs.SkipEncoded | new-pompeius/Pods/nanopb/pb_decode.c:321-334 | whatever an unknown field holds is skipped as a whole |
| PbProofs.TaggedRoundTrip | new-pompeius/Pods/nanopb/pb_decode.c:406-480 | a run of tagged values is decoded into one field, or rejected, exactly as each value allows |
| PbProofs.FieldsRoundTrip | new-pompeius/Pods/nanopb/pb_decode.c:925-1072 | field by field the decoder's struct becomes the projection of the encoder's |
| PbProofs.FinishAccepts | new-pompeius/Pods/nanopb/pb_decode.c:1029-1070 | after all fields no fixed array lacks an element and no required field is missing |
| PbProofs.MessageRoundTrip | new-pompeius/Pods/nanopb/pb_decode.c:925-1087 | decoding an encoded message gives its projection if all strings fit, and fails otherwise |
| PbRoundTrip.TypedMessageEncodes | new-pompeius/Pods/nanopb/pb_encode.c:519-541 | every well-formed message encodes |
| PbRoundTrip.ForwardCompatible | new-pompeius/Pods/nanopb/pb_decode.c:925-1087 | with a descriptor that knows some of the fields, at any depth: decoding succeeds exactly if the strings due leave room for a NUL, and agrees on every known field |
| PbRoundTrip.WholeMessageRoundTrip | new-pompeius/Pods/nanopb/pb_decode.c:925-1087 | the same for one descriptor: required, optional, implicit, packed and unpacked repeated, fixed count, oneof, bytes, strings and nested messages |
| PbEncode.OStream.Write | new-pompeius/Pods/nanopb/pb_encode.c:103-121 | succeeds exactly if there is room; a sizing stream only counts |
| PbEncode.FillBuffer | new-pompeius/Pods/nanopb/pb_encode.c:606-616 | the loop and the clearing of the last continuation bit produce the varint |
| PbEncode.EncodeVarint | new-pompeius/Pods/nanopb/pb_encode.c:599-619 | appends exactly the varint, or fails for lack of room |
| PbEncode.EncodeSubmessage | new-pompeius/Pods/nanopb/pb_encode.c:708-756 | size pass and write pass agree at every depth, so the size check after writing never fails |
| PbEncode.PackedSize | new-pompeius/Pods/nanopb/pb_encode.c:159-180 | the size computed for a packed array, fixed or variable width, is that of its contents |
| PbEncode.EncodeArray | new-pompeius/Pods/nanopb/pb_encode.c:144-233 | packed and unpacked arrays come out as specified |
| PbEncode.EncodeBasicField | new-pompeius/Pods/nanopb/pb_encode.c:332-417 | a field comes out as its presence, tag and type ask |
| PbEncode.Encode | new-pompeius/Pods/nanopb/pb_encode.c:519-541 | a stream takes exactly the encoding of the message if there is one and it fits; a sizing stream counts its length |
| PbEncode.GetEncodedSize | new-pompeius/Pods/nanopb/pb_encode.c:558-567 | returns the length of the encoding |
| PbEncode.EncodeToBuffer | new-pompeius/Pods/nanopb/pb_encode.c:74-98 | a message encodes into a buffer exactly if its encoding is no longer than the buffer |
| PbDecode.IStream.Read | new-pompeius/Pods/nanopb/pb_decode.c:102-137 | advances by exactly what bytes_left drops, or leaves the stream alone |
| PbDecode.DecodeVarint64 | new-pompeius/Pods/nanopb/pb_decode.c:255-276 | the shifting loop reads the specified number and leaves the rest |
| PbDecode.GroupInPlace | new-pompeius/Pods/nanopb/pb_decode.c:268-270 | a group shifted past the 64th bit loses exactly what does not fit |
| PbDecode.DecodeVarint32Eof | new-pompeius/Pods/nanopb/pb_decode.c:187-247 | number, end of stream or failure as specified, with the bit position in eight bits, for over-long and sign-extended input too |
| PbDecode.SkipVarintBytes | new-pompeius/Pods/nanopb/pb_decode.c:278-287 | skips exactly one varint |
| PbDecode.MakeSubstream | new-pompeius/Pods/nanopb/pb_decode.c:372-385 | the substream covers exactly the announced bytes |
| PbDecode.CloseSubstream | new-pompeius/Pods/nanopb/pb_decode.c:387-400 | the parent continues behind the substream, whatever was left unread in it |
| PbDecode.SkipFieldData | new-pompeius/Pods/nanopb/pb_decode.c:321-334 | skips exactly one field of its wire type |
| PbDecode.DecodeFieldValue | new-pompeius/Pods/nanopb/pb_decode.c:1318-1548 | the field decoders read the specified value, a nested message from its own substream |
| PbDecode.DecodePackedElements | new-pompeius/Pods/nanopb/pb_decode.c:413-440 | elements are appended until the substream is used up; too many are an error |
| PbDecode.DecodeStaticField | new-pompeius/Pods/nanopb/pb_decode.c:406-480 | one field is merged into the struct as specified |
| PbDecode.AllRequiredSeen | new-pompeius/Pods/nanopb/pb_decode.c:1040-1070 | the check of whole words and then of the last bits accepts exactly the bitmaps with all required bits |
| PbDecode.DecodeNoInitFrom | new-pompeius/Pods/nanopb/pb_decode.c:925-1072 | the loop decodes exactly what the specification does, and terminates by what is left of the stream |
| PbRequired.RequiredFieldsWereRead | new-pompeius/Pods/nanopb/pb_decode.c:1012-1070 | a message is accepted only if a key for each of the first 64 required fields was read |
| PbIter.FieldIter.Begin | new-pompeius/Pods/nanopb/pb_common.c:8-18 | the first field; false for an empty message |
| PbIter.FieldIter.Next | new-pompeius/Pods/nanopb/pb_common.c:20-76 | data pointer, size pointer and required index depend on the position only, however often the iterator wrapped around |
| PbIter.FieldIter.Find | new-pompeius/Pods/nanopb/pb_common.c:78-95 | terminates from anywhere and succeeds exactly if a non-extension field has the tag; in an empty message exactly for tag 0 |
| PbIter.FieldIter.CountRequired | new-pompeius/Pods/nanopb/pb_decode.c:1040-1047 | the number of required fields, from any position |

## Left out

Leaving these out loses no hard property:

- The application's own Swift code, IQKeyboardManager, and the authentication, session and Firebase headers: no algorithms.
- `c.cc`, `port.h`, `filter_policy.cc`, `dumpfile.cc`, `filename.cc`, `builder.cc`, `table_cache.cc`, `repair.cc`, `err_data.c`: wrappers, printing, names and tables over other code.
- `version_edit.cc` and the insides of `version_set.cc`: an edit is a value that is installed as a whole; picking compactions is not modelled.
- SSTable format, block cache, arena, file system and the CRC polynomial: used by contract only.
- Memory ordering: loads and stores are atomic and sequentially consistent.
- Read sampling, statistics, info logging, sleeping, saved_value_ capacity and GetProperty: they change no result.
- Reader with an initial offset above 0: only approximate reporting is promised there.
- `reuse_logs`: assumed false, as by default; the reused writer would append right behind a torn tail.
- The log reader's Reporter: reports are the numbers of dropped bytes.
- MemTableIterator: a thin wrapper around the skip list iterator.
- nanopb pointer fields, user callbacks, extensions and builds without 64-bit integers: foreign code or non-default flags.

What particular members do not capture:

- LogProofs.DamageNeverFabricates: assumes that the checksum detects every change of a chunk at the place where it was written, and damage that keeps the file's length.
- RecoveryCode.CommittedCallsAreRecovered: speaks of a complete log file, as calls in step leave it (`LogAppends.LogAfterCalls`), and of keys and values below 4 GiB, counts below 2^31 and sequence numbers up to 2^56-1.
- RecoveryCode.RecoverLogFile: the sequence numbers of the records must grow, as the skip list forbids equal keys; where the log reader reports a corruption is an input.
- DurabilityProofs.PromisesAreDurable: a process crash, so bytes handed to the file system stay; a power failure is not modelled. Updates written to a log that is out of step are promised from their flush on.
- Durability: an entry dropped by a compaction counts as accounted for by the outputs; that reads do not change is `Compaction.CompactionPreservesReadsIff`.
- CommitRuns.GroupCommitIsOneAtATime: batches are well formed, so that inserting cannot fail (`WriteBatches.BatchRoundTrip` says which are); a record counts as logged when AddRecord succeeds, and `LogAlignment` says when it can be read.
- SkipLists.SearchIsAtomic: sequentially consistent memory; that a search ends needs inserts to pause, and is proved for a list at rest only.
- Snapshots.SnapshotList.New: the sequence number may not go back, which is what the source asserts.
- MemTables.MemTable.Add: keys and values below 4 GiB, since lengths go out as 32-bit varints.
- Background.Scheduler.MakeRoomTurn: one turn of the loop per call; what other threads do between turns is any other method of the class.
- PbDecode.DecodeVarint32Eof: uint_fast8_t has eight bits; on a platform where it is wider the decoder is `PbWire.DecodeVarint32Wide`.
- PbMessage: memory is a map from places to slots, so padding, overlapping union members and pointer arithmetic are not modelled; sizes are unbounded instead of size_t.
- PbDecode.DecodeNoInitFrom: the struct is handed over and returned as a value instead of being written in place; what a failed decode leaves in it is not described.
- PbRoundTrip.WholeMessageRoundTrip: encodings below 4 GiB, since the decoder reads lengths as 32-bit numbers.
- PbIter.FieldIter.Find: what the decoder writes through the position of an empty message is not described.
