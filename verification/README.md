# LevelDB and nanopb

A Dafny model of the two storage libraries the application bundles, and proofs of what they promise.

**LevelDB** is modelled as a whole store. `Store.dfy` is its state machine: batches are logged and applied, memtables
switched and flushed, files moved down or merged, snapshots taken and released, and the store crashes and recovers.
`Levels.dfy` holds the invariant of the levels, `Runs.dfy` what it means for reads over whole runs. `Db.dfy` is the
mutable store whose every operation takes one step of that machine, on top of `Version.dfy` (search), `Compaction.dfy`
(merging, dropping, cutting) with `Selection.dfy` (which files), `Lists.dfy` (merged lists) and `Builder.dfy` (edits).
`Nested.dfy` is about memtables flushed while a merge is at work, `Stale.dfy` about how a stale read comes about.

`Scan.dfy` joins the user-facing iterator (`DbIter.dfy`, `Merger.dfy`, `TwoLevel.dfy`) to the state machine, and
`Durable.dfy` joins runs of it to the bytes of the log and of the manifest (`Log.dfy`, `WriteBatch.dfy`,
`VersionEdit.dfy`, `Replay.dfy`); `Damage.dfy` is about damaged logs. These are modelled on their own data: the writer queue (`WriteQueue.dfy`), the
memtable's bytes and its skip list with a concurrent reader (`MemTable.dfy`, `SkipList.dfy`), the snapshot list
(`Snapshot.dfy`), blocks, filters and tables (`Block.dfy`, `Filter.dfy`, `Table.dfy`), and reference counts with the
deletion of obsolete files (`FileRefs.dfy`).

**nanopb** is modelled from its field descriptors: encoding (`PbEncode.dfy`) and decoding (`PbDecode.dfy`) are streams
proved against functions on bytes. `PbMerge.dfy` says what decoding an encoding does to a message that is there already,
with another descriptor than the encoder's, `PbRoundTrip.dfy` when decoding undoes encoding, and `PbAnyBytes.dfy` what
can come of bytes of any origin.

A user key is represented by its rank among byte strings, so that every comparator is covered. History variables list
the applied writes; `RefGet` on that list is the answer a read must give.

## Findings

- A read can be stale. A compaction under a live snapshot may cut its output between two entries of one user key, and a
  later compaction may then take only the newer one a level down, leaving the older in a level that is searched first.
  `Runs.StaleRead` is such a run: flushes go to the level picked for them, outputs are cut where the code cuts them, and
  by `StaleJobs.StaleReadIsMade` both compactions are what a request for the range of a level takes.
  `Runs.ReadsKeptIff` and `Runs.AnswersKeptIff` give the exact condition for a compaction step;
  `Runs.UnsnapshottedRunIsSafe` shows that it holds throughout when no snapshot is live at the start of any merge.
- A write can be lost to reads. A memtable flushed while a merge runs is placed by the files there were before the
  merge. When the merge's inputs have a gap, as those of a manual compaction may, an output can reach over the table in
  the same level, and the binary search goes to the output. `NestedFlushes.NestedFlushIsLost` is such a case,
  `NestedFlushes.FlushInMergeKeepsLevelsIff` the exact condition. By `NestedFlushes.PickedKeepsLevels` no compaction of
  one picked file is affected, whether its inputs are chained in level 0, grown, or neither: only manual ones can be.
- A flushed table is neither a pending output nor listed while its edit is logged with the lock free. If obsolete files
  were deleted then, it would be lost (`FileRefs.VersionSet.DeleteObsoleteFiles`, one step from the deletion filter).
  That none is lost is proved of the code's own sequences, with versions taken and dropped whenever the lock is free:
  `FileRefs.VersionSet.LogAndApply`, `CompactMemTable`, `DoCompactionWork` with flushes inside, and `Open`.
- A manifest cut right behind its snapshot record cannot be recovered from (`Replays.TornManifestRestores`).
- Saving a version once for several edits differs from saving it for each if and only if an edit adds a file under the
  number of a deleted one (`Builders.EditThenSaveIff`); the code never does (`Durability.StepKeepsDisk`).
- A log reader takes a physical record of type 5 or 6, with a right checksum, for its own codes: the first ends the file,
  the second is passed over without a report (`Damaged.PhysicalIff`, `Damaged.NothingMissed`). The writer emits neither.
- nanopb omits an implicit submessage whose first bytes look zero, and with it array entries and flags behind them
  (`PbRoundTrip.HiddenEntriesAreLost`). `PbRoundTrip.RestoresMeaningIff` gives the exact condition.
- A nanopb message cut inside a tag decodes as if it ended before that tag; cut anywhere else in a record it is an error
  (`PbAnyBytes.CutRecord`).
- nanopb's check for required fields shifts a word by its whole width when their number is a multiple of 32, and reads
  past its two words when there are 64 or more (`PbRoundTrip.DecodesIff`).

## Model

| member | source | states |
|---|---|---|
| Runs.ReadsKeptIff | ios/Pods/leveldb-library/db/version_set.cc:1345-1446 | a compaction step changes no read that a live or later snapshot can make if and only if it takes no entry readers may be after from above an older one of its user key that is left behind |
| Runs.AnswersKeptIff | ios/Pods/leveldb-library/db/version_set.cc:1345-1446 | every answer `Get` gives a live reader, memtables included, stays as it was if and only if every entry such a reader is after that is taken from above an older one looks the same as the older one |
| Runs.StaleRead | ios/Pods/leveldb-library/db/db_impl.cc:929-1004 | a run of writes, flushes to the levels the code picks, one snapshot and two compactions, cut and sized as the code does, after which the latest write reads as the one before it |
| StaleJobs.StaleReadIsMade | ios/Pods/leveldb-library/db/version_set.cc:1345-1446 | both compactions of that run are exactly what a request for the whole range of their level makes of the files it has |
| StaleJobs.FirstIsRanged | ios/Pods/leveldb-library/db/version_set.cc:1413-1446 | the request takes the file of level 0 and the one below it |
| StaleJobs.SecondIsRanged | ios/Pods/leveldb-library/db/version_set.cc:1357-1446 | the size limit leaves only the newer part of the split key, and growing it by the older would be too much |
| Runs.RunAnswersReads | ios/Pods/leveldb-library/db/db_impl.cc:1109-1154 | in every run whose compactions are safe, crashes and recoveries included, each read at the current state or a snapshot answers what the list of applied writes says |
| Runs.UnsnapshottedRunIsSafe | ios/Pods/leveldb-library/db/version_set.cc:1345-1411 | when no snapshot is live at the start of any merge, no user key is ever split over files of one level and every compaction is safe |
| Runs.UnsnapshottedRunAnswersReads | ios/Pods/leveldb-library/db/db_impl.cc:1109-1154 | hence every such run answers every read by the list of writes |
| Runs.ReadsRepeat | ios/Pods/leveldb-library/db/db_impl.cc:1175-1183 | a read at a snapshot answers the same at any two states of a safe run |
| Runs.SnapshotsStayReadable | ios/Pods/leveldb-library/db/db_impl.cc:900-905 | no live snapshot is ever passed by a compaction bound |
| Runs.RunKeepsInv | ios/Pods/leveldb-library/db/db_impl.cc:686-769 | the invariant holds at every state of a safe run, and the list of applied writes only grows |
| Runs.AfterRead | ios/Pods/leveldb-library/db/version_set.cc:332-429 | what a read finds after a compaction in terms of what it found before: the same entry, nothing for a dropped marker, or the older entry it was exposed to |
| Durability.CrashedRunRecovers | ios/Pods/leveldb-library/db/db_impl.cc:274-486 | after any run of the store and of what it writes, and a crash at any byte of the record being logged or of the edit being committed, the manifest and the logs give recovery the levels, the sizes and key ranges of their tables, the numbers and the log entries of the state, and the recovered store has every applied write and of the batch being written all or nothing |
| Durability.StepKeepsDisk | ios/Pods/leveldb-library/db/version_set.cc:820-903 | every step leaves on disk what the state after it needs: the edits add up to the levels, name each file once a level, with the size and the bounds of its table, and the logs hold the unflushed writes |
| Durability.RunKeepsDisk | ios/Pods/leveldb-library/db/version_set.cc:820-903 | so does every run from a new database |
| Durability.CrashKeepsManifest | ios/Pods/leveldb-library/db/version_set.cc:905-1026 | whatever edit is being written, the manifest bytes that survive give back the levels, what they say of each table, and the numbers of the state |
| Durability.CrashKeepsLogs | ios/Pods/leveldb-library/db/db_impl.cc:365-486 | the bytes that survive of the logs give back the entries a crash leaves, and their largest sequence number |
| Durability.LogMax | ios/Pods/leveldb-library/db/db_impl.cc:439-447 | the sequence number found from record headers is that of the last operation replayed, when that is not below the one the log starts from |
| Durability.BoundsAreMet | ios/Pods/leveldb-library/db/db_impl.cc:336-357 | and it never is, with logs replayed in turn from the number in the manifest, also when records without operations are among them |
| Durability.SnapshotHolds | ios/Pods/leveldb-library/db/version_set.cc:1102-1130 | the snapshot record of a new manifest alone gives back the files of every level |
| Scans.ScanShowsHistory | ios/Pods/leveldb-library/db/db_impl.cc:1067-1096 | the merged iterators of the memtables and of all levels show, in increasing order and once each, exactly the keys that the list of writes has a value for at the snapshot, with that value |
| Scans.NewIterator | ios/Pods/leveldb-library/db/db_impl.cc:1156-1166 | the user-facing iterator over the merging iterator of the store's children goes through exactly that list |
| Scans.ChildrenHoldAll | ios/Pods/leveldb-library/db/version_set.cc:227-250 | the child iterators are sorted, share no entry, and together yield every stored entry |
| Scans.MergedEntries | ios/Pods/leveldb-library/table/merger.cc:17-183 | the merging iterator's list over sorted children that share no entry is all their entries in internal key order |
| Scans.MergeMirrors | ios/Pods/leveldb-library/table/merger.cc:17-183 | merging cursor items is merging the entries they stand for |
| Scans.LevelIsTwoLevel | ios/Pods/leveldb-library/db/version_set.cc:227-232 | the two-level iterator over a level goes through the level's child list, and its index separates the files |
| EntryLists.MergeListsIsUnion | ios/Pods/leveldb-library/table/merger.cc:17-183 | the merge of lists that share no entry is the sorted list of all their entries |
| NestedFlushes.FlushInMergeKeepsLevelsIff | ios/Pods/leveldb-library/db/db_impl.cc:915-926 | a memtable flushed while a compaction is at work leaves the levels in order, once both are committed, if and only if no output spans the table in the level both go to |
| NestedFlushes.NestedFlushIsLost | ios/Pods/leveldb-library/db/db_impl.cc:915-926 | a run, and a merge allowed in it, after which a key flushed meanwhile is found by no lookup: the output that spans it is searched in its place |
| NestedFlushes.JobIsRanged | ios/Pods/leveldb-library/db/version_set.cc:1413-1446 | that merge is exactly what a request for the whole range of level 1 makes of its files |
| NestedFlushes.NoGapIsNotStraddled | ios/Pods/leveldb-library/db/version_set.cc:1345-1411 | a compaction whose inputs have no user key between them that none covers never spans such a table |
| NestedFlushes.PickedKeepsLevels | ios/Pods/leveldb-library/db/db_impl.cc:915-926 | whatever inputs one picked file leads to, chained in level 0 or grown, a memtable flushed meanwhile leaves the levels in order |
| Store.NewestIsReference | ios/Pods/leveldb-library/db/db_impl.cc:1109-1154 | the newest of all stored entries of a key at or below a readable sequence number is what the list of writes says; that `Get` finds it is Runs.ReadIsNewest |
| Runs.ReadIsNewest | ios/Pods/leveldb-library/db/version_set.cc:332-429 | searching memtable, immutable memtable and the levels in turn finds the newest stored entry |
| Runs.LiveIsFound | ios/Pods/leveldb-library/db/version_set.cc:332-429 | level by level, a live entry is found before anything older of its key |
| Runs.ReadsMatchHistory | ios/Pods/leveldb-library/db/db_impl.cc:1109-1154 | a read of any state with the invariant answers what the list of writes says |
| Store.AppendKeepsInv | ios/Pods/leveldb-library/db/db_impl.cc:1219-1226 | logging a batch keeps the invariant |
| Store.ApplyKeepsInv | ios/Pods/leveldb-library/db/db_impl.cc:1226-1240 | applying the logged batch to the memtable keeps the invariant |
| Store.SwitchKeepsInv | ios/Pods/leveldb-library/db/db_impl.cc:1318-1379 | switching to a new log and memtable keeps the invariant |
| Store.FlushKeepsInv | ios/Pods/leveldb-library/db/db_impl.cc:534-565 | committing the immutable memtable as a table keeps the invariant |
| Store.MoveKeepsInv | ios/Pods/leveldb-library/db/db_impl.cc:709-726 | a safe trivial move keeps the invariant |
| Store.MergeKeepsInv | ios/Pods/leveldb-library/db/db_impl.cc:887-1050 | a safe merge keeps the invariant |
| Store.MergeCollectsGarbage | ios/Pods/leveldb-library/db/db_impl.cc:942-978 | without snapshots a merge leaves one entry of a key, the newest, and a deletion marker only where a file two levels down or deeper may hold the key |
| Store.ReplayIsTail | ios/Pods/leveldb-library/db/db_impl.cc:310-352 | the logs from the committed number on hold exactly the unflushed writes, in order |
| Store.RecoverKeepsInv | ios/Pods/leveldb-library/db/db_impl.cc:274-363 | recovery keeps the invariant, every applied write, and the pending batch if its record survived |
| Store.RecoveredLast | ios/Pods/leveldb-library/db/db_impl.cc:354-357 | the recovered sequence number counts the writes that survived, so none is used twice |
| Levels.FlushKeepsLevels | ios/Pods/leveldb-library/db/db_impl.cc:488-532 | a table of the memtable's writes at an admissible level keeps order, sortedness, completeness and numbering |
| Levels.PickedLevelIsUnique | ios/Pods/leveldb-library/db/version_set.cc:502-528 | the rules for the level of a flushed table, the limit on overlap two levels down among them, leave one level |
| Levels.CompactKeepsLevels | ios/Pods/leveldb-library/db/db_impl.cc:900-1008 | replacing inputs by their survivors keeps the levels' invariant whenever no live entry is taken from above an older one, also when files left behind share a boundary key with an input |
| Levels.CompactKeepsOrdered | ios/Pods/leveldb-library/db/db_impl.cc:900-1008 | after a safe compaction every live entry is still above, or in a newer file than, anything older of its key |
| Levels.CompactKeepsSorted | ios/Pods/leveldb-library/db/db_impl.cc:900-1008 | levels above 0 still hold files that follow one another |
| Levels.CompactKeepsComplete | ios/Pods/leveldb-library/db/db_impl.cc:950-987 | no write a reader may be after is lost: what is dropped is superseded, or a marker with nothing left to hide |
| Levels.CompactKeepsHomes | ios/Pods/leveldb-library/db/db_impl.cc:900-1008 | no entry is in two files |
| Levels.DroppedMarkerHidesNothing | ios/Pods/leveldb-library/db/version_set.cc:1484-1503 | when the base-level rule drops a live deletion marker, nothing older of its key remains anywhere |
| Levels.ClosedIsSafe | ios/Pods/leveldb-library/db/version_set.cc:1345-1411 | inputs no left-behind file of their levels shares a user key with are safe |
| Levels.DisjointInputsAreClosed | ios/Pods/leveldb-library/db/version_set.cc:1345-1411 | inputs picked by range are closed when no user key is split |
| Versions.FindFile | ios/Pods/leveldb-library/db/version_set.cc:86-105 | where the binary search ends on any list of files, and on files in order the first one whose largest key is at or after the key |
| Versions.SomeFileOverlapsRange | ios/Pods/leveldb-library/db/version_set.cc:121-156 | on sorted files the binary search says whether any file meets the range, as the scan does |
| Versions.GetOverlappingInputs | ios/Pods/leveldb-library/db/version_set.cc:531-572 | the files that meet the range; in level 0 those meeting the least range that holds it and is closed under overlap |
| Versions.GetUnsorted | ios/Pods/leveldb-library/db/version_set.cc:354-368 | level 0 answers from the newest file that has an entry of the key |
| Versions.GetSorted | ios/Pods/leveldb-library/db/version_set.cc:369-384 | the file the binary search leads to answers, and for files in order that is the newest entry of the level |
| Versions.Version.Get | ios/Pods/leveldb-library/db/version_set.cc:332-429 | the levels are searched top down and the first answer is taken |
| Versions.Version.OverlapInLevel | ios/Pods/leveldb-library/db/version_set.cc:495-500 | whether a file of the level meets the range |
| Versions.Version.PickLevelForMemTableOutput | ios/Pods/leveldb-library/db/version_set.cc:502-528 | why the search for a level stops where it does, and that nothing above overlaps |
| Versions.PickedLevelIsOk | ios/Pods/leveldb-library/db/version_set.cc:502-528 | the picked level is the one the rules give for the table |
| Compactions.GetRange | ios/Pods/leveldb-library/db/version_set.cc:1224-1245 | the least and the greatest internal key of the inputs |
| Compactions.CompactionJob.SetupOtherInputs | ios/Pods/leveldb-library/db/version_set.cc:1345-1411 | the inputs of both levels, grown exactly when that adds files of this level, none of the next, and comes to less than 25 times the target size; no file left behind in the next level meets the range of the chosen ones; the grandparents |
| Selections.SetUpIsUnique | ios/Pods/leveldb-library/db/version_set.cc:1345-1411 | that determines the inputs of both levels |
| Selections.GrownIff | ios/Pods/leveldb-library/db/version_set.cc:1357-1385 | above level 0 the chosen files are grown exactly when that adds some, needs no more of the next level, and comes to less than 25 times the target size |
| Selections.SetUpMeets | ios/Pods/leveldb-library/db/version_set.cc:1345-1411 | the next level's inputs are exactly its files that meet the range of those chosen |
| Selections.SetUpHasNoGap | ios/Pods/leveldb-library/db/version_set.cc:1345-1411 | inputs without a gap stay so with those of the next level, grown or not |
| Selections.RequestedHasNoGap | ios/Pods/leveldb-library/db/version_set.cc:1318-1342 | the files of level 0 that those without a gap lead to have none either |
| Selections.RequestedIsUnique | ios/Pods/leveldb-library/db/version_set.cc:531-572 | the files that meet a range, in level 0 the least closed set of them, are determined |
| Compactions.PickedHaveNoGap | ios/Pods/leveldb-library/db/version_set.cc:1291-1411 | the inputs one picked file leads to have no gap, in either level |
| Compactions.RangedIsUnique | ios/Pods/leveldb-library/db/version_set.cc:1413-1446 | a request for a range determines the inputs of both levels |
| Compactions.CompactionJob.IsBaseLevelForKey | ios/Pods/leveldb-library/db/version_set.cc:1484-1503 | with pointers that only move forward: whether no file two levels down or deeper reaches over the key |
| Compactions.CompactionJob.ShouldStopBefore | ios/Pods/leveldb-library/db/version_set.cc:1505-1526 | an output is cut before a key if and only if the grandparents passed since the last cut exceed the limit |
| Compactions.CompactionJob.ShouldDrop | ios/Pods/leveldb-library/db/db_impl.cc:942-978 | an entry is dropped exactly when a newer input entry of its key is at or below the bound, or it is a marker there and no file two levels down or deeper reaches over its key |
| Compactions.HiddenByPrevious | ios/Pods/leveldb-library/db/db_impl.cc:942-963 | the sequence number of the entry just before tells whether any input entry hides this one |
| Compactions.CompactionJob.DoCompactionWork | ios/Pods/leveldb-library/db/db_impl.cc:887-1050 | the outputs hold exactly the entries neither rule drops, the rules spelled out on the input and the files; they follow one another, take consecutive numbers, are cut only where a file is full or grandparents overlap too much, and no later: no file was full before its last entry, and none reaches over more than ten target sizes of grandparents |
| Compactions.CutsAreOk | ios/Pods/leveldb-library/db/db_impl.cc:928-933 | every boundary between neighbouring outputs has one of those reasons |
| Compactions.CompactionPicker.PickCompaction | ios/Pods/leveldb-library/db/version_set.cc:1291-1343 | which file starts a size or a seek compaction, the inputs it leads to, and how the pointer of the level moves |
| Compactions.CompactionPicker.CompactRange | ios/Pods/leveldb-library/db/version_set.cc:1413-1446 | a manual compaction starts when some file meets the range; above level 0 it takes the shortest beginning of them that reaches the limit, and then what that leads to |
| Compactions.PickingGoesRound | ios/Pods/leveldb-library/db/version_set.cc:1302-1316 | the pick after the pointer is the next file of the level, and after the last one the first |
| Builders.EditThenSaveIff | ios/Pods/leveldb-library/db/version_set.cc:665-770 | applying one more edit before saving equals saving and applying it, if and only if the edit adds no file under the number of a deleted one |
| Builders.SavedOnceIsSavedEach | ios/Pods/leveldb-library/db/version_set.cc:939-983 | recovery's one save of all edits equals the saves of each, when a level gets each number once |
| Builders.SortedFilesAreUnique | ios/Pods/leveldb-library/db/version_set.cc:603-622 | a set of files has one sorted list |
| Builders.LevelBuilder.Apply | ios/Pods/leveldb-library/db/version_set.cc:665-708 | an edit's deletions and additions change the builder's state as specified |
| Builders.LevelBuilder.SaveTo | ios/Pods/leveldb-library/db/version_set.cc:711-770 | merging base and added files gives the sorted list of all that are not deleted |
| Database.DBImpl.constructor | ios/Pods/leveldb-library/db/db_impl.cc:117-146 | a new store is the initial state |
| Database.DBImpl.Write | ios/Pods/leveldb-library/db/db_impl.cc:1194-1265 | logging and applying a batch takes the two steps and appends it to the list of writes |
| Database.DBImpl.AddRecord | ios/Pods/leveldb-library/db/db_impl.cc:1219-1226 | the append step: one record with the next sequence numbers at the end of the log, and no other log touched |
| Database.DBImpl.InsertInto | ios/Pods/leveldb-library/db/write_batch.cc:128-134 | the apply step: each operation under its own number, in key order |
| Database.DBImpl.SwitchMemTable | ios/Pods/leveldb-library/db/db_impl.cc:1318-1379 | the switch step |
| Database.DBImpl.GetSnapshot | ios/Pods/leveldb-library/db/db_impl.cc:1175-1178 | a snapshot of the last sequence number, never below the compaction bound |
| Database.DBImpl.ReleaseSnapshot | ios/Pods/leveldb-library/db/db_impl.cc:1180-1183 | the release step |
| Database.DBImpl.Get | ios/Pods/leveldb-library/db/db_impl.cc:1109-1154 | a read at any readable sequence number answers what the list of writes says |
| Database.DBImpl.LogAndApply | ios/Pods/leveldb-library/db/version_set.cc:820-903 | each level of the next version is the edit applied to that of the last, sorted |
| Database.DBImpl.WriteLevel0Table | ios/Pods/leveldb-library/db/db_impl.cc:488-532 | a table of all of the immutable memtable, with its size, and a level form an allowed flush, or there is none for an empty memtable |
| Database.DBImpl.CompactMemTable | ios/Pods/leveldb-library/db/db_impl.cc:534-565 | the flush step |
| Database.DBImpl.BackgroundCompaction | ios/Pods/leveldb-library/db/db_impl.cc:686-769 | the compaction picked for a request, by size or by seeks is run, whichever it is: a move or a merge step; the invariant is kept when it is safe |
| Database.DBImpl.RunCompaction | ios/Pods/leveldb-library/db/db_impl.cc:709-753 | a lone input that overlaps at most ten target sizes two levels down is moved unless requested, anything else merged, and its outputs cut in time |
| Database.DBImpl.MakeInputIterator | ios/Pods/leveldb-library/db/version_set.cc:1247-1289 | the merge of one list for each file of level 0 and one for each level is all inputs in internal key order |
| Database.DBImpl.MergeInputs | ios/Pods/leveldb-library/db/db_impl.cc:887-1050 | the merge step, safe or not, from the sorted inputs |
| Database.DBImpl.Recover | ios/Pods/leveldb-library/db/db_impl.cc:274-363 | the recovery step: afterwards the list of writes is what it was, and the pending batch exactly if its record is whole; whole logs stay as they are |
| Database.RecoverLogFile | ios/Pods/leveldb-library/db/db_impl.cc:365-486 | a log's records are cut into tables exactly where the memtable gets full, and at its end, with the sizes of the tables and the largest sequence number |
| Database.ReplayLogs | ios/Pods/leveldb-library/db/db_impl.cc:336-352 | the logs are replayed in ascending order, missing none |
| WriteQueues.WriteQueue.Enqueue | ios/Pods/leveldb-library/db/db_impl.cc:1194-1205 | a writer joins at the back, also behind a group at work |
| WriteQueues.WriteQueue.BeginGroup | ios/Pods/leveldb-library/db/db_impl.cc:1206-1214 | the leader makes a group when there is room and it has a batch, and stands alone otherwise |
| WriteQueues.WriteQueue.BuildBatchGroup | ios/Pods/leveldb-library/db/db_impl.cc:1269-1314 | the group ends at the first writer that must not join or would make it too big, and the merged batch holds its operations in order |
| WriteQueues.GroupIsBounded | ios/Pods/leveldb-library/db/db_impl.cc:1269-1314 | a small write takes at most 128 KiB along, no group of several batches exceeds 1 MiB, and a writer that may join is only left out when it would |
| WriteQueues.WriteQueue.FinishGroup | ios/Pods/leveldb-library/db/db_impl.cc:1214-1265 | the whole group is popped and answered once, with one status |
| WriteQueues.AnswersGive | ios/Pods/leveldb-library/db/db_impl.cc:1214-1265 | a group's operations get the next sequence numbers, in queue order, and reach the memtable exactly if logged |
| WriteQueues.AnsweredOnce | ios/Pods/leveldb-library/db/db_impl.cc:1244-1256 | no writer is answered twice |
| WriteQueues.RangesIncrease | ios/Pods/leveldb-library/db/db_impl.cc:1214-1226 | ranges of sequence numbers are disjoint and increase in the order of the answers |
| WriteBatches.RecordsAppend | ios/Pods/leveldb-library/db/write_batch.cc:42-80 | iterating two record lists one after the other is iterating both |
| WriteBatches.WriteBatch.Put | ios/Pods/leveldb-library/db/write_batch.cc:98-103 | one more operation, at the end |
| WriteBatches.WriteBatch.Delete | ios/Pods/leveldb-library/db/write_batch.cc:105-109 | one more deletion, at the end |
| WriteBatches.WriteBatch.Append | ios/Pods/leveldb-library/db/write_batch.cc:141-145 | the appended batch holds the operations of both |
| WriteBatches.WriteBatch.Iterate | ios/Pods/leveldb-library/db/write_batch.cc:42-80 | the operations, or an error for a malformed batch or a wrong count |
| WriteBatches.HoldsIff | ios/Pods/leveldb-library/db/write_batch.cc:42-80 | a batch is whole and has those operations if and only if it holds them |
| WriteBatches.RecordsIff | ios/Pods/leveldb-library/db/write_batch.cc:42-80 | on arbitrary bytes records are read if and only if the bytes list them, with no other tags, lengths or leftovers |
| WriteBatches.WriteBatch.InsertInto | ios/Pods/leveldb-library/db/write_batch.cc:128-134 | on arbitrary bytes: every operation before the first bad record is inserted under the batch's number plus its index, and whether the batch is whole |
| Snapshots.SnapshotList.New | ios/Pods/leveldb-library/db/snapshot.h:42-51 | a new snapshot is the last of the circular list, whose links stay those of the list |
| Snapshots.SnapshotList.Delete | ios/Pods/leveldb-library/db/snapshot.h:53-58 | exactly that snapshot is unlinked |
| Snapshots.SnapshotList.Oldest | ios/Pods/leveldb-library/db/snapshot.h:39 | the first node, which has the least number |
| Snapshots.SnapshotList.Newest | ios/Pods/leveldb-library/db/snapshot.h:40 | the last node, which has the greatest number |
| Entries.RunGetIsNewest | ios/Pods/leveldb-library/db/memtable.cc:108-143 | seeking with the packed lookup key and comparing the user key returns the newest entry at or below the sequence number |
| Entries.InsertEntrySorts | ios/Pods/leveldb-library/db/memtable.cc:82-106 | inserting at the seek position keeps a run sorted and adds just that entry |
| MemTables.ParsesIffAppended | ios/Pods/leveldb-library/db/dbformat.cc:18-21 | bytes parse as an internal key if and only if they are what appending it writes |
| MemTables.MemTable.Add | ios/Pods/leveldb-library/db/memtable.cc:82-106 | the encoded entry is linked where the entry belongs |
| MemTables.MemTable.Get | ios/Pods/leveldb-library/db/memtable.cc:108-143 | on the bytes of the entries: the value, the deletion, or nothing, as the run lookup says |
| MemTables.MemTable.Seek | ios/Pods/leveldb-library/db/memtable.cc:44-58 | the first entry not before the key, by comparing bytes |
| SkipLists.Race | ios/Pods/leveldb-library/db/skiplist.h:261-370 | under every schedule of a reader's loads and a writer's stores, the search answers for the keys before the insertion or those after it |
| SkipLists.Inserter.Begin | ios/Pods/leveldb-library/db/skiplist.h:336-358 | finding the neighbours, raising the height and allocating the node leaves the keys as they were |
| SkipLists.Inserter.Store | ios/Pods/leveldb-library/db/skiplist.h:360-369 | each pointer store keeps the list whole; the key appears with the store at level 0 |
| SkipLists.OwnLinkStored | ios/Pods/leveldb-library/db/skiplist.h:360-369 | the new node's own link at a level changes nothing a reader sees |
| SkipLists.LinkStored | ios/Pods/leveldb-library/db/skiplist.h:360-369 | the link to it adds the key and keeps every other link right |
| SkipLists.RoomMade | ios/Pods/leveldb-library/db/skiplist.h:336-370 | the neighbours found stay the right ones to splice at, level by level |
| SkipLists.StandsThroughBegin | ios/Pods/leveldb-library/db/skiplist.h:261-281 | a reader's footing survives the start of an insertion |
| SkipLists.StandsThroughStore | ios/Pods/leveldb-library/db/skiplist.h:261-281 | and every pointer store |
| SkipLists.Reader.Step | ios/Pods/leveldb-library/db/skiplist.h:261-281 | one load of the search; when it ends the answer is right for the list as it is |
| SkipLists.SkipList.FindGreaterOrEqual | ios/Pods/leveldb-library/db/skiplist.h:261-281 | the first key at or after the target, and its predecessor at each level |
| SkipLists.SkipList.FindLessThan | ios/Pods/leveldb-library/db/skiplist.h:283-302 | the last key before the target |
| SkipLists.SkipList.FindLast | ios/Pods/leveldb-library/db/skiplist.h:304-322 | the greatest key |
| SkipLists.SkipList.Insert | ios/Pods/leveldb-library/db/skiplist.h:336-370 | the key is added and nothing else |
| SkipLists.SkipList.Contains | ios/Pods/leveldb-library/db/skiplist.h:372-380 | whether the key is in the list |
| SkipLists.Iterator.Next | ios/Pods/leveldb-library/db/skiplist.h:208-211 | the next greater key |
| SkipLists.Iterator.Prev | ios/Pods/leveldb-library/db/skiplist.h:214-222 | the next smaller key, by a new search |
| DbIters.ShownIsReadable | ios/Pods/leveldb-library/db/db_iter.cc:173-203 | an entry is shown exactly when a read of its key at the sequence number finds its value |
| DbIters.ShownKeysIncrease | ios/Pods/leveldb-library/db/db_iter.cc:173-203 | shown keys increase, one entry for each |
| DbIters.ShownListSteps | ios/Pods/leveldb-library/db/db_iter.cc:146-230 | next and previous shown entries are neighbours in the list of shown ones |
| DbIters.DBIter.Next | ios/Pods/leveldb-library/db/db_iter.cc:146-171 | the next shown entry, also after a change of direction |
| DbIters.DBIter.FindNextUserEntry | ios/Pods/leveldb-library/db/db_iter.cc:173-203 | scanning forward finds the first shown entry from the goal on |
| DbIters.DBIter.Prev | ios/Pods/leveldb-library/db/db_iter.cc:205-230 | the previous shown entry, also after a change of direction |
| DbIters.DBIter.FindPrevUserEntry | ios/Pods/leveldb-library/db/db_iter.cc:232-272 | scanning backward finds the last shown entry there |
| DbIters.DBIter.Seek | ios/Pods/leveldb-library/db/db_iter.cc:274-286 | the first shown entry whose key is not below the target |
| DbIters.DBIter.SeekToFirst | ios/Pods/leveldb-library/db/db_iter.cc:288-297 | the first shown entry |
| DbIters.DBIter.SeekToLast | ios/Pods/leveldb-library/db/db_iter.cc:299-304 | the last shown entry |
| Mergers.MergeAllIsUnion | ios/Pods/leveldb-library/table/merger.cc:17-183 | the merged list is sorted and holds just what the lists hold |
| Mergers.MergingIterator.Seek | ios/Pods/leveldb-library/table/merger.cc:51-57 | the first merged item at or after the target |
| Mergers.MergingIterator.SeekToFirst | ios/Pods/leveldb-library/table/merger.cc:35-41 | the first merged item |
| Mergers.MergingIterator.SeekToLast | ios/Pods/leveldb-library/table/merger.cc:43-49 | the last merged item |
| Mergers.MergingIterator.Next | ios/Pods/leveldb-library/table/merger.cc:59-83 | the next merged item, also after going backward |
| Mergers.MergingIterator.Prev | ios/Pods/leveldb-library/table/merger.cc:85-112 | the previous merged item, also after going forward |
| Mergers.MergingIterator.FindSmallest | ios/Pods/leveldb-library/table/merger.cc:155-168 | the child with the least key holds the merged item at the cut |
| Mergers.MergingIterator.FindLargest | ios/Pods/leveldb-library/table/merger.cc:170-183 | the child with the greatest key holds the merged item before the cut |
| TwoLevels.SeekLands | ios/Pods/leveldb-library/table/two_level_iterator.cc:91-96 | seeking in the block the index leads to lands where a seek in the whole would |
| TwoLevels.TwoLevelIterator.Seek | ios/Pods/leveldb-library/table/two_level_iterator.cc:91-96 | the first item of all blocks at or after the target |
| TwoLevels.TwoLevelIterator.Next | ios/Pods/leveldb-library/table/two_level_iterator.cc:112-116 | the next item, over empty blocks |
| TwoLevels.TwoLevelIterator.Prev | ios/Pods/leveldb-library/table/two_level_iterator.cc:118-122 | the previous item, over empty blocks |
| TwoLevels.TwoLevelIterator.SkipEmptyDataBlocksForward | ios/Pods/leveldb-library/table/two_level_iterator.cc:125-136 | moving on to the next block that has an item stays at the same place of the whole |
| TwoLevels.TwoLevelIterator.SkipEmptyDataBlocksBackward | ios/Pods/leveldb-library/table/two_level_iterator.cc:138-149 | moving back to the last block that has an item finds the place before |
| TwoLevels.TwoLevelIterator.SeekToFirst | ios/Pods/leveldb-library/table/two_level_iterator.cc:98-103 | the first item |
| TwoLevels.TwoLevelIterator.SeekToLast | ios/Pods/leveldb-library/table/two_level_iterator.cc:105-110 | the last item |
| Blocks.EntryRoundTrip | ios/Pods/leveldb-library/table/block.cc:53-76 | an entry's header is decoded to the lengths it was written with |
| Blocks.FastPathAgrees | ios/Pods/leveldb-library/table/block.cc:58-65 | reading three one-byte lengths agrees with decoding three varints |
| Blocks.RebuildsEntry | ios/Pods/leveldb-library/table/block.cc:226-252 | the shared prefix and the rest give back key and value |
| Blocks.RestartsEveryInterval | ios/Pods/leveldb-library/table/block_builder.cc:73-107 | entry i is a restart point exactly when the interval divides i |
| Blocks.BlockBuilder.Add | ios/Pods/leveldb-library/table/block_builder.cc:73-107 | the entry is appended with its shared prefix removed |
| Blocks.BlockBuilder.Finish | ios/Pods/leveldb-library/table/block_builder.cc:63-71 | the finished block holds the entries added |
| Blocks.Iter.Valid | ios/Pods/leveldb-library/table/block.cc:127 | valid means standing on an entry |
| Blocks.Iter.ParseNextKey | ios/Pods/leveldb-library/table/block.cc:226-252 | the entry at the offset is rebuilt; the end leaves the iterator invalid |
| Blocks.Iter.Next | ios/Pods/leveldb-library/table/block.cc:139-142 | the next entry |
| Blocks.Iter.Prev | ios/Pods/leveldb-library/table/block.cc:144-163 | the previous entry, from the restart point before it |
| Blocks.Iter.Seek | ios/Pods/leveldb-library/table/block.cc:165-203 | the first entry at or after the target, by binary search over restart points and a scan |
| Blocks.Iter.SeekToFirst | ios/Pods/leveldb-library/table/block.cc:205-208 | the first entry |
| Blocks.Iter.SeekToLast | ios/Pods/leveldb-library/table/block.cc:210-215 | the last entry |
| Filters.FilterBlockBuilder.StartBlock | ios/Pods/leveldb-library/table/filter_block.cc:22-28 | keys go to the filter of the 2 KiB range their block starts in |
| Filters.FilterBlockBuilder.Finish | ios/Pods/leveldb-library/table/filter_block.cc:36-50 | the block holds every filter, found through the offset array |
| Filters.FilterBlockReader.constructor | ios/Pods/leveldb-library/table/filter_block.cc:78-93 | on arbitrary contents: the tail gives number, place and base of the filters, and contents that are too short or whose offset is out of range have none |
| Filters.FilterBlockReader.KeyMayMatch | ios/Pods/leveldb-library/table/filter_block.cc:95-109 | what the policy says of the filter of the offset's range, so no key of the range is ever denied; whatever the contents are, without filters every key may match |
| Tables.SeparatorSeparates | ios/Pods/leveldb-library/db/dbformat.cc:68-85 | a separator lies between its neighbours and keeps user keys apart |
| Tables.SuccessorEnds | ios/Pods/leveldb-library/db/dbformat.cc:87-99 | the successor of the last key is at or after everything |
| Tables.SameUserInBlock | ios/Pods/leveldb-library/table/table.cc:226-255 | if the first entry from a key on has its user key, it is in the block the index leads to |
| Tables.Table.InternalGet | ios/Pods/leveldb-library/table/table.cc:226-255 | that entry is reported whenever it exists, with a filter or without, and no other ever is |
| Tables.TableBuilder.Add | ios/Pods/leveldb-library/table/table_builder.cc:92-121 | the entry joins the table; a pending index entry is settled by it |
| Tables.TableBuilder.Flush | ios/Pods/leveldb-library/table/table_builder.cc:123-137 | the block is written, and its handle waits for an index key |
| Tables.TableBuilder.Finish | ios/Pods/leveldb-library/table/table_builder.cc:199-254 | the table holds all entries added, indexed by separators and behind their filters |
| Coding.Varint32RoundTrip | ios/Pods/leveldb-library/util/coding.cc:47-74 | every 32-bit value is read back from its varint, whatever follows |
| Coding.Varint64RoundTrip | ios/Pods/leveldb-library/util/coding.cc:76-96 | every 64-bit value is |
| Coding.LengthPrefixedRoundTrip | ios/Pods/leveldb-library/util/coding.cc:98-101 | a slice is read back from its length and bytes |
| Coding.Fixed32RoundTrip | ios/Pods/leveldb-library/util/coding.cc:9-25 | a fixed 32-bit value is read back |
| Coding.Fixed64RoundTrip | ios/Pods/leveldb-library/util/coding.cc:27-45 | a fixed 64-bit value is |
| Coding.Fixed64Restores | ios/Pods/leveldb-library/util/coding.cc:27-45 | eight bytes are what encoding their value writes |
| Coding.ReadVarintIff | ios/Pods/leveldb-library/util/coding.cc:112-172 | on arbitrary bytes a varint is read, with the value of its digits, if and only if a small byte is among the first few allowed |
| Log.UnmaskUndoesMask | ios/Pods/leveldb-library/util/crc32c.h:31-41 | unmasking a masked checksum gives it back |
| Log.MaskUndoesUnmask | ios/Pods/leveldb-library/util/crc32c.h:31-41 | and the other way round |
| Log.PrefixReadsBack | ios/Pods/leveldb-library/db/log_reader.cc:60-182 | of every byte prefix of a log, exactly the records wholly inside are read, in order, and nothing is reported as corrupt |
| Log.ReadsFragments | ios/Pods/leveldb-library/db/log_reader.cc:60-182 | the fragments of one record are put together again, or the file ends inside them |
| Log.Writer.AddRecord | ios/Pods/leveldb-library/db/log_writer.cc:36-82 | what is appended is the record's fragments with block trailers |
| Log.Reader.ReadRecord | ios/Pods/leveldb-library/db/log_reader.cc:60-182 | on arbitrary bytes: the next logical record and the number of corruptions reported |
| Log.Reader.ReadPhysicalRecord | ios/Pods/leveldb-library/db/log_reader.cc:199-281 | on arbitrary bytes: the next physical record, the end, or a bad stretch skipped |
| Damaged.PhysicalIff | ios/Pods/leveldb-library/db/log_reader.cc:199-281 | on arbitrary bytes a physical record is returned exactly where the file holds what the writer emits for it; anything else not cut off by the end costs the rest of its block and is reported, unless its header is zero |
| Damaged.RecordsStand | ios/Pods/leveldb-library/db/log_reader.cc:60-182 | on arbitrary bytes every record returned is in the file, fragment by fragment as written, each behind the one before |
| Damaged.NothingMissed | ios/Pods/leveldb-library/db/log_reader.cc:60-182 | when nothing is reported, only zero headers, empty fragments and records with the code for bad ones lie between the records returned |
| Damaged.DamageIsConfined | ios/Pods/leveldb-library/db/log_reader.cc:60-182 | bytes changed up to a block boundary cost no record that lies before them or starts behind the boundary, unless among them is a record of the type the reader takes for the end |
| Damaged.DamageIsReported | ios/Pods/leveldb-library/db/log_reader.cc:199-281 | a damaged fragment of a written log is reported, and the records before it are read |
| Replays.TornLogReplays | ios/Pods/leveldb-library/db/db_impl.cc:365-486 | however many bytes of a log survive, recovery inserts exactly the batches wholly written, each operation under its number |
| Replays.ReplayLog | ios/Pods/leveldb-library/db/db_impl.cc:405-447 | recovery's loop over any log, paranoid or not: what the records say is inserted, malformed batches up to their first bad record, with the largest number |
| Replays.EditsIff | ios/Pods/leveldb-library/db/version_set.cc:941-982 | the edits of a manifest are accepted if and only if every record decodes and none names another comparator |
| Replays.TornManifestReadsBack | ios/Pods/leveldb-library/db/version_set.cc:941-982 | of a manifest prefix, exactly the edits wholly inside are decoded |
| Replays.TornManifestRestores | ios/Pods/leveldb-library/db/version_set.cc:905-1026 | recovery from a torn manifest succeeds exactly when it holds a new database's record or one behind the snapshot record, and gives the numbers and the files the last edit led to |
| Replays.ManifestDecides | ios/Pods/leveldb-library/db/version_set.cc:985-1001 | of the edits the code writes, the last one decides every number, and all are there exactly from that record on |
| Replays.RecoverManifest | ios/Pods/leveldb-library/db/version_set.cc:905-1026 | recovery's loop over the edits: their summary, or an error when one is corrupt, of another comparator, or a number is missing |
| VersionEdits.EditRoundTrip | ios/Pods/leveldb-library/db/version_edit.cc:41-86 | every edit is decoded from its encoding |
| VersionEdits.DecodesRecords | ios/Pods/leveldb-library/db/version_edit.cc:109-210 | decoding a list of records applies each of them in turn |
| VersionEdits.DecodeIff | ios/Pods/leveldb-library/db/version_edit.cc:109-210 | on arbitrary bytes decoding succeeds if and only if the bytes list records, with no other tags, levels or leftovers, and then applies them |
| VersionEdits.RecordsRestore | ios/Pods/leveldb-library/db/version_edit.cc:109-210 | applying an edit's records to an empty edit gives it back, with deletions as a sorted set |
| VersionEdits.VersionEdit.EncodeTo | ios/Pods/leveldb-library/db/version_edit.cc:41-86 | the bytes are those of the edit's records in order |
| VersionEdits.VersionEdit.DecodeFrom | ios/Pods/leveldb-library/db/version_edit.cc:109-210 | on arbitrary bytes: the edit, or an error |
| FileRefs.VersionSet.LiveIffHeld | ios/Pods/leveldb-library/db/version_set.cc:482-493 | a version is live exactly as long as the version set, a builder, a reader or the job holds it |
| FileRefs.VersionSet.AllocatedIffHeld | ios/Pods/leveldb-library/db/version_set.cc:66-84 | a file record is allocated exactly as long as a version or a builder holds it |
| FileRefs.VersionSet.LiveFilesAreThere | ios/Pods/leveldb-library/db/db_impl.cc:218-272 | the files of live versions are on disk |
| FileRefs.VersionSet.DeleteObsoleteFiles | ios/Pods/leveldb-library/db/db_impl.cc:218-272 | which tables are deleted; a table a coming version needs is lost if and only if it is neither pending nor listed, and files are deleted at all |
| FileRefs.VersionSet.Ref | ios/Pods/leveldb-library/db/version_set.cc:482-484 | one more holder |
| FileRefs.VersionSet.Unref | ios/Pods/leveldb-library/db/version_set.cc:486-493 | the last holder deletes the version and drops its files |
| FileRefs.VersionSet.DropFiles | ios/Pods/leveldb-library/db/version_set.cc:73-83 | each record loses one reference and is freed with its last |
| FileRefs.VersionSet.BeginBuilder | ios/Pods/leveldb-library/db/version_set.cc:632-640 | a builder holds its base |
| FileRefs.VersionSet.AddFile | ios/Pods/leveldb-library/db/version_set.cc:665-708 | an added file has one reference, the builder's, whatever its number |
| FileRefs.VersionSet.SaveTo | ios/Pods/leveldb-library/db/version_set.cc:711-773 | the draft shares files of the base and of the builder |
| FileRefs.VersionSet.EndBuilder | ios/Pods/leveldb-library/db/version_set.cc:643-662 | the added files and the base are let go of |
| FileRefs.VersionSet.AppendVersion | ios/Pods/leveldb-library/db/version_set.cc:803-818 | the draft becomes current and the old version is let go of, also while a builder lives |
| FileRefs.VersionSet.DropDraft | ios/Pods/leveldb-library/db/version_set.cc:892 | a version that could not be logged is deleted with its references |
| FileRefs.VersionSet.AddLiveFiles | ios/Pods/leveldb-library/db/version_set.cc:1185-1196 | the numbers of all live versions' files |
| FileRefs.VersionSet.LogAndApply | ios/Pods/leveldb-library/db/version_set.cc:820-903 | the edit's version is built, logged with the lock free and installed or dropped; no table is lost meanwhile |
| FileRefs.VersionSet.WriteLevel0Table | ios/Pods/leveldb-library/db/db_impl.cc:488-532 | the table is no pending output any more when it returns, and no table is lost |
| FileRefs.VersionSet.CompactMemTable | ios/Pods/leveldb-library/db/db_impl.cc:534-565 | a flushed table is in the current version and on disk, or the edit failed and nothing is lost |
| FileRefs.VersionSet.DoCompactionWork | ios/Pods/leveldb-library/db/db_impl.cc:887-1050 | the outputs are listed and on disk, with memtables, empty or not, flushed in between with or without success, and pending no more |
| FileRefs.VersionSet.MoveFile | ios/Pods/leveldb-library/db/db_impl.cc:709-726 | a moved file keeps its number and its table |
| FileRefs.VersionSet.RecoverVersion | ios/Pods/leveldb-library/db/version_set.cc:939-1010 | every file not deleted again is in the recovered version, appended under a live builder |
| FileRefs.VersionSet.Open | ios/Pods/leveldb-library/db/db_impl.cc:1490-1532 | opening succeeds only with every listed table there, and then nothing is lost; a failed one deletes no table |
| PbRoundTrip.RestoresMeaningIff | ios/Pods/nanopb/pb_encode.c:205-267 | decoding an encoding gives back what the message says if and only if nothing is hidden under an implicit field that looks zero |
| PbRoundTrip.HiddenEntriesAreLost | ios/Pods/nanopb/pb_encode.c:205-267 | an array of an implicit submessage whose first entry is zero is not written at all |
| PbRoundTrip.MeansDecodedIff | ios/Pods/nanopb/pb_encode.c:205-267 | a value decodes to what it means if and only if nothing is hidden in it |
| PbRoundTrip.ZeroMeans | ios/Pods/nanopb/pb_encode.c:205-267 | a value that looks zero means the default if and only if nothing is flagged in it |
| PbRoundTrip.DecodesIff | ios/Pods/nanopb/pb_decode.c:852-953 | every field of any message that can be encoded is read back; the check behind that passes for the counts of required fields it supports and is undefined for the others |
| PbRoundTrip.MsgRoundTrip | ios/Pods/nanopb/pb_decode.c:852-953 | a well-formed message decodes to what its fields decode to |
| PbRoundTrip.KnownFieldsAreRead | ios/Pods/nanopb/pb_decode.c:893-906 | a decoder whose descriptor has fewer fields, or others, gets those it shares with the encoder as if there were no more |
| PbRoundTrip.ConcatenationMerges | ios/Pods/nanopb/pb_decode.c:852-953 | two encodings one behind the other decode to the second merged into the first |
| PbMerge.MsgMerge | ios/Pods/nanopb/pb_decode.c:852-953 | decoding an encoding onto any message, with descriptors that differ at any depth, merges it field by field, or fails exactly when an array would get too long |
| PbMerge.SlotMerge | ios/Pods/nanopb/pb_decode.c:356-429 | the records of one field, packed, repeated, optional or of a oneof, are merged into what is there and tick it off, or overflow its array |
| PbMerge.SkipsSlot | ios/Pods/nanopb/pb_decode.c:277-290 | what was written of an unknown field of any type is passed over |
| PbMerge.SkipsValue | ios/Pods/nanopb/pb_decode.c:277-290 | its wire type alone says how many bytes that is |
| PbMerge.ValueMerge | ios/Pods/nanopb/pb_decode.c:1165-1379 | one value of any type, submessages included |
| PbMerge.ScalarRoundTrip | ios/Pods/nanopb/pb_decode.c:1165-1379 | one value of any scalar type, through the casts of its size |
| PbMerge.ZigZagRoundTrip | ios/Pods/nanopb/pb_encode.c:516-525 | zigzag coding of every 64-bit integer is undone |
| PbMerge.UnZigZagRoundTrip | ios/Pods/nanopb/pb_decode.c:1118-1130 | and the other way round |
| PbAnyBytes.MsgIsHoldable | ios/Pods/nanopb/pb_decode.c:852-953 | on arbitrary bytes: what is decoded fits its descriptor, every array, bytes value and string within its bounds and one field of each oneof at most active |
| PbAnyBytes.DecodesAgain | ios/Pods/nanopb/pb_decode.c:955-967 | so it can be encoded, and decodes again from that |
| PbAnyBytes.CutRecord | ios/Pods/nanopb/pb_decode.c:251-275 | a record cut behind its tag is an error, known or not; one cut inside the tag reads as the end |
| PbAnyBytes.ZeroTagEnds | ios/Pods/nanopb/pb_decode.c:251-275 | a tag of zero ends the message |
| PbAnyBytes.UnsignedReadIff | ios/Pods/nanopb/pb_decode.c:1202-1224 | any 64-bit varint is read by an unsigned field that can hold it and refused by any other |
| PbAnyBytes.SignedReadIff | ios/Pods/nanopb/pb_decode.c:1165-1200 | a signed field below 64 bits looks at the low 32 bits alone, so it also reads negative numbers written with 32 bits |
| PbAnyBytes.FixedBytesReadIff | ios/Pods/nanopb/pb_decode.c:1358-1380 | a bytes value of fixed size is read at that size, and empty as zeros |
| PbCommon.FieldIter.Next | ios/Pods/nanopb/pb_common.c:20-76 | the next field, or back to the first |
| PbCommon.FieldIter.Find | ios/Pods/nanopb/pb_common.c:78-95 | from any position the circular search finds a field of the tag if there is one |
| PbDecode.FindsTag | ios/Pods/nanopb/pb_common.c:78-95 | with unique tags that field is the only one |
| PbCommon.MarkMarks | ios/Pods/nanopb/pb_decode.c:908-913 | marking one required field marks just that one |
| PbCommon.AllSeenIff | ios/Pods/nanopb/pb_decode.c:935-949 | when all required fields were seen, the check passes for the counts it supports and is undefined for every other |
| PbCommon.AllSeenIsExact | ios/Pods/nanopb/pb_decode.c:935-949 | for a supported count it says whether all were seen |
| PbEncode.OStream.Write | ios/Pods/nanopb/pb_encode.c:91-111 | the bytes are counted, and written if they fit |
| PbEncode.OStream.EncodePacked | ios/Pods/nanopb/pb_encode.c:116-176 | the packed size computed first is that of the values written |
| PbEncode.OStream.EncodeSubmessage | ios/Pods/nanopb/pb_encode.c:600-648 | the two passes agree: the length prefix is that of the submessage |
| PbEncode.OStream.EncodeMessage | ios/Pods/nanopb/pb_encode.c:451-473 | exactly the message's bytes, or an error that leaves a prefix of them |
| PbEncode.GetEncodedSize | ios/Pods/nanopb/pb_encode.c:480-489 | exactly the number of bytes encoding writes, for every message that can be encoded and no other |
| PbEncode.Encode | ios/Pods/nanopb/pb_encode.c:451-473 | encoding succeeds if and only if the message can be encoded and fits the buffer, which then holds it |
| PbEncode.MsgEncodableIff | ios/Pods/nanopb/pb_encode.c:116-176 | a message can be encoded if and only if every array and every bytes value that is written fits, at every depth |
| PbEncode.TagExamples | ios/Pods/nanopb/pb_encode.c:553-590 | the tags of the wire format's examples |
| PbEncode.NumberExamples | ios/Pods/nanopb/pb_encode.c:494-525 | and its numbers |
| PbDecode.IStream.DecodeVarint32 | ios/Pods/nanopb/pb_decode.c:173-207 | on arbitrary bytes: the value, or that the stream ends or the varint is too long |
| PbDecode.IStream.DecodeVarint | ios/Pods/nanopb/pb_decode.c:209-229 | the 64-bit one, with bits past the width lost |
| PbDecode.IStream.MakeSubstream | ios/Pods/nanopb/pb_decode.c:322-335 | a stream over the next length-prefixed bytes |
| PbDecode.IStream.DecodePacked | ios/Pods/nanopb/pb_decode.c:372-396 | packed entries until the substream ends, or the array is full |
| PbDecode.IStream.DecodeSlot | ios/Pods/nanopb/pb_decode.c:356-429 | on arbitrary bytes: what one record does to its field |
| PbDecode.IStream.DecodeMsg | ios/Pods/nanopb/pb_decode.c:852-953 | on arbitrary bytes: what the records make of the message |
| PbDecode.Decode | ios/Pods/nanopb/pb_decode.c:955-967 | the same, from the defaults |

## Left out

- Applications, views and network code of the repository: they only call these libraries.
- User keys as bytes in the store: they are ranks, except in the memtable, blocks, batches and edits, which have bytes.
- Threads: each critical section is one step. The skip list's reader and writer take turns load by load and store by store, with the barriers' order; weaker memory orders are not modelled.
- A merge is one step of the store, taken with the snapshot bound it starts with; writes, snapshots and flushes meanwhile are steps before or after it. Flushes inside it are in `Nested.dfy`, and in the file references.
- Which level a size compaction takes, when a memtable or a block is full, file sizes, checksums and random heights are parameters.
- A crash loses at most the record being logged and the edit being committed; losing more unsynced records, and failing writes of tables, are not modelled.
- Internal keys that do not parse, during merges and iteration.
- Reuse of logs and manifests, previous log numbers of older databases, a nonzero initial offset of the log reader, and repair.
- Table cache, block cache, compression, block checksums, footers and the metaindex, statistics and approximate sizes.
- The arena: skip list nodes are entries of a list that never moves them. Node heights are given.
- Blocks.Iter.ParseNextKey: its error branches are there, but only well-formed blocks are proved about.
- Mergers.MergingIterator.Next: children have pairwise distinct keys, as internal keys do.
- Filters.FilterBlockBuilder.AddKey: keys are kept as a list, not flattened into one string with offsets.
- Database.DBImpl.LogAndApply: the manifest record and failing writes of it are not in the class; `Durable.dfy` has the record, `FileRefs.dfy` the failure.
- Database.RecoverLogFile: works on decoded entries; the records' bytes are in `Replays.ReplayLog` and `Durable.dfy`.
- FileRefs.VersionSet.DeleteObsoleteFiles: tables only; logs, manifests and temporary files are not modelled.
- FileRefs.VersionSet.SaveTo: which files go into the draft is a parameter; `Builders.LevelBuilder.SaveTo` says which.
- Tables.TableBuilder.Finish: the metaindex, the footer and the bytes between blocks are not modelled.
- Tables.TableBuilder.Add: the builder always has a filter; the reader has one or not.
- Compactions.CompactionJob.DoCompactionWork: keys that do not parse, which the code copies, are left out.
- Builders.LevelBuilder.Apply: two different files with one number and one smallest key, which the order cannot tell apart, are left out.
- Builders.LevelBuilder.SaveTo: so is an added file the order cannot tell from a base file.
- Scans.NewIterator: the children of the merging iterator are cursors over lists; that a level's list is what a two-level iterator goes through is `Scans.LevelIsTwoLevel`, and no such iterator is plugged in as a child.
- PbDecode.IStream.DecodeMsg: where the check for required fields is undefined in C, the model gives up.
- nanopb's callbacks, extensions, pointers and allocation, custom defaults, delimited messages and the offsets of struct members; the size options of field descriptors; sizes are unbounded in the encoder.
