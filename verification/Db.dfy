/**
 DBImpl: the mutable store, each of whose operations takes one step of the state machine.
 */
module Database {
  import opened Coding
  import opened Entries
  import opened Levels
  import opened Store
  import opened Runs
  import opened Versions
  import opened Compactions
  import opened Builders
  import opened Selections
  import opened EntryLists

  // Files sorted by smallest key and lying apart in key order follow one another.
  lemma SortedFilesInOrder(files: seq<Table>)
    requires SortedFiles(files)
    requires forall f, g | f in files && g in files && f != g :: FileBefore(f, g) || FileBefore(g, f)
    ensures InOrder(files)
  {
    forall i, j | 0 <= i < j < |files| ensures FileBefore(files[i], files[j]) {
      assert BySmallest(files[i], files[j]);
      SmallestToLargest(files[i]);
      SmallestToLargest(files[j]);
    }
  }

  class DBImpl {
    ghost var hist: seq<Write>
    ghost var flushed: nat
    ghost var memStart: nat
    ghost var floor: nat
    var pending: seq<Write>
    var lastSequence: nat
    var mem: seq<Entry>
    var imm: Option<seq<Entry>>
    var version: Version
    var snapshots: seq<nat>
    var nextFile: nat
    var logfile: nat
    var logNumber: nat
    var manifestLast: nat
    var manifestNext: nat
    var logs: map<nat, seq<Entry>>

    ghost function Abs(): State
      reads this
    {
      State(version.targetFileSize, hist, flushed, memStart, floor, pending, lastSequence, Content(mem),
            if imm.Some? then Some(Content(imm.value)) else None,
            version.Levels(), snapshots, nextFile, logfile, logNumber, manifestLast, manifestNext, logs)
    }

    ghost predicate Rep()
      reads this
    {
      && |version.files| == NUM_LEVELS
      && (forall l | 0 <= l < NUM_LEVELS :: SortedFiles(version.files[l]))
      && Sorted(mem)
      && (imm.Some? ==> Sorted(imm.value))
      && lastSequence + |pending| < MAX_SEQUENCE
    }

    ghost predicate Valid()
      reads this
    {
      Rep() && Inv(Abs())
    }

    // A new database, as opened with create_if_missing.
    constructor (targetFileSize: nat)
      ensures Valid() && Abs() == Initial(targetFileSize)
    {
      hist, flushed, memStart, floor := [], 0, 0, 0;
      pending, lastSequence, mem, imm := [], 0, [], None;
      version := new Version(seq(NUM_LEVELS, _ => []), targetFileSize);
      snapshots, nextFile, logfile, logNumber := [], 4, 3, 3;
      manifestLast, manifestNext, logs := 0, 4, map[3 := []];
      new;
      hide Inv, SortedFiles, Sorted, Content;
      EmptyIsSorted();
      NoFiles(version, targetFileSize);
      InitialInv(targetFileSize);
    }

    // The log record of a batch whose first write gets the next sequence number.
    method AddRecord(batch: seq<Write>)
      requires Valid() && pending == [] && lastSequence + |batch| < MAX_SEQUENCE
      modifies `pending, `logs
      ensures Valid() && Abs() == After(old(Abs()), Append(batch))
      ensures pending == batch && logs.Keys == old(logs.Keys)
      ensures forall n | n in logs && n != logfile :: logs[n] == old(logs)[n]
      ensures logfile in logs && |logs[logfile]| == |old(logs)[logfile]| + |batch| && old(logs)[logfile] <= logs[logfile]
      ensures forall i | 0 <= i < |batch| ::
                logs[logfile][|old(logs)[logfile]| + i] == Entry(batch[i].key, lastSequence + 1 + i, batch[i].op)
    {
      hide Inv, SortedFiles, Sorted, Content;
      LogIsThere(Abs());
      AppendKeepsInv(Abs(), batch);
      pending := batch;
      logs := logs[logfile := (if logfile in logs then logs[logfile] else []) + Stamp(lastSequence, batch)];
    }

    // Applies the logged batch to the memtable, one sequence number after another.
    method InsertInto()
      requires Valid()
      modifies `hist, `pending, `lastSequence, `mem
      ensures Valid() && Abs() == After(old(Abs()), Apply)
      ensures hist == old(hist) + old(pending) && pending == [] && lastSequence == old(lastSequence) + |old(pending)|
    {
      hide Inv;
      ApplyKeepsInv(Abs());
      MemIsOld(Abs());
      AddAll(pending);
      hist := hist + pending;
      pending := [];
    }

    // WriteBatchInternal::InsertInto
    method AddAll(batch: seq<Write>)
      requires Sorted(mem) && forall d | d in mem :: d.seqno <= lastSequence
      modifies `lastSequence, `mem
      ensures Sorted(mem) && Content(mem) == old(Content(mem)) + Content(Stamp(old(lastSequence), batch))
      ensures lastSequence == old(lastSequence) + |batch|
    {
      var start := lastSequence;
      ghost var stamped, was := Stamp(start, batch), mem;
      for i := 0 to |batch|
        invariant Sorted(mem) && Content(mem) == Content(was) + Content(stamped[..i])
        invariant lastSequence == start + i
      {
        var e := Entry(batch[i].key, start + 1 + i, batch[i].op);
        assert stamped[i] == e && stamped[..i + 1] == stamped[..i] + [e];
        forall d | d in mem ensures d.seqno < e.seqno {
          assert d in Content(mem);
        }
        InsertEntrySorts(mem, e);
        mem := InsertEntry(mem, e);
        lastSequence := lastSequence + 1;
      }
      assert stamped[..|batch|] == stamped;
    }

    // DBImpl::Write by the leader of the writer queue.
    method Write(batch: seq<Write>)
      requires Valid() && pending == [] && lastSequence + |batch| < MAX_SEQUENCE
      modifies this
      ensures Valid() && Abs() == After(After(old(Abs()), Append(batch)), Apply)
      ensures hist == old(hist) + batch
    {
      AddRecord(batch);
      InsertInto();
    }

    // MakeRoomForWrite's switch to a new log and memtable.
    method SwitchMemTable()
      requires Valid() && pending == [] && imm.None?
      modifies `mem, `imm, `memStart, `logs, `logfile, `nextFile
      ensures Valid() && Abs() == After(old(Abs()), Store.SwitchMemTable)
      ensures mem == [] && imm == Some(old(mem))
      ensures logfile == old(nextFile) && logs == old(logs)[logfile := []]
    {
      hide Inv, SortedFiles, Sorted, Content;
      SwitchKeepsInv(Abs());
      EmptyIsSorted();
      logs := logs[nextFile := []];
      logfile := nextFile;
      nextFile := nextFile + 1;
      imm := Some(mem);
      mem := [];
      memStart := |hist|;
    }

    method GetSnapshot() returns (n: nat)
      requires Valid()
      modifies `snapshots
      ensures Valid() && Abs() == After(old(Abs()), TakeSnapshot)
      ensures n == lastSequence && floor <= n && snapshots == old(snapshots) + [n]
    {
      n := lastSequence;
      snapshots := snapshots + [n];
    }

    method ReleaseSnapshot(index: nat)
      requires Valid() && index < |snapshots|
      modifies `snapshots
      ensures Valid() && Abs() == After(old(Abs()), Store.ReleaseSnapshot(index))
      ensures snapshots == old(snapshots)[..index] + old(snapshots)[index + 1..]
    {
      snapshots := snapshots[..index] + snapshots[index + 1..];
    }

    // A read at the current state or at any snapshot answers what the list of writes says.
    method Get(u: UserKey, snapshot: nat) returns (v: Option<Bytes>)
      requires Valid() && floor <= snapshot <= lastSequence
      ensures snapshot <= |hist| && v == RefGet(hist, u, snapshot)
    {
      hide Inv;
      LastIsHist(Abs());
      VersionIsValid();
      RunGetIsNewest(mem, u, snapshot);
      var r := RunGet(mem, u, snapshot);
      if r.None? && imm.Some? {
        RunGetIsNewest(imm.value, u, snapshot);
        r := RunGet(imm.value, u, snapshot);
      }
      if r.None? {
        r := version.Get(u, snapshot);
      }
      assert StoreRead(Abs(), u, snapshot, r);
      ReadsMatchHistory(Abs(), u, snapshot, r);
      v := Visible(r);
    }

    lemma VersionIsValid()
      requires Valid()
      ensures version.Valid()
    {
      var levels := version.Levels();
      forall l | 1 <= l < NUM_LEVELS ensures InOrder(version.files[l]) {
        forall f, g | f in version.files[l] && g in version.files[l] && f != g
          ensures FileBefore(f, g) || FileBefore(g, f) {
          assert f in levels[l] && g in levels[l];
        }
        SortedFilesInOrder(version.files[l]);
      }
      forall l, f | 0 <= l < NUM_LEVELS && f in version.files[l] ensures f.Largest().seqno <= MAX_SEQUENCE {
        assert f in levels[l];
        assert f.Largest() in f.entries;
        assert f.Largest() in LevelsContent(levels);
      }
    }

    // Builds the next version from edits of each level (VersionSet::LogAndApply).
    method LogAndApply(edits: seq<LevelEdit>)
      requires |version.files| == NUM_LEVELS == |edits|
      requires forall l | 0 <= l < NUM_LEVELS :: SortedFiles(version.files[l])
      requires forall l | 0 <= l < NUM_LEVELS :: NewTo(version.Levels()[l], edits[l])
      modifies `version
      ensures |version.files| == NUM_LEVELS && version.targetFileSize == old(version.targetFileSize)
      ensures forall l | 0 <= l < NUM_LEVELS ::
                && SortedFiles(version.files[l])
                && version.Levels()[l] == Saved(old(version.Levels()[l]), Edited(FRESH, edits[l]))
    {
      var files: seq<seq<Table>> := [];
      var base := version;
      for l := 0 to NUM_LEVELS
        invariant |files| == l && version == base
        invariant forall m | 0 <= m < l ::
                    && SortedFiles(files[m])
                    && FileSet(files[m]) == Saved(base.Levels()[m], Edited(FRESH, edits[m]))
      {
        assert NewTo(base.Levels()[l], edits[l]);
        var saved := SaveLevel(base.files[l], edits[l]);
        files := files + [saved];
      }
      version := new Version(files, base.targetFileSize);
    }

    // Edits that delete and add files at two neighbouring levels, or add at one.
    method ApplyAt(level: nat, gone0: seq<Table>, gone1: seq<Table>, added0: seq<Table>, added1: seq<Table>)
      requires |version.files| == NUM_LEVELS && level + 1 < NUM_LEVELS
      requires forall l | 0 <= l < NUM_LEVELS :: SortedFiles(version.files[l])
      requires Numbered(version.Levels(), nextFile)
      requires Editable(version.Levels()[level], gone0, added0)
      requires Editable(version.Levels()[level + 1], gone1, added1)
      modifies `version
      ensures |version.files| == NUM_LEVELS && version.targetFileSize == old(version.targetFileSize)
      ensures forall l | 0 <= l < NUM_LEVELS :: SortedFiles(version.files[l])
      ensures var was := old(version.Levels());
              version.Levels() == was[level := was[level] - FileSet(gone0) + FileSet(added0)]
                                     [level + 1 := was[level + 1] - FileSet(gone1) + FileSet(added1)]
    {
      hide SortedFiles, Saved, Edited, Editable, NewTo;
      ghost var was := version.Levels();
      var edits := EditsAt(level, gone0, gone1, added0, added1);
      EditsApply(was, level, gone0, gone1, added0, added1);
      LogAndApply(edits);
    }

    // Adds a table to a level, or installs an unchanged version.
    method AddTable(level: nat, table: Option<Table>)
      requires |version.files| == NUM_LEVELS && level + 1 < NUM_LEVELS
      requires forall l | 0 <= l < NUM_LEVELS :: SortedFiles(version.files[l])
      requires Numbered(version.Levels(), nextFile) && (table.Some? ==> table.value.number >= nextFile)
      modifies `version
      ensures |version.files| == NUM_LEVELS && version.targetFileSize == old(version.targetFileSize)
      ensures forall l | 0 <= l < NUM_LEVELS :: SortedFiles(version.files[l])
      ensures version.Levels() == if table.Some? then AddFile(old(version.Levels()), level, table.value)
                                  else old(version.Levels())
    {
      hide SortedFiles, Numbered, Editable, FileSet;
      var added := if table.Some? then [table.value] else [];
      TableIsEditable(version.Levels(), nextFile, level, table);
      TableIsAdded(version.Levels(), level, table);
      ApplyAt(level, [], [], added, []);
    }

    // Writes the immutable memtable as a table, for the level picked for its key range.  An
    // empty memtable yields no table.
    method WriteLevel0Table(sizeOf: seq<Entry> -> nat) returns (level: nat, table: Option<Table>)
      requires Valid() && imm.Some?
      ensures level <= MAX_MEM_COMPACT_LEVEL
      ensures Allowed(Abs(), Flush(level, table))
      ensures table.None? <==> imm.value == []
      ensures table.Some? ==> table.value == File(nextFile, sizeOf(imm.value), imm.value)
    {
      hide Inv, PickedLevel, FlushLevelOk;
      VersionIsValid();
      var es := imm.value;
      if es == [] {
        return 0, None;
      }
      assert es[0] in Content(es);
      var f: Table := File(nextFile, sizeOf(es), es);
      level := version.PickLevelForMemTableOutput(f.Lo(), f.Hi());
      PickedLevelIsOk(version, f, level);
      table := Some(f);
    }

    // Moves the immutable memtable into a table and commits that its log is no longer needed.
    method CompactMemTable(sizeOf: seq<Entry> -> nat) returns (ghost a: Action)
      requires Valid() && imm.Some?
      modifies this
      ensures a.Flush? && Allowed(old(Abs()), a) && SafeStep(old(Abs()), a)
      ensures Valid() && Abs() == After(old(Abs()), a)
      ensures imm == None && mem == old(mem) && hist == old(hist) && logNumber == logfile == old(logfile)
      ensures a.table.None? <==> old(imm.value) == []
      ensures a.table.Some? ==>
                && a.table.value == File(old(nextFile), sizeOf(old(imm.value)), old(imm.value))
                && version.Levels() == AddFile(old(version.Levels()), a.level, a.table.value)
    {
      var level, table := WriteLevel0Table(sizeOf);
      a := Flush(level, table);
      CommitFlush(level, table);
    }

    method CommitFlush(level: nat, table: Option<Table>)
      requires Valid() && level <= MAX_MEM_COMPACT_LEVEL && Allowed(Abs(), Flush(level, table))
      modifies this
      ensures Valid() && Abs() == After(old(Abs()), Flush(level, table))
      ensures imm == None && mem == old(mem) && hist == old(hist) && logNumber == logfile == old(logfile)
      ensures table.Some? ==> version.Levels() == AddFile(old(version.Levels()), level, table.value)
    {
      hide Inv, Numbered, Sorted, SortedFiles, AddFile, Content, Allowed, After;
      NumbersBelow(Abs());
      FlushKeepsInv(Abs(), level, table);
      FlushOutcome(Abs(), level, table);
      AddTable(level, table);
      FinishFlush();
    }

    method FinishFlush()
      modifies `imm, `flushed, `nextFile, `logNumber, `manifestLast, `manifestNext
      ensures imm == None && flushed == memStart && nextFile == manifestNext == old(nextFile) + 1
      ensures logNumber == logfile && manifestLast == lastSequence
    {
      nextFile := nextFile + 1;
      logNumber, manifestLast, manifestNext := logfile, lastSequence, nextFile;
      imm, flushed := None, memStart;
    }

    // Picks a compaction, for a requested range or else by size or by seeks, and runs it.
    method BackgroundCompaction(picker: CompactionPicker, request: Option<RangeRequest>, tooBig: Option<nat>,
                                fileToCompact: Option<(nat, Table)>, sizeOf: seq<Entry> -> nat)
      returns (ghost a: Option<Action>)
      requires Valid() && picker.Valid()
      requires request.Some? ==> request.value.level + 1 < NUM_LEVELS
      requires tooBig.Some? ==> tooBig.value + 1 < NUM_LEVELS && version.files[tooBig.value] != []
      requires fileToCompact.Some? ==>
                 fileToCompact.value.0 + 1 < NUM_LEVELS && fileToCompact.value.1 in version.files[fileToCompact.value.0]
      modifies this, picker
      ensures a.None? ==> Valid() && Abs() == old(Abs())
      ensures a.Some? ==>
                && (a.value.TrivialMove? || a.value.Merge?) && Allowed(old(Abs()), a.value)
                && Rep() && Abs() == After(old(Abs()), a.value) && (SafeStep(old(Abs()), a.value) ==> Valid())
                && (request.Some? ==> a.value.Merge?)
      ensures a.Some? ==> exists r0, r1 ::
                && CompactionOf(a.value) == Compaction(CompactionOf(a.value).level, FileSet(r0), FileSet(r1))
                && IsPick(old(version), old(picker.compactPointer), request, tooBig, fileToCompact, CompactionOf(a.value).level, r0, r1)
      ensures a.None? <==>
                if request.Some? then
                  forall f | f in old(version).files[request.value.level] :: !Meets(f, request.value.begin, request.value.end)
                else tooBig.None? && fileToCompact.None?
    {
      hide Inv, SortedFiles, Content, Startable, Chosen, Allowed, After, Ranged, PickedFor, IsNextAfter, Sublist, PointerMoved;
      hide SafeStep;
      VersionIsValid();
      var v := version;
      ghost var pointers := picker.compactPointer;
      var job: CompactionJob?;
      if request.Some? {
        var q := request.value;
        job := picker.CompactRange(v, q.level, q.begin, q.end, q.limit);
      } else {
        job := picker.PickCompaction(v, tooBig, fileToCompact);
      }
      if job == null {
        return None;
      }
      ghost var r0, r1, level := job.inputs0, job.inputs1, job.level;
      var done := RunCompaction(job, request.Some?, sizeOf);
      a := Some(done);
      assert IsPick(v, pointers, request, tooBig, fileToCompact, level, r0, r1);
    }

    // Moves a lone file down as it is, or merges the inputs.
    method RunCompaction(job: CompactionJob, manual: bool, sizeOf: seq<Entry> -> nat) returns (ghost a: Action)
      requires Valid() && Ready(job, version)
      modifies this, job, job.levelPtrs
      ensures a.TrivialMove? || a.Merge?
      ensures (manual ==> a.Merge?) && CompactionOf(a) == old(job.Spec())
      ensures job.inputs0 == old(job.inputs0) != [] && job.inputs1 == old(job.inputs1)
      ensures a.TrivialMove? <==>
                && !manual && |job.inputs0| == 1 && job.inputs1 == []
                && TotalFileSize(Below(old(version), job.level, job.inputs0 + job.inputs1)) <= 10 * old(version).targetFileSize
      ensures Allowed(old(Abs()), a)
      ensures a.Merge? ==> InTime(old(version), job.level, job.inputs0 + job.inputs1, sizeOf, a.outs)
      ensures Rep() && Abs() == After(old(Abs()), a) && (SafeStep(old(Abs()), a) ==> Valid())
    {
      hide Inv, Numbered, SortedFiles, Content, Safe, Startable, Chosen, Inputs, Mergeable, Allowed, After, SafeStep, Sublist;
      if !manual && job.IsTrivialMove() {
        var f := job.inputs0[0];
        assert FileSet(job.inputs0) == {f} && FileSet(job.inputs1) == {};
        assert job.Spec() == Move(job.level, f);
        a := TrivialMove(job.level, f);
        CommitMove(job.level, f);
      } else {
        var input := MakeInputIterator(job);
        a := MergeInputs(job, input, sizeOf);
      }
    }

    method CommitMove(level: nat, f: Table)
      requires Valid() && Chosen(version.Levels(), Move(level, f))
      modifies this
      ensures Allowed(old(Abs()), TrivialMove(level, f))
      ensures Rep() && Abs() == After(old(Abs()), TrivialMove(level, f))
      ensures SafeStep(old(Abs()), TrivialMove(level, f)) ==> Valid()
    {
      hide Inv, Numbered, Sorted, SortedFiles, Content, Safe, Editable, Chosen, Allowed, After, SafeStep;
      MoveOutcome(Abs(), level, f);
      floor := SmallestSnapshot(Abs());
      ApplyAt(level, [f], [], [], [f]);
      manifestLast, manifestNext := lastSequence, nextFile;
    }

    // VersionSet::MakeInputIterator, run to its end: all the inputs in internal key order.
    method MakeInputIterator(job: CompactionJob) returns (input: seq<Entry>)
      requires Valid() && Ready(job, version)
      ensures input == MergeLists(InputLists(job.level, job.inputs0, job.inputs1))
      ensures Mergeable(input) && Content(input) == Inputs(job.Spec())
    {
      hide Inv, SortedFiles, Content, Chosen, Keyed, Separate, Union, NoneTwice, Mergeable, MergeLists, InputLists, Sorted;
      job.ListsInOrder();
      FilesAreDistinct(job.level);
      FilesAreDistinct(job.level + 1);
      InputsAreStored(Abs(), job.Spec(), job.inputs0, job.inputs1);
      InputsAreSeparate(job.level, job.inputs0, job.inputs1);
      MergeListsIsUnion(InputLists(job.level, job.inputs0, job.inputs1));
      input := MergeLists(InputLists(job.level, job.inputs0, job.inputs1));
      InContentAll(input);
      SortedIsMergeable(input);
    }

    lemma FilesAreDistinct(level: nat)
      requires Valid() && level < NUM_LEVELS
      ensures Distinct(version.files[level])
    {
      hide Inv;
      assert SortedFiles(version.files[level]);
    }

    method MergeInputs(job: CompactionJob, input: seq<Entry>, sizeOf: seq<Entry> -> nat) returns (ghost a: Action)
      requires Valid() && Ready(job, version)
      requires Mergeable(input) && Content(input) == Inputs(job.Spec())
      modifies this, job, job.levelPtrs
      ensures a.Merge? && a.c == old(job.Spec()) && Allowed(old(Abs()), a)
      ensures job.inputs0 == old(job.inputs0) != [] && job.inputs1 == old(job.inputs1)
      ensures InTime(old(version), job.level, job.inputs0 + job.inputs1, sizeOf, a.outs)
      ensures Rep() && Abs() == After(old(Abs()), a) && (SafeStep(old(Abs()), a) ==> Valid())
    {
      hide Inv, Numbered, Sorted, SortedFiles, Content, Chosen, Safe, Startable, Survivors, Inputs, Mergeable, After, Cuts;
      hide InTime, FilesContent, Fresh, PairwiseBefore, Allowed, SafeStep, Sublist, Rep;
      ghost var spec := job.Spec();
      var outs := RunMerge(job, input, sizeOf);
      a := Merge(spec, FileSet(outs), nextFile + |outs|);
      MergeIsAllowed(Abs(), spec, outs);
      CommitMerge(job.level, job.inputs0, job.inputs1, outs, a);
    }

    // Writes the outputs, without committing them.
    method RunMerge(job: CompactionJob, input: seq<Entry>, sizeOf: seq<Entry> -> nat) returns (outs: seq<Table>)
      requires Valid() && Ready(job, version)
      requires Mergeable(input) && Content(input) == Inputs(job.Spec())
      modifies job, job.levelPtrs
      ensures job.inputs0 == old(job.inputs0) != [] && job.inputs1 == old(job.inputs1)
      ensures Chosen(version.Levels(), job.Spec()) && PairwiseBefore(FileSet(outs))
      ensures Fresh(FileSet(outs), nextFile, nextFile + |outs|)
      ensures FilesContent(FileSet(outs)) == Survivors(version.Levels(), job.Spec(), SmallestSnapshot(Abs()))
      ensures Cuts(version.Levels(), job.Spec(), version.targetFileSize, FileSet(outs))
      ensures InTime(version, job.level, job.inputs0 + job.inputs1, sizeOf, FileSet(outs))
    {
      hide Inv, Numbered, Sorted, SortedFiles, Content, Chosen, Safe, Startable, Survivors, Inputs, InOrder, Cuts;
      hide Mergeable, Sized, Narrow, Below, Sublist, FilesContent, PairwiseBefore, Fresh;
      SmallestIsBounded(Abs());
      var smallest := if snapshots == [] then lastSequence else snapshots[0];
      outs := job.DoCompactionWork(input, smallest, sizeOf, nextFile);
      OutputsAreFresh(outs, nextFile);
      job.HasInputs();
    }

    method CommitMerge(level: nat, in0: seq<Table>, in1: seq<Table>, outs: seq<Table>, ghost a: Action)
      requires Valid()
      requires a == Merge(Compaction(level, FileSet(in0), FileSet(in1)), FileSet(outs), nextFile + |outs|)
      requires Allowed(Abs(), a)
      modifies this
      ensures Rep() && Abs() == After(old(Abs()), a) && (SafeStep(old(Abs()), a) ==> Valid())
    {
      hide Inv, Numbered, Sorted, SortedFiles, Content, Safe, Editable, Chosen, Survivors, Allowed, After, SafeStep;
      MergeOutcome(Abs(), a, in0, in1, outs);
      floor := SmallestSnapshot(Abs());
      ApplyAt(level, in0, in1, [], outs);
      CommitNumbers(nextFile + |outs|);
    }

    // The numbers a manifest record commits.
    method CommitNumbers(next: nat)
      modifies `nextFile, `manifestLast, `manifestNext
      ensures nextFile == manifestNext == next && manifestLast == lastSequence
    {
      nextFile := next;
      manifestLast, manifestNext := lastSequence, next;
    }

    // Reopening after a crash: the log tail may be torn, the logs the manifest names are
    // replayed oldest first into level-0 tables, and a new log is committed.
    method Recover(torn: bool, full: seq<Entry> -> bool, sizeOf: seq<Entry> -> nat) returns (ghost a: Action)
      requires Valid()
      modifies this
      ensures a.Recover? && a.torn == torn && Allowed(old(Abs()), a)
      ensures Valid() && Abs() == After(old(Abs()), a)
      ensures hist == old(hist) + (if torn then [] else old(pending)) && lastSequence == |hist|
      ensures forall i | 0 <= i < |a.tables| :: a.tables[i].size == sizeOf(a.tables[i].entries)
      ensures forall n | n in old(logs) && !(torn && n == old(logfile)) :: n in logs && logs[n] == old(logs)[n]
    {
      ghost var s := Abs();
      hide Inv, Ascending, CutInto, Replay, MaxSeqno, Allowed, After, Sorted, SortedFiles, Content;
      RecoverInputs(s, torn);
      var kept := if torn then logs[logfile := logs[logfile][..|logs[logfile]| - |pending|]] else logs;
      var tables, cuts, next, last := ReplayLogs(kept, logNumber, nextFile, manifestNext + 1, manifestLast, full, sizeOf);
      a := Store.Recover(torn, tables, cuts, next);
      assert logNumber in kept && forall n | n in s.logs :: n in kept;
      RecoverIsAllowed(s, torn, tables, cuts, next);
      OtherLogsStay(s, torn, kept, next);
      CommitRecovery(torn, tables, kept, next, last, a);
    }

    method CommitRecovery(torn: bool, tables: seq<Table>, kept: map<nat, seq<Entry>>, log: nat, last: nat, ghost a: Action)
      requires Valid() && a.Recover? && Allowed(Abs(), a)
      requires a.torn == torn && a.tables == tables && a.log == log
      requires kept == SurvivingLogs(Abs(), torn)
      requires last == MaxSeqno(Replay(kept, logNumber, nextFile), manifestLast)
      modifies this
      ensures Valid() && Abs() == After(old(Abs()), a)
      ensures hist == SurvivingWrites(old(Abs()), torn) && lastSequence == |hist| && logs == kept[log := []]
    {
      hide Inv, Numbered, SortedFiles, Editable, Allowed, After, Replay, MaxSeqno, AddTables, SurvivingLogs;
      hide SurvivingWrites, Sorted, Content, FileSet, Numbered;
      EmptyIsSorted();
      LastIsHist(Abs());
      RecoverOutcome(Abs(), a);
      ghost var full, t := SurvivingWrites(Abs(), torn), After(Abs(), a);
      ApplyAt(0, [], [], tables, []);
      assert version.Levels() == t.levels;
      Reopen(full, log, last, kept[log := []]);
    }

    // The memory of a freshly opened database whose first log is log.
    method Reopen(ghost full: seq<Write>, log: nat, last: nat, kept: map<nat, seq<Entry>>)
      modifies `hist, `flushed, `memStart, `pending, `lastSequence, `mem, `imm, `snapshots
      modifies `nextFile, `logfile, `logNumber, `manifestLast, `manifestNext, `logs
      ensures hist == full && flushed == memStart == |full| && pending == [] && lastSequence == last
      ensures mem == [] && imm == None && snapshots == []
      ensures nextFile == manifestNext == log + 1 && logfile == logNumber == log && manifestLast == last
      ensures logs == kept
    {
      hist := full;
      flushed, memStart, pending, lastSequence := |full|, |full|, [], last;
      mem, imm, snapshots := [], None, [];
      ReopenFiles(log, last, kept);
    }

    method ReopenFiles(log: nat, last: nat, kept: map<nat, seq<Entry>>)
      modifies `nextFile, `logfile, `logNumber, `manifestLast, `manifestNext, `logs
      ensures nextFile == manifestNext == log + 1 && logfile == logNumber == log && manifestLast == last
      ensures logs == kept
    {
      nextFile, logfile, logNumber := log + 1, log, log;
      manifestLast, manifestNext := last, log + 1;
      logs := kept;
    }
  }

  lemma LogIsThere(s: State)
    requires Inv(s)
    ensures s.logfile in s.logs
  {
  }

  lemma EmptyIsSorted()
    ensures Sorted([]) && Content([]) == {}
  {
  }

  lemma NoFiles(v: Version, targetFileSize: nat)
    requires v.files == seq(NUM_LEVELS, _ => [])
    ensures |v.files| == NUM_LEVELS && v.Levels() == Initial(targetFileSize).levels
    ensures forall l | 0 <= l < NUM_LEVELS :: SortedFiles(v.files[l])
  {
    assert forall l | 0 <= l < NUM_LEVELS :: v.files[l] == [] && v.Levels()[l] == {};
  }

  lemma RecoverInputs(s: State, torn: bool)
    requires Inv(s)
    ensures |s.levels| == NUM_LEVELS && s.logNumber <= s.nextFile && s.logNumber in s.logs
    ensures s.logfile in s.logs && |s.pending| <= |s.logs[s.logfile]|
    ensures forall n | n in s.logs :: n < s.nextFile
    ensures Ascending(Replay(SurvivingLogs(s, torn), s.logNumber, s.nextFile))
  {
    ReplayIsTail(s, torn);
  }

  lemma OtherLogsStay(s: State, torn: bool, kept: map<nat, seq<Entry>>, log: nat)
    requires kept == SurvivingLogs(s, torn) && forall n | n in s.logs :: n < log
    ensures forall n | n in s.logs && !(torn && n == s.logfile) :: n in kept[log := []] && kept[log := []][n] == s.logs[n]
  {
  }

  lemma RecoverIsAllowed(s: State, torn: bool, tables: seq<Table>, cuts: seq<nat>, log: nat)
    requires Inv(s)
    requires CutInto(Replay(SurvivingLogs(s, torn), s.logNumber, s.nextFile), tables, cuts, s.manifestNext + 1)
    requires s.manifestNext < log && s.logNumber < log
    requires forall i | 0 <= i < |tables| :: tables[i].number < log
    requires forall n | n in s.logs && s.logNumber <= n :: n < log
    ensures Allowed(s, Store.Recover(torn, tables, cuts, log))
  {
    hide CutInto, Replay, SurvivingLogs;
    assert |s.levels| > 0;
  }

  lemma RecoverOutcome(s: State, a: Action)
    requires Inv(s) && a.Recover? && Allowed(s, a)
    ensures |s.levels| == NUM_LEVELS && Numbered(s.levels, s.nextFile)
    ensures Editable(s.levels[0], [], a.tables) && Editable(s.levels[1], [], [])
    ensures Inv(After(s, a))
    ensures var full := SurvivingWrites(s, a.torn);
            var last := MaxSeqno(Replay(SurvivingLogs(s, a.torn), s.logNumber, s.nextFile), s.manifestLast);
            && s.hist <= full <= s.hist + s.pending && last == |full|
            && After(s, a) == State(s.target, full, |full|, |full|, s.floor, [], last, Content([]), None,
                 s.levels[0 := s.levels[0] - FileSet([]) + FileSet(a.tables)]
                         [1 := s.levels[1] - FileSet([]) + FileSet([])],
                 [], a.log + 1, a.log, a.log, last, a.log + 1, SurvivingLogs(s, a.torn)[a.log := []])
  {
    hide Inv, Numbered, Replay, MaxSeqno, CutInto, AddTables, SurvivingLogs, SurvivingWrites, Editable, After, Allowed;
    NumbersBelow(s);
    RecoverKeepsInv(s, a);
    TablesAreEditable(s, a);
    RecoverState(s, a);
  }

  lemma RecoverState(s: State, a: Action)
    requires a.Recover? && Allowed(s, a) && |s.levels| == NUM_LEVELS
    ensures var full := SurvivingWrites(s, a.torn);
            var last := MaxSeqno(Replay(SurvivingLogs(s, a.torn), s.logNumber, s.nextFile), s.manifestLast);
            && After(s, a).hist == full && After(s, a).last == last
            && After(s, a) == State(s.target, full, |full|, |full|, s.floor, [], last, Content([]), None,
                 s.levels[0 := s.levels[0] - FileSet([]) + FileSet(a.tables)]
                         [1 := s.levels[1] - FileSet([]) + FileSet([])],
                 [], a.log + 1, a.log, a.log, last, a.log + 1, SurvivingLogs(s, a.torn)[a.log := []])
  {
    hide Replay, MaxSeqno, CutInto, AddTables, SurvivingLogs, SurvivingWrites;
    TablesAtZero(s.levels, a.tables);
    NoEdit(s.levels, a.tables);
    assert Content([]) == {};
  }

  lemma NoEdit(levels: seq<set<Table>>, tables: seq<Table>)
    requires |levels| > 1
    ensures levels[0 := levels[0] - FileSet([]) + FileSet(tables)][1 := levels[1] - FileSet([]) + FileSet([])]
         == levels[0 := levels[0] + FileSet(tables)]
  {
    ghost var none: set<Table> := FileSet([]);
    assert levels[1] - none + none == levels[1];
    assert levels[0] - none + FileSet(tables) == levels[0] + FileSet(tables);
  }

  lemma TablesAreEditable(s: State, a: Action)
    requires Inv(s) && a.Recover? && Allowed(s, a)
    ensures |s.levels| == NUM_LEVELS
    ensures Editable(s.levels[0], [], a.tables) && Editable(s.levels[1], [], [])
  {
    hide Inv, Replay, SurvivingLogs, Numbered;
    NumbersBelow(s);
    NumbersLater(s, a);
    NewIsEditable(s.levels[0], a.tables, s.manifestNext, s.levels);
    NewIsEditable(s.levels[1], [], s.manifestNext, s.levels);
  }

  lemma TableIsEditable(levels: seq<set<Table>>, next: nat, level: nat, table: Option<Table>)
    requires Numbered(levels, next) && level + 1 < |levels| && (table.Some? ==> table.value.number >= next)
    ensures Editable(levels[level], [], if table.Some? then [table.value] else []) && Editable(levels[level + 1], [], [])
  {
  }

  lemma TableIsAdded(levels: seq<set<Table>>, level: nat, table: Option<Table>)
    requires level + 1 < |levels|
    ensures levels[level := levels[level] - FileSet([]) + FileSet(if table.Some? then [table.value] else [])]
                  [level + 1 := levels[level + 1] - FileSet([]) + FileSet([])]
         == if table.Some? then AddFile(levels, level, table.value) else levels
  {
    var none: set<Table> := FileSet([]);
    var added := FileSet(if table.Some? then [table.value] else []);
    assert added == if table.Some? then {table.value} else {};
    var at, below := levels[level] - none + added, levels[level + 1] - none + none;
    assert at == (if table.Some? then levels[level] + {table.value} else levels[level]) && below == levels[level + 1];
    assert levels[level := at][level + 1 := below] == levels[level := at];
    assert table.None? ==> levels[level := at] == levels;
  }

  lemma NumbersLater(s: State, a: Action)
    requires a.Recover? && Allowed(s, a)
    ensures forall i | 0 <= i < |a.tables| :: a.tables[i].number > s.manifestNext
    ensures forall i, j | 0 <= i < j < |a.tables| :: a.tables[i].number < a.tables[j].number
  {
    hide Replay, SurvivingLogs, Chunk;
  }

  lemma NewIsEditable(level: set<Table>, added: seq<Table>, next: nat, levels: seq<set<Table>>)
    requires Numbered(levels, next) && level in levels
    requires forall i | 0 <= i < |added| :: added[i].number > next
    requires forall i, j | 0 <= i < j < |added| :: added[i].number < added[j].number
    ensures Editable(level, [], added)
  {
    var l :| 0 <= l < |levels| && levels[l] == level;
    forall f, g | f in level && g in added ensures f.number != g.number {
      var i :| 0 <= i < |added| && added[i] == g;
    }
  }

  ghost predicate Ascending(es: seq<Entry>) {
    forall i, j | 0 <= i < j < |es| :: es[i].seqno < es[j].seqno
  }

  lemma MoveOutcome(s: State, level: nat, f: Table)
    requires Inv(s) && Chosen(s.levels, Move(level, f))
    ensures |s.levels| == NUM_LEVELS && level + 1 < NUM_LEVELS && Numbered(s.levels, s.nextFile)
    ensures Editable(s.levels[level], [f], []) && Editable(s.levels[level + 1], [], [f])
    ensures Allowed(s, TrivialMove(level, f))
    ensures var t := After(s, TrivialMove(level, f));
            && (SafeStep(s, TrivialMove(level, f)) ==> Inv(t))
            && t == s.(levels := s.levels[level := s.levels[level] - FileSet([f]) + FileSet([])]
                                         [level + 1 := s.levels[level + 1] - FileSet([]) + FileSet([f])],
                       floor := SmallestSnapshot(s), manifestLast := s.last, manifestNext := s.nextFile)
  {
    hide Inv, Numbered, Safe, Editable;
    NumbersBelow(s);
    MoveIsEditable(s.levels, level, f, s.nextFile);
    if SafeStep(s, TrivialMove(level, f)) {
      MoveKeepsInv(s, level, f);
    }
    ghost var none: set<Table> := FileSet([]);
    assert FileSet([f]) == {f} && s.levels[level] - {f} + none == s.levels[level] - {f};
    assert s.levels[level + 1] - none + {f} == s.levels[level + 1] - {} + {f};
  }

  lemma MergeOutcome(s: State, a: Action, in0: seq<Table>, in1: seq<Table>, outs: seq<Table>)
    requires Inv(s) && a.Merge? && Allowed(s, a)
    requires a.c.in0 == FileSet(in0) && a.c.in1 == FileSet(in1)
    requires a.outs == FileSet(outs) && a.next == s.nextFile + |outs|
    ensures var l := a.c.level;
            && |s.levels| == NUM_LEVELS && l + 1 < NUM_LEVELS && Numbered(s.levels, s.nextFile)
            && Editable(s.levels[l], in0, []) && Editable(s.levels[l + 1], in1, outs)
            && (SafeStep(s, a) ==> Inv(After(s, a)))
            && After(s, a) == s.(levels := s.levels[l := s.levels[l] - FileSet(in0) + FileSet([])]
                                                   [l + 1 := s.levels[l + 1] - FileSet(in1) + FileSet(outs)],
                                 floor := SmallestSnapshot(s), nextFile := a.next,
                                 manifestLast := s.last, manifestNext := a.next)
  {
    hide Inv, Numbered, Safe, Editable, Survivors, PairwiseBefore, Fresh, Cuts;
    NumbersBelow(s);
    MergeIsEditable(s.levels, a.c, in0, in1, outs, s.nextFile);
    if SafeStep(s, a) {
      MergeKeepsInv(s, a.c, a.outs, a.next);
    }
    ghost var none: set<Table> := FileSet([]);
    assert s.levels[a.c.level] - FileSet(in0) + none == s.levels[a.c.level] - FileSet(in0);
  }

  // The outputs of a merge were closed no later than the code closes them.
  ghost predicate InTime(v: Version, level: nat, inputs: seq<Table>, sizeOf: seq<Entry> -> nat, outs: set<Table>)
    requires inputs != []
  {
    forall f | f in outs ::
      Sized(f, v.targetFileSize, sizeOf) && Narrow(Below(v, level, inputs), v.targetFileSize, f.entries)
  }

  // ---------- the inputs of a compaction

  datatype RangeRequest = RangeRequest(level: nat, begin: Option<UserKey>, end: Option<UserKey>, limit: nat)

  // The inputs a request, the pointer of a level, or a file searched in vain leads to.
  ghost predicate IsPick(v: Version, pointers: seq<Option<IKey>>, request: Option<RangeRequest>, tooBig: Option<nat>,
                         fileToCompact: Option<(nat, Table)>, level: nat, r0: seq<Table>, r1: seq<Table>) {
    && level < |v.files| && level < |pointers|
    && if request.Some? then
         var q := request.value;
         level == q.level && Ranged(v, level, q.begin, q.end, q.limit, r0, r1)
       else if tooBig.Some? then
         level == tooBig.value
         && exists i: nat :: IsNextAfter(v.files[level], pointers[level], i) && PickedFor(v, level, v.files[level][i], r0, r1)
       else fileToCompact.Some? && level == fileToCompact.value.0 && PickedFor(v, level, fileToCompact.value.1, r0, r1)
  }

  // The children of MakeInputIterator.
  function InputLists(level: nat, in0: seq<Table>, in1: seq<Table>): seq<seq<Entry>> {
    (if level == 0 then LevelZero(in0) else [Concat(in0)]) + (if in1 == [] then [] else [Concat(in1)])
  }

  // No two files hold the same entry.
  ghost predicate NoneTwice(files: seq<Table>) {
    forall i, j, e | 0 <= i < |files| && 0 <= j < |files| && e in files[i].entries && e in files[j].entries :: i == j
  }

  lemma ZeroIsSeparate(files: seq<Table>)
    requires NoneTwice(files)
    ensures Separate(LevelZero(files)) && Union(LevelZero(files)) == FilesContent(FileSet(files))
  {
    var lists := LevelZero(files);
    forall e ensures e in Union(lists) <==> e in FilesContent(FileSet(files)) {
      if e in FilesContent(FileSet(files)) {
        var f :| f in files && e in f.entries;
        var i :| 0 <= i < |files| && files[i] == f;
        assert e in lists[i];
      }
    }
  }

  lemma InputsAreSeparate(level: nat, in0: seq<Table>, in1: seq<Table>)
    requires NoneTwice(in0 + in1) && (level > 0 ==> InOrder(in0)) && InOrder(in1)
    ensures Separate(InputLists(level, in0, in1))
    ensures Union(InputLists(level, in0, in1)) == FilesContent(FileSet(in0) + FileSet(in1))
  {
    hide Separate, Union, NoneTwice, InOrder, Sorted, FilesContent;
    NoneShared(in0, in1);
    if level == 0 {
      ZeroIsSeparate(in0);
    } else {
      ConcatIsSorted(in0);
      One(Concat(in0));
    }
    var first := if level == 0 then LevelZero(in0) else [Concat(in0)];
    if in1 == [] {
      assert first + [] == first && FileSet(in0) + FileSet(in1) == FileSet(in0);
    } else {
      ConcatIsSorted(in1);
      One(Concat(in1));
      Joined(first, [Concat(in1)]);
    }
  }

  lemma NoneShared(in0: seq<Table>, in1: seq<Table>)
    requires NoneTwice(in0 + in1)
    ensures NoneTwice(in0) && FilesContent(FileSet(in0)) !! FilesContent(FileSet(in1))
    ensures FilesContent(FileSet(in0) + FileSet(in1)) == FilesContent(FileSet(in0)) + FilesContent(FileSet(in1))
  {
    var all := in0 + in1;
    forall i, j, e | 0 <= i < |in0| && 0 <= j < |in0| && e in in0[i].entries && e in in0[j].entries ensures i == j {
      assert all[i] == in0[i] && all[j] == in0[j];
    }
    forall e | e in FilesContent(FileSet(in0)) ensures e !in FilesContent(FileSet(in1)) {
      var f :| f in in0 && e in f.entries;
      var i :| 0 <= i < |in0| && in0[i] == f;
      forall g | g in in1 ensures e !in g.entries {
        var j :| 0 <= j < |in1| && in1[j] == g;
        assert all[i] == f && all[|in0| + j] == g;
      }
    }
  }

  // What the store's invariant says of the inputs.
  lemma InputsAreStored(s: State, c: Compaction, in0: seq<Table>, in1: seq<Table>)
    requires Inv(s) && Chosen(s.levels, c) && c.in0 == FileSet(in0) && c.in1 == FileSet(in1)
    requires Distinct(in0) && Distinct(in1)
    ensures NoneTwice(in0 + in1) && Keyed(Inputs(c))
    ensures forall e, d | e in Inputs(c) && d in Inputs(c) && e.key == d.key && e.seqno == d.seqno :: e == d
  {
    hide Inv, Outside;
    HomesOf(s);
    forall e | e in Inputs(c) ensures 1 <= e.seqno <= |s.hist| && e == EntryAt(s.hist, e.seqno) {
      var f :| f in c.in0 + c.in1 && e in f.entries;
      assert f in s.levels[c.level] || f in s.levels[c.level + 1];
      StoredInLevels(s, e);
    }
    var all := in0 + in1;
    forall i, j, e | 0 <= i < |all| && 0 <= j < |all| && e in all[i].entries && e in all[j].entries ensures i == j {
      assert if i < |in0| then all[i] in c.in0 else all[i] in c.in1;
      assert if j < |in0| then all[j] in c.in0 else all[j] in c.in1;
      SameHome(s.levels, if i < |in0| then c.level else c.level + 1, all[i], if j < |in0| then c.level else c.level + 1, all[j], e);
    }
  }

  lemma SameHome(levels: seq<set<Table>>, l: nat, f: Table, m: nat, g: Table, e: Entry)
    requires OneHome(levels) && l < |levels| && m < |levels| && f in levels[l] && g in levels[m]
    requires e in f.entries && e in g.entries
    ensures l == m && f == g
  {
  }

  lemma StoredInLevels(s: State, e: Entry)
    requires Inv(s) && e in LevelsContent(s.levels)
    ensures 1 <= e.seqno <= |s.hist| && e == EntryAt(s.hist, e.seqno)
  {
  }

  lemma SortedIsMergeable(input: seq<Entry>)
    requires Sorted(input)
    requires forall e, d | e in input && d in input && e.key == d.key && e.seqno == d.seqno :: e == d
    ensures Mergeable(input)
  {
    forall i, j | 0 <= i < j < |input| && input[i].key == input[j].key ensures input[i].seqno != input[j].seqno {
      assert Before(input[i], input[j]) && input[i] in input && input[j] in input;
    }
  }

  lemma SmallestIsBounded(s: State)
    requires Inv(s)
    ensures SmallestSnapshot(s) <= s.last
  {
  }

  lemma MergeIsAllowed(s: State, c: Compaction, outs: seq<Table>)
    requires Chosen(s.levels, c) && PairwiseBefore(FileSet(outs)) && Fresh(FileSet(outs), s.nextFile, s.nextFile + |outs|)
    requires FilesContent(FileSet(outs)) == Survivors(s.levels, c, SmallestSnapshot(s)) && Cuts(s.levels, c, s.target, FileSet(outs))
    ensures Allowed(s, Merge(c, FileSet(outs), s.nextFile + |outs|))
  {
    hide Chosen, PairwiseBefore, Fresh, Survivors, Cuts, FilesContent;
  }

  lemma OutputsAreFresh(outs: seq<Table>, next: nat)
    requires InOrder(outs) && forall i | 0 <= i < |outs| :: outs[i].number == next + i
    ensures PairwiseBefore(FileSet(outs)) && Fresh(FileSet(outs), next, next + |outs|)
  {
  }

  lemma MoveIsEditable(levels: seq<set<Table>>, level: nat, f: Table, next: nat)
    requires Numbered(levels, next) && Chosen(levels, Move(level, f))
    ensures Editable(levels[level], [f], []) && Editable(levels[level + 1], [], [f])
  {
    assert f in levels[level];
  }

  lemma MergeIsEditable(levels: seq<set<Table>>, c: Compaction, in0: seq<Table>, in1: seq<Table>,
                        outs: seq<Table>, next: nat)
    requires Numbered(levels, next) && Chosen(levels, c)
    requires c.in0 == FileSet(in0) && c.in1 == FileSet(in1)
    requires Fresh(FileSet(outs), next, next + |outs|)
    ensures Editable(levels[c.level], in0, []) && Editable(levels[c.level + 1], in1, outs)
  {
    forall f | f in outs ensures f in FileSet(outs) {
    }
  }

  lemma FlushOutcome(s: State, level: nat, table: Option<Table>)
    requires Allowed(s, Flush(level, table)) && level < |s.levels|
    ensures table.Some? ==> table.value.number == s.nextFile
    ensures After(s, Flush(level, table)) ==
      s.(imm := None, flushed := s.memStart,
         levels := if table.Some? then AddFile(s.levels, level, table.value) else s.levels,
         nextFile := s.nextFile + 1,
         logNumber := s.logfile, manifestLast := s.last, manifestNext := s.nextFile + 1)
  {
  }

  lemma NumbersBelow(s: State)
    requires Inv(s)
    ensures |s.levels| == NUM_LEVELS && Numbered(s.levels, s.nextFile) && Numbered(s.levels, s.manifestNext)
  {
  }

  // gone are files of the level; added are new to it.
  ghost predicate Editable(level: set<Table>, gone: seq<Table>, added: seq<Table>) {
    && FileSet(gone) <= level
    && (forall f, g | f in level && g in added :: f.number != g.number)
    && (forall f, g | f in added && g in added && f.number == g.number :: f == g)
  }

  // The files an edit adds to a level have numbers of their own.
  ghost predicate NewTo(level: set<Table>, edit: LevelEdit) {
    && (forall f, g | f in level && g in edit.added :: f.number != g.number)
    && (forall f, g | f in edit.added && g in edit.added && f.number == g.number :: f == g)
  }

  function EditsAt(level: nat, gone0: seq<Table>, gone1: seq<Table>, added0: seq<Table>, added1: seq<Table>): (r: seq<LevelEdit>)
    ensures |r| == NUM_LEVELS
  {
    seq(NUM_LEVELS, l requires 0 <= l < NUM_LEVELS =>
      if l == level then LevelEdit(set i | 0 <= i < |gone0| :: gone0[i].number, added0)
      else if l == level + 1 then LevelEdit(set i | 0 <= i < |gone1| :: gone1[i].number, added1)
      else LevelEdit({}, []))
  }

  lemma EditsApply(was: seq<set<Table>>, level: nat, gone0: seq<Table>, gone1: seq<Table>, added0: seq<Table>, added1: seq<Table>)
    requires |was| == NUM_LEVELS && level + 1 < NUM_LEVELS
    requires forall l, f, g | 0 <= l < NUM_LEVELS && f in was[l] && g in was[l] && f.number == g.number :: f == g
    requires Editable(was[level], gone0, added0) && Editable(was[level + 1], gone1, added1)
    ensures var edits := EditsAt(level, gone0, gone1, added0, added1);
            forall l | 0 <= l < NUM_LEVELS :: NewTo(was[l], edits[l])
    ensures var edits := EditsAt(level, gone0, gone1, added0, added1);
            forall l | 0 <= l < NUM_LEVELS ::
              Saved(was[l], Edited(FRESH, edits[l]))
              == if l == level then was[l] - FileSet(gone0) + FileSet(added0)
                 else if l == level + 1 then was[l] - FileSet(gone1) + FileSet(added1)
                 else was[l]
  {
    hide Saved, Edited;
    var edits := EditsAt(level, gone0, gone1, added0, added1);
    forall l | 0 <= l < NUM_LEVELS
      ensures Saved(was[l], Edited(FRESH, edits[l]))
           == if l == level then was[l] - FileSet(gone0) + FileSet(added0)
              else if l == level + 1 then was[l] - FileSet(gone1) + FileSet(added1)
              else was[l] {
      SavedEdit(was[l], if l == level then gone0 else if l == level + 1 then gone1 else [], edits[l]);
    }
  }

  // Deleting by number removes exactly the files meant.
  lemma SavedEdit(level: set<Table>, gone: seq<Table>, edit: LevelEdit)
    requires forall f, g | f in level && g in level && f.number == g.number :: f == g
    requires Editable(level, gone, edit.added)
    requires edit.deleted == set i | 0 <= i < |gone| :: gone[i].number
    ensures Saved(level, Edited(FRESH, edit)) == level - FileSet(gone) + FileSet(edit.added)
  {
    forall f | f in level ensures f.number in edit.deleted <==> f in FileSet(gone) {
      if f.number in edit.deleted {
        var i :| 0 <= i < |gone| && gone[i].number == f.number;
        assert gone[i] in FileSet(gone);
      }
    }
  }

  // One level of Builder::Apply followed by Builder::SaveTo.
  method SaveLevel(base: seq<Table>, edit: LevelEdit) returns (saved: seq<Table>)
    requires SortedFiles(base)
    requires NewTo(FileSet(base), edit)
    ensures SortedFiles(saved)
    ensures FileSet(saved) == Saved(FileSet(base), Edited(FRESH, edit))
  {
    var builder := new LevelBuilder(base);
    assert forall f | f in builder.added :: f in FileSet(builder.added);
    builder.Apply(edit);
    assert forall f | f in builder.added :: f in FileSet(builder.added);
    saved := builder.SaveTo();
  }

  lemma MemIsOld(s: State)
    requires Inv(s)
    ensures forall d | d in s.mem :: d.seqno <= s.last == |s.hist|
  {
  }

  // ---------- replaying logs

  lemma CutExtend(replay: seq<Entry>, p: nat, q: nat, tables: seq<Table>, cuts: seq<nat>, f: Table, first: nat)
    requires p <= q <= |replay| && CutInto(replay[..p], tables, cuts, first)
    requires Content(f.entries) == Content(replay[p..q])
    requires f.number >= first && forall i | 0 <= i < |tables| :: tables[i].number < f.number
    ensures CutInto(replay[..q], tables + [f], cuts + [q], first)
  {
    var t, c := tables + [f], cuts + [q];
    forall i | 0 <= i < |t| ensures first <= t[i].number && Chunk(replay[..q], t[i], c[i], c[i + 1]) {
      if i < |tables| {
        assert Chunk(replay[..p], tables[i], cuts[i], cuts[i + 1]);
        assert replay[..p][cuts[i]..cuts[i + 1]] == replay[..q][cuts[i]..cuts[i + 1]];
      } else {
        assert replay[..q][p..q] == replay[p..q];
      }
    }
  }

  // One record goes into the recovery memtable.
  lemma RecordStep(all: seq<Entry>, p: nat, k: nat, mem: seq<Entry>)
    requires Ascending(all) && p <= k < |all|
    requires Sorted(mem) && Content(mem) == Content(all[p..k])
    ensures Sorted(InsertEntry(mem, all[k])) && InsertEntry(mem, all[k]) != []
    ensures Content(InsertEntry(mem, all[k])) == Content(all[p..k + 1])
  {
    var e := all[k];
    assert all[p..k + 1] == all[p..k] + [e];
    forall d | d in mem ensures d.seqno < e.seqno {
      assert d in Content(all[p..k]);
      var j :| 0 <= j < k - p && all[p..k][j] == d;
      assert all[p + j].seqno < all[k].seqno;
    }
    InsertEntrySorts(mem, e);
  }

  lemma MaxStep(records: seq<Entry>, i: nat, start: nat)
    requires i < |records|
    ensures var m := MaxSeqno(records[..i], start);
            MaxSeqno(records[..i + 1], start) == if records[i].seqno > m then records[i].seqno else m
  {
    assert records[..i + 1][..i] == records[..i];
  }

  // tables hold the first p replayed records under numbers below next.
  ghost predicate Recovered(all: seq<Entry>, p: nat, tables: seq<Table>, cuts: seq<nat>, first: nat, next: nat) {
    && p <= |all| && first <= next
    && CutInto(all[..p], tables, cuts, first)
    && forall i | 0 <= i < |tables| :: tables[i].number < next
  }

  lemma TableStep(all: seq<Entry>, p: nat, q: nat, tables: seq<Table>, cuts: seq<nat>, f: Table, first: nat, next: nat)
    requires Recovered(all, p, tables, cuts, first, next) && p <= q <= |all|
    requires Content(f.entries) == Content(all[p..q]) && f.number == next
    ensures Recovered(all, q, tables + [f], cuts + [q], first, next + 1)
  {
    CutExtend(all, p, q, tables, cuts, f, first);
  }

  // The memtable that holds these records.
  function MemOf(es: seq<Entry>): seq<Entry> {
    if es == [] then [] else InsertEntry(MemOf(es[..|es| - 1]), es[|es| - 1])
  }

  lemma MemOfStep(all: seq<Entry>, p: nat, k: nat)
    requires p <= k < |all|
    ensures MemOf(all[p..p]) == [] && MemOf(all[p..k + 1]) == InsertEntry(MemOf(all[p..k]), all[k])
  {
    assert all[p..k + 1][..k - p] == all[p..k];
  }

  // A table holds the records a .. b - 1; the memtable was not full before the last of them,
  // and is now, unless the log ends here.
  ghost predicate FilledUp(all: seq<Entry>, a: nat, b: nat, es: seq<Entry>, full: seq<Entry> -> bool) {
    && a < b <= |all| && es == MemOf(all[a..b])
    && (forall k | a < k < b :: !full(MemOf(all[a..k])))
    && (b < |all| ==> full(es))
  }

  // DBImpl::RecoverLogFile: the records of one log go through a memtable that is written out
  // whenever it is full, and once more at the end of the log.
  method RecoverLogFile(records: seq<Entry>, ghost before: seq<Entry>, tables0: seq<Table>, ghost cuts0: seq<nat>,
                        ghost first: nat, next0: nat, last0: nat,
                        full: seq<Entry> -> bool, sizeOf: seq<Entry> -> nat)
    returns (tables: seq<Table>, ghost cuts: seq<nat>, next: nat, last: nat)
    requires Ascending(before + records)
    requires Recovered(before + records, |before|, tables0, cuts0, first, next0)
    ensures Recovered(before + records, |before + records|, tables, cuts, first, next) && next0 <= next
    ensures last == MaxSeqno(records, last0)
    ensures tables0 <= tables && |cuts| > |tables|
    ensures forall i | |tables0| <= i < |tables| ::
              && tables[i].size == sizeOf(tables[i].entries)
              && FilledUp(before + records, cuts[i], cuts[i + 1], tables[i].entries, full)
  {
    hide Ascending, Recovered, MaxSeqno, FilledUp, MemOf, InsertEntry;
    CutsFit(before + records, |before|, tables0, cuts0, first, next0);
    MemOfNone(before + records, |before|);
    ghost var all := before + records;
    tables, cuts, next, last := tables0, cuts0, next0, last0;
    var mem: seq<Entry> := [];
    ghost var p := |before|;
    MaxOfNothing(last0);
    for i := 0 to |records|
      invariant |before| <= p <= |before| + i
      invariant Recovered(all, p, tables, cuts, first, next) && next0 <= next
      invariant tables0 <= tables && |cuts| == |tables| + 1 && cuts[|tables|] == p
      invariant forall j | |tables0| <= j < |tables| ::
                  tables[j].size == sizeOf(tables[j].entries) && FilledUp(all, cuts[j], cuts[j + 1], tables[j].entries, full)
      invariant mem == MemOf(all[p..|before| + i]) && forall k | p < k <= |before| + i :: !full(MemOf(all[p..k]))
      invariant Sorted(mem) && Content(mem) == Content(all[p..|before| + i])
      invariant last == MaxSeqno(records[..i], last0)
    {
      RecordStep(all, p, |before| + i, mem);
      MemOfStep(all, p, |before| + i);
      MaxStep(records, i, last0);
      mem := InsertEntry(mem, records[i]);
      if records[i].seqno > last {
        last := records[i].seqno;
      }
      if full(mem) {
        var f: Table := File(next, sizeOf(mem), mem);
        TableStep(all, p, |before| + i + 1, tables, cuts, f, first, next);
        FillsUp(all, p, |before| + i + 1, mem, full);
        MemOfNone(all, |before| + i + 1);
        tables, cuts, next, mem := tables + [f], cuts + [|before| + i + 1], next + 1, [];
        p := |before| + i + 1;
      }
    }
    assert records[..|records|] == records;
    if mem != [] {
      var f: Table := File(next, sizeOf(mem), mem);
      TableStep(all, p, |all|, tables, cuts, f, first, next);
      MemOfNone(all, p);
      FillsUp(all, p, |all|, mem, full);
      tables, cuts, next := tables + [f], cuts + [|all|], next + 1;
    } else {
      EmptyContent(mem);
      EmptyContent(all[p..|all|]);
    }
  }

  lemma CutsFit(all: seq<Entry>, p: nat, tables: seq<Table>, cuts: seq<nat>, first: nat, next: nat)
    requires Recovered(all, p, tables, cuts, first, next)
    ensures |cuts| == |tables| + 1 && cuts[|tables|] == p
  {
  }

  lemma MemOfNone(all: seq<Entry>, p: nat)
    requires p <= |all|
    ensures MemOf(all[p..p]) == []
  {
  }

  lemma FillsUp(all: seq<Entry>, a: nat, b: nat, es: seq<Entry>, full: seq<Entry> -> bool)
    requires a < b <= |all| && es == MemOf(all[a..b]) && (forall k | a < k < b :: !full(MemOf(all[a..k]))) && (b < |all| ==> full(es))
    ensures FilledUp(all, a, b, es, full)
  {
    hide MemOf;
  }

  lemma EmptyContent(es: seq<Entry>)
    ensures Content(es) == {} <==> es == []
  {
    assert es != [] ==> es[0] in Content(es);
  }

  lemma MaxOfNothing(start: nat)
    ensures MaxSeqno([], start) == start
  {
  }

  lemma {:induction false} MaxSeqnoConcat(a: seq<Entry>, b: seq<Entry>, start: nat)
    ensures MaxSeqno(a + b, start) == MaxSeqno(b, MaxSeqno(a, start))
  {
    if b == [] {
      assert a + b == a;
    } else {
      assert (a + b)[..|a + b| - 1] == a + b[..|b| - 1];
      MaxSeqnoConcat(a, b[..|b| - 1], start);
    }
  }

  // Recovers the logs lo .. hi-1 in ascending order.
  method ReplayLogs(logs: map<nat, seq<Entry>>, lo: nat, hi: nat, first: nat, last0: nat,
                    full: seq<Entry> -> bool, sizeOf: seq<Entry> -> nat)
    returns (tables: seq<Table>, ghost cuts: seq<nat>, next: nat, last: nat)
    requires lo <= hi && Ascending(Replay(logs, lo, hi))
    ensures CutInto(Replay(logs, lo, hi), tables, cuts, first) && first <= next
    ensures forall i | 0 <= i < |tables| :: tables[i].number < next
    ensures forall n | n in logs && lo <= n < hi :: n < next
    ensures last == MaxSeqno(Replay(logs, lo, hi), last0)
    ensures forall i | 0 <= i < |tables| :: tables[i].size == sizeOf(tables[i].entries)
  {
    hide Replay, Ascending, CutInto;
    ghost var all := Replay(logs, lo, hi);
    NoLogs(logs, lo, first, last0);
    tables, cuts, next, last := [], [0], first, last0;
    for n := lo to hi
      invariant Recovered(Replay(logs, lo, n), |Replay(logs, lo, n)|, tables, cuts, first, next)
      invariant forall m | m in logs && lo <= m < n :: m < next
      invariant last == MaxSeqno(Replay(logs, lo, n), last0)
      invariant forall i | 0 <= i < |tables| :: tables[i].size == sizeOf(tables[i].entries)
    {
      hide Recovered, MaxSeqno;
      ReplayPrefix(logs, lo, n + 1, hi);
      ReplayStep(logs, lo, n);
      var records := if n in logs then logs[n] else [];
      NextLog(Replay(logs, lo, n), records, tables, cuts, first, next, last0, all);
      if n in logs {
        tables, cuts, next, last :=
          RecoverLogFile(records, Replay(logs, lo, n), tables, cuts, first, next, last, full, sizeOf);
        // MarkFileNumberUsed
        if next <= n {
          RaiseNext(Replay(logs, lo, n + 1), tables, cuts, first, next, n + 1);
          next := n + 1;
        }
      }
    }
    assert all[..|all|] == all;
  }

  lemma NoLogs(logs: map<nat, seq<Entry>>, lo: nat, first: nat, last0: nat)
    ensures Replay(logs, lo, lo) == [] && Recovered([], 0, [], [0], first, first)
    ensures MaxSeqno([], last0) == last0
  {
  }

  lemma RaiseNext(all: seq<Entry>, tables: seq<Table>, cuts: seq<nat>, first: nat, lo: nat, hi: nat)
    requires Recovered(all, |all|, tables, cuts, first, lo) && lo <= hi
    ensures Recovered(all, |all|, tables, cuts, first, hi)
  {
  }

  lemma NextLog(before: seq<Entry>, records: seq<Entry>, tables: seq<Table>, cuts: seq<nat>,
                first: nat, next: nat, last0: nat, all: seq<Entry>)
    requires Recovered(before, |before|, tables, cuts, first, next)
    requires before + records <= all && Ascending(all)
    ensures Recovered(before + records, |before|, tables, cuts, first, next)
    ensures Ascending(before + records)
    ensures records == [] ==> before + records == before
    ensures MaxSeqno(before + records, last0) == MaxSeqno(records, MaxSeqno(before, last0))
  {
    MaxSeqnoConcat(before, records, last0);
    assert (before + records)[..|before|] == before[..|before|];
    forall i | 0 <= i < |before + records| ensures (before + records)[i] == all[i] {
    }
  }

  lemma {:induction false} ReplayPrefix(logs: map<nat, seq<Entry>>, lo: nat, mid: nat, hi: nat)
    requires lo <= mid <= hi
    ensures Replay(logs, lo, mid) <= Replay(logs, lo, hi)
  {
    if mid < hi {
      ReplayPrefix(logs, lo, mid, hi - 1);
    }
  }
}
