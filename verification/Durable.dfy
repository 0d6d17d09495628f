/**
 What the store's files hold: the manifest and the logs, byte for byte, lead recovery back to
 the state of the store, whatever step the crash interrupts (db/db_impl, db/version_set).
 */
module Durability {
  import opened Coding
  import opened Entries
  import opened Levels
  import opened Store
  import opened Runs
  import opened Versions
  import opened Builders
  import opened Replays
  import Database
  import Log
  import MemTables
  import B = WriteBatches
  import V = VersionEdits

  // The records of the manifest and of each log, and the table behind each file number.
  datatype Disk = Disk(edits: seq<V.Edit>, logs: map<nat, seq<Bytes>>, tables: nat -> Table)

  // ---------- the logs

  function EntryOf(rank: Rank, x: (nat, B.BatchOp)): Entry {
    Entry(rank(x.1.key), x.0, if x.1.PutOp? then Put(x.1.value) else Delete)
  }

  function EntriesOf(rank: Rank, xs: seq<(nat, B.BatchOp)>): (es: seq<Entry>)
    ensures |es| == |xs|
  {
    seq(|xs|, i requires 0 <= i < |xs| => EntryOf(rank, xs[i]))
  }

  // The records are batches numbered on from first, and their operations are these entries.
  ghost predicate LogHolds(rank: Rank, records: seq<Bytes>, es: seq<Entry>, first: nat) {
    Consecutive(records, first + 1) && EntriesOf(rank, Replayed(records)) == es
  }

  // Record r is the batch of the entries numbered on from start.
  ghost predicate BatchIs(rank: Rank, r: Bytes, es: seq<Entry>, start: nat) {
    IsBatch(r) && B.SequenceOf(r) == start + 1 && EntriesOf(rank, ReplayedRecord(r)) == es
  }

  ghost predicate LogsHold(rank: Rank, logs: map<nat, seq<Bytes>>, s: State) {
    && logs.Keys == s.logs.Keys
    && s.logfile in logs && LogHolds(rank, logs[s.logfile], s.logs[s.logfile], s.memStart)
    && (s.imm.Some? ==> s.logNumber in logs && LogHolds(rank, logs[s.logNumber], s.logs[s.logNumber], s.flushed))
    && (s.pending != [] ==>
          && logs[s.logfile] != []
          && BatchIs(rank, logs[s.logfile][|logs[s.logfile]| - 1], Stamp(s.last, s.pending), s.last))
  }

  lemma {:induction false} ReplayedOps(records: seq<Bytes>, first: nat)
    requires Consecutive(records, first)
    ensures Replayed(records) == B.Numbered(AllOps(records), first)
  {
    hide Consecutive, B.Numbered, AllOps, Replayed;
    ReplayedIsNumbered(records, first, |records|);
    assert records[..|records|] == records;
  }

  lemma NextIsConsecutive(records: seq<Bytes>, r: Bytes, first: nat)
    requires Consecutive(records, first) && IsBatch(r) && B.SequenceOf(r) == first + |AllOps(records)|
    ensures Consecutive(records + [r], first)
  {
    hide OpsOf, B.Records, B.CountOf, B.SequenceOf, AllOps;
    var all := records + [r];
    forall i | 0 <= i < |all| ensures IsBatch(all[i]) && B.SequenceOf(all[i]) == first + |AllOps(all[..i])| {
      assert all[..i] == records[..i];
      assert records[..|records|] == records;
    }
  }

  lemma SomeAreConsecutive(records: seq<Bytes>, k: nat, first: nat)
    requires Consecutive(records, first) && k <= |records|
    ensures Consecutive(records[..k], first)
  {
    hide OpsOf, B.Records, B.CountOf, B.SequenceOf, AllOps;
    forall i | 0 <= i < k ensures IsBatch(records[..k][i]) && B.SequenceOf(records[..k][i]) == first + |AllOps(records[..k][..i])| {
      assert records[..k][..i] == records[..i];
    }
  }

  lemma LogGrows(rank: Rank, records: seq<Bytes>, es: seq<Entry>, first: nat, r: Bytes, more: seq<Entry>)
    requires LogHolds(rank, records, es, first) && BatchIs(rank, r, more, first + |es|)
    ensures LogHolds(rank, records + [r], es + more, first)
  {
    hide IsBatch, OpsOf, Replayed, ReplayedRecord, Consecutive, B.SequenceOf, AllOps, B.Numbered;
    ReplayedSnoc(records, r);
    ReplayedOps(records, first + 1);
    EntriesConcat(rank, Replayed(records), ReplayedRecord(r));
    NextIsConsecutive(records, r, first + 1);
  }

  lemma LogShrinks(rank: Rank, records: seq<Bytes>, es: seq<Entry>, first: nat, more: seq<Entry>)
    requires LogHolds(rank, records, es, first) && records != []
    requires EntriesOf(rank, ReplayedRecord(records[|records| - 1])) == more
    ensures |more| <= |es| && LogHolds(rank, records[..|records| - 1], es[..|es| - |more|], first)
  {
    hide IsBatch, OpsOf, Replayed, ReplayedRecord, Consecutive;
    var init, r := records[..|records| - 1], records[|records| - 1];
    ReplayedSnoc(init, r);
    EntriesConcat(rank, Replayed(init), ReplayedRecord(r));
    SomeAreConsecutive(records, |records| - 1, first + 1);
    assert records == init + [r];
    assert es == EntriesOf(rank, Replayed(init)) + more;
  }

  // ---------- the manifest

  // No edit adds a file under this number.
  ghost predicate Never(les: seq<LevelEdit>, n: nat) {
    forall i, g | 0 <= i < |les| && g in les[i].added :: g.number != n
  }

  // The bytes are an internal key of the entry.
  ghost predicate KeyStands(rank: Rank, b: Bytes, e: Entry) {
    var k := MemTables.ParseInternalKey(b);
    k.Some? && MemTables.IKeyFor(rank, k.value) == InternalKey(e)
  }

  // What an edit says of a file is what its table is.
  ghost predicate MetaIs(rank: Rank, m: V.FileMeta, f: Table) {
    && m.number == f.number && m.size == f.size
    && KeyStands(rank, m.smallest, f.Smallest()) && KeyStands(rank, m.largest, f.Largest())
  }

  // Every number an edit adds is below next and names its table.
  ghost predicate Named(edits: seq<V.Edit>, tables: nat -> Table, next: nat) {
    forall i, p | 0 <= i < |edits| && p in edits[i].added ::
      p.1.number < next && tables(p.1.number).number == p.1.number
  }

  ghost predicate Described(rank: Rank, edits: seq<V.Edit>, tables: nat -> Table) {
    forall i, p | 0 <= i < |edits| && p in edits[i].added :: MetaIs(rank, p.1, tables(p.1.number))
  }

  ghost predicate Commits(e: V.Edit, log: nat, next: nat, last: nat) {
    && e.logNumber == Some(log) && e.prevLogNumber == Some(0)
    && e.nextFile == Some(next) && e.lastSequence == Some(last)
  }

  // The edits lead to one level's files, each added once and never below where it is.
  ghost predicate LevelHolds(edits: seq<V.Edit>, tables: nat -> Table, levels: seq<set<Table>>, l: nat)
    requires l < |levels|
  {
    var les := LevelEdits(edits, l, tables);
    && SavedEach({}, les) == levels[l]
    && AddedOnce({}, les)
    && forall k, f | 0 <= k < l && f in levels[k] :: Never(les, f.number)
  }

  ghost predicate ManifestHolds(d: Disk, s: State) {
    && |s.levels| == NUM_LEVELS
    && IsManifest(d.edits) && |d.edits| >= 2
    && Commits(d.edits[|d.edits| - 1], s.logNumber, s.manifestNext, s.manifestLast)
    && Named(d.edits, d.tables, s.manifestNext)
    && forall l | 0 <= l < NUM_LEVELS :: LevelHolds(d.edits, d.tables, s.levels, l)
  }

  ghost predicate OnDisk(rank: Rank, d: Disk, s: State) {
    ManifestHolds(d, s) && LogsHold(rank, d.logs, s) && Described(rank, d.edits, d.tables)
  }

  // ---------- what a step writes

  ghost function Gone(a: Action, l: nat): set<Table> {
    match a
    case TrivialMove(from, file) => if l == from then {file} else {}
    case Merge(c, _, _) => if l == c.level then c.in0 else if l == c.level + 1 then c.in1 else {}
    case _ => {}
  }

  ghost function Added(a: Action, l: nat): set<Table> {
    match a
    case Flush(level, table) => if l == level && table.Some? then {table.value} else {}
    case TrivialMove(from, file) => if l == from + 1 then {file} else {}
    case Merge(c, outs, _) => if l == c.level + 1 then outs else {}
    case Recover(_, tables, _, _) => if l == 0 then FileSet(tables) else {}
    case _ => {}
  }

  // The edit takes the numbers of some files of a level out and puts files in.
  ghost predicate Changes(x: LevelEdit, gone: set<Table>, added: set<Table>) {
    && (forall n :: n in x.deleted <==> exists f :: f in gone && f.number == n)
    && FileSet(x.added) == added
  }

  // The edit of a step, as LogAndApply completes it.
  ghost predicate EditOf(e: V.Edit, a: Action, t: State, tables: nat -> Table) {
    && Commits(e, t.logNumber, t.manifestNext, t.manifestLast)
    && (forall l | 0 <= l < NUM_LEVELS :: Changes(LevelEditOf(e, l, tables), Gone(a, l), Added(a, l)))
    && Named([e], tables, t.manifestNext)
  }

  // WriteSnapshot's record of the current files.
  ghost predicate SnapshotOf(e: V.Edit, s: State, tables: nat -> Table) {
    && IsSnapshot(e) && |s.levels| == NUM_LEVELS
    && (forall l | 0 <= l < NUM_LEVELS :: FileSet(LevelEditOf(e, l, tables).added) == s.levels[l])
    && Named([e], tables, s.manifestNext)
  }

  // Files on disk are not written again.
  ghost predicate SameTables(was: nat -> Table, now: nat -> Table, next: nat) {
    forall n | 0 <= n < next :: was(n) == now(n)
  }

  // The log records wholly there after a crash.
  function SurvivingRecords(d: Disk, s: State, torn: bool): map<nat, seq<Bytes>> {
    if torn && s.pending != [] && s.logfile in d.logs && d.logs[s.logfile] != [] then
      d.logs[s.logfile := d.logs[s.logfile][..|d.logs[s.logfile]| - 1]]
    else d.logs
  }

  // What a step leaves on disk.
  ghost predicate Writes(rank: Rank, d: Disk, s: State, a: Action, d': Disk)
    requires Allowed(s, a)
  {
    var t := After(s, a);
    match a
    case Append(batch) =>
      && d'.edits == d.edits && d'.tables == d.tables && s.logfile in d.logs
      && exists r :: BatchIs(rank, r, Stamp(s.last, batch), s.last) && d'.logs == d.logs[s.logfile := d.logs[s.logfile] + [r]]
    case SwitchMemTable => d' == d.(logs := d.logs[s.nextFile := []])
    case DeleteObsoleteLogs => d' == d.(logs := map n | n in d.logs && n >= s.logNumber :: d.logs[n])
    case Recover(torn, _, _, log) =>
      && |d'.edits| == 2 && SameTables(d.tables, d'.tables, s.manifestNext)
      && SnapshotOf(d'.edits[0], s, d'.tables) && EditOf(d'.edits[1], a, t, d'.tables)
      && Described(rank, d'.edits, d'.tables)
      && d'.logs == SurvivingRecords(d, s, torn)[log := []]
    case Flush(_, _) => Recorded(rank, d, s, a, t, d')
    case TrivialMove(_, _) => Recorded(rank, d, s, a, t, d')
    case Merge(_, _, _) => Recorded(rank, d, s, a, t, d')
    case _ => d' == d
  }

  // One more edit, for a step that only changes the levels.
  ghost predicate Recorded(rank: Rank, d: Disk, s: State, a: Action, t: State, d': Disk) {
    && SameTables(d.tables, d'.tables, s.manifestNext) && d'.logs == d.logs
    && exists e :: EditOf(e, a, t, d'.tables) && Described(rank, [e], d'.tables) && d'.edits == d.edits + [e]
  }

  // A new database whose first manifest record is behind its snapshot.
  ghost predicate InitialDisk(d: Disk) {
    && |d.edits| == 2 && d.logs == map[3 := []]
    && IsSnapshot(d.edits[0]) && d.edits[0].added == []
    && Commits(d.edits[1], 3, 4, 0) && d.edits[1].added == [] && d.edits[1].deleted == []
  }

  // ---------- the logs after a step

  lemma StepKeepsLogs(rank: Rank, d: Disk, s: State, a: Action, d': Disk)
    requires Inv(s) && Allowed(s, a) && LogsHold(rank, d.logs, s) && Writes(rank, d, s, a, d')
    ensures LogsHold(rank, d'.logs, After(s, a))
  {
    hide LevelsInv, Numbered, SnapshotInv, EditOf, SnapshotOf, LogHolds, BatchIs, SameTables, Described, Stamp, Span, SpanSeq;
    match a
    case Append(batch) =>
      AppendKeepsLogs(rank, d, s, batch, d');
    case SwitchMemTable =>
      SwitchKeepsLogs(rank, d, s, d');
    case Recover(_, _, _, _) =>
      RecoverKeepsLogs(rank, d, s, a, d');
    case _ =>
  }

  lemma NothingLogged(rank: Rank, first: nat)
    ensures LogHolds(rank, [], [], first)
  {
  }

  lemma AppendKeepsLogs(rank: Rank, d: Disk, s: State, batch: seq<Write>, d': Disk)
    requires Inv(s) && Allowed(s, Append(batch)) && LogsHold(rank, d.logs, s) && Writes(rank, d, s, Append(batch), d')
    ensures LogsHold(rank, d'.logs, After(s, Append(batch)))
  {
    hide LevelsInv, Numbered, SnapshotInv, LogHolds, BatchIs, Stamp;
    var r :| BatchIs(rank, r, Stamp(s.last, batch), s.last) && d'.logs == d.logs[s.logfile := d.logs[s.logfile] + [r]];
    assert s.hist + s.pending == s.hist;
    LogGrows(rank, d.logs[s.logfile], s.logs[s.logfile], s.memStart, r, Stamp(s.last, batch));
    LastRecord(rank, d.logs[s.logfile], r);
  }

  lemma LastRecord(rank: Rank, records: seq<Bytes>, r: Bytes)
    ensures var all := records + [r]; all != [] && all[|all| - 1] == r
  {
  }

  lemma SwitchKeepsLogs(rank: Rank, d: Disk, s: State, d': Disk)
    requires Inv(s) && Allowed(s, SwitchMemTable) && LogsHold(rank, d.logs, s) && Writes(rank, d, s, SwitchMemTable, d')
    ensures LogsHold(rank, d'.logs, After(s, SwitchMemTable))
  {
    hide LevelsInv, Numbered, SnapshotInv, LogHolds, BatchIs, Span, SpanSeq;
    NothingLogged(rank, |s.hist|);
  }

  lemma RecoverKeepsLogs(rank: Rank, d: Disk, s: State, a: Action, d': Disk)
    requires Inv(s) && a.Recover? && Allowed(s, a) && LogsHold(rank, d.logs, s) && Writes(rank, d, s, a, d')
    ensures LogsHold(rank, d'.logs, After(s, a))
  {
    hide LevelsInv, Numbered, SnapshotInv, LogHolds, BatchIs, Span, SpanSeq, SurvivingRecords, SurvivingLogs, EditOf, SnapshotOf;
    hide Described, SameTables, CutInto, Replay, MaxSeqno, AddTables;
    NothingLogged(rank, |After(s, a).hist|);
    SurvivorsHold(rank, d, s, a.torn);
  }

  lemma SurvivorsHold(rank: Rank, d: Disk, s: State, torn: bool)
    requires LogsHold(rank, d.logs, s) && s.logfile in s.logs
    ensures var records, es := SurvivingRecords(d, s, torn), SurvivingLogs(s, torn);
            && records.Keys == es.Keys == d.logs.Keys
            && LogHolds(rank, records[s.logfile], es[s.logfile], s.memStart)
            && (s.imm.Some? && s.logNumber != s.logfile ==> LogHolds(rank, records[s.logNumber], es[s.logNumber], s.flushed))
  {
    hide LogHolds, BatchIs, SurvivingLogs, Stamp, ReplayedRecord, EntriesOf;
    if !torn || s.pending == [] {
      AllSurvive(s, torn);
    } else {
      PendingIsLast(rank, d, s);
      LogShrinks(rank, d.logs[s.logfile], s.logs[s.logfile], s.memStart, Stamp(s.last, s.pending));
      SomeSurvive(s);
    }
  }

  lemma PendingIsLast(rank: Rank, d: Disk, s: State)
    requires LogsHold(rank, d.logs, s) && s.pending != []
    ensures d.logs[s.logfile] != []
    ensures EntriesOf(rank, ReplayedRecord(d.logs[s.logfile][|d.logs[s.logfile]| - 1])) == Stamp(s.last, s.pending)
  {
    hide LogHolds, IsBatch, ReplayedRecord, Stamp, EntriesOf;
  }

  lemma AllSurvive(s: State, torn: bool)
    requires s.logfile in s.logs && (!torn || s.pending == [])
    ensures SurvivingLogs(s, torn) == s.logs
  {
    assert s.logs[s.logfile][..|s.logs[s.logfile]|] == s.logs[s.logfile];
  }

  lemma SomeSurvive(s: State)
    requires s.logfile in s.logs && |s.pending| <= |s.logs[s.logfile]|
    ensures SurvivingLogs(s, true) == s.logs[s.logfile := s.logs[s.logfile][..|s.logs[s.logfile]| - |s.pending|]]
  {
  }

  // ---------- the manifest after a step

  lemma {:induction false} TableIsNamed(added: seq<(nat, V.FileMeta)>, level: nat, tables: nat -> Table, g: Table)
    ensures g in TablesAt(added, level, tables) <==> exists p :: p in added && p.0 == level && tables(p.1.number) == g
  {
    if added != [] {
      TableIsNamed(added[..|added| - 1], level, tables, g);
      var last := added[|added| - 1];
      assert added == added[..|added| - 1] + [last];
    }
  }

  lemma {:induction false} SameTablesAt(added: seq<(nat, V.FileMeta)>, level: nat, was: nat -> Table, now: nat -> Table)
    requires forall p | p in added :: was(p.1.number) == now(p.1.number)
    ensures TablesAt(added, level, was) == TablesAt(added, level, now)
  {
    if added != [] {
      SameTablesAt(added[..|added| - 1], level, was, now);
    }
  }

  // Edits mean the same once more tables are there.
  lemma SameLevelEdits(edits: seq<V.Edit>, level: nat, was: nat -> Table, now: nat -> Table, next: nat)
    requires Named(edits, was, next) && SameTables(was, now, next)
    ensures LevelEdits(edits, level, was) == LevelEdits(edits, level, now)
    ensures Named(edits, now, next)
  {
    forall i | 0 <= i < |edits| ensures LevelEdits(edits, level, was)[i] == LevelEdits(edits, level, now)[i] {
      forall p | p in edits[i].added ensures was(p.1.number) == now(p.1.number) {
      }
      SameTablesAt(edits[i].added, level, was, now);
    }
  }

  lemma AddedIsNamed(edits: seq<V.Edit>, level: nat, tables: nat -> Table, next: nat, n: nat)
    requires Named(edits, tables, next) && n >= next
    ensures Never(LevelEdits(edits, level, tables), n)
  {
    forall i, g | 0 <= i < |edits| && g in LevelEdits(edits, level, tables)[i].added ensures g.number != n {
      TableIsNamed(edits[i].added, level, tables, g);
    }
  }

  // A level's change takes out files of the level, and puts in files whose numbers no edit
  // ever added there.
  ghost predicate Sound(les: seq<LevelEdit>, base: set<Table>, gone: set<Table>, added: set<Table>) {
    && gone <= base
    && (forall f, g | f in base && g in base && f.number == g.number :: f == g)
    && (forall f, g | f in base && g in added :: f.number != g.number)
    && forall g | g in added :: Never(les, g.number)
  }

  lemma SavedChange(base: set<Table>, x: LevelEdit, gone: set<Table>, added: set<Table>)
    requires gone <= base && Changes(x, gone, added)
    requires forall f, g | f in base && g in base && f.number == g.number :: f == g
    requires forall f, g | f in base && g in added :: f.number != g.number
    ensures Saved(base, Edited(FRESH, x)) == base - gone + added
  {
    forall f | f in base ensures f.number in x.deleted <==> f in gone {
    }
    forall f | f in x.added ensures f in FileSet(x.added) && f.number in Numbers(x.added) {
    }
    forall f | f in base ensures f.number !in Numbers(x.added) {
      forall g | g in x.added ensures g.number != f.number {
        assert g in FileSet(x.added);
      }
    }
  }

  lemma SavedEachSnoc(base: set<Table>, les: seq<LevelEdit>, x: LevelEdit)
    ensures SavedEach(base, les + [x]) == Saved(SavedEach(base, les), Edited(FRESH, x))
  {
    assert (les + [x])[..|les|] == les;
  }

  lemma AddedOnceSnoc(les: seq<LevelEdit>, x: LevelEdit, added: set<Table>)
    requires AddedOnce({}, les) && FileSet(x.added) == added && forall g | g in added :: Never(les, g.number)
    ensures AddedOnce({}, les + [x])
  {
    var all := les + [x];
    forall i, j, f, g | 0 <= i < j < |all| && f in all[i].added && g in all[j].added ensures f.number != g.number {
      if j == |les| {
        assert g in FileSet(x.added);
      }
    }
  }

  lemma LevelAfter(les: seq<LevelEdit>, base: set<Table>, x: LevelEdit, gone: set<Table>, added: set<Table>)
    requires SavedEach({}, les) == base && AddedOnce({}, les)
    requires Sound(les, base, gone, added) && Changes(x, gone, added)
    ensures SavedEach({}, les + [x]) == base - gone + added
    ensures AddedOnce({}, les + [x])
  {
    hide SavedEach, AddedOnce, Saved, Edited, Never;
    SavedEachSnoc({}, les, x);
    SavedChange(base, x, gone, added);
    AddedOnceSnoc(les, x, added);
  }

  lemma NeverAfter(les: seq<LevelEdit>, x: LevelEdit, added: set<Table>, n: nat)
    requires Never(les, n) && FileSet(x.added) == added && forall g | g in added :: g.number != n
    ensures Never(les + [x], n)
  {
    var all := les + [x];
    forall i, g | 0 <= i < |all| && g in all[i].added ensures g.number != n {
      if i == |les| {
        assert g in FileSet(x.added);
      }
    }
  }

  // Edits that hold the levels, with every number below next.
  ghost predicate LevelsHold(edits: seq<V.Edit>, tables: nat -> Table, levels: seq<set<Table>>, next: nat) {
    && |levels| == NUM_LEVELS && Named(edits, tables, next)
    && forall l | 0 <= l < NUM_LEVELS :: LevelHolds(edits, tables, levels, l)
  }

  // A step whose changes are sound at every level, and keep files from coming back below.
  ghost predicate Fits(edits: seq<V.Edit>, tables: nat -> Table, levels: seq<set<Table>>, a: Action) {
    && |levels| == NUM_LEVELS
    && (forall l | 0 <= l < NUM_LEVELS :: Sound(LevelEdits(edits, l, tables), levels[l], Gone(a, l), Added(a, l)))
    && forall k, l, f | 0 <= k < l < NUM_LEVELS && f in levels[k] - Gone(a, k) + Added(a, k) ::
         Never(LevelEdits(edits, l, tables), f.number) && forall g | g in Added(a, l) :: g.number != f.number
  }

  ghost predicate LevelsAfter(levels: seq<set<Table>>, a: Action, after: seq<set<Table>>) {
    && |levels| == |after| == NUM_LEVELS
    && forall l | 0 <= l < NUM_LEVELS :: after[l] == levels[l] - Gone(a, l) + Added(a, l)
  }

  lemma LevelEditsSnoc(edits: seq<V.Edit>, e: V.Edit, l: nat, tables: nat -> Table)
    ensures LevelEdits(edits + [e], l, tables) == LevelEdits(edits, l, tables) + [LevelEditOf(e, l, tables)]
  {
    hide LevelEditOf;
  }

  lemma EditKeepsLevel(edits: seq<V.Edit>, tables: nat -> Table, levels: seq<set<Table>>, a: Action, e: V.Edit,
                       after: seq<set<Table>>, l: nat)
    requires l < NUM_LEVELS == |levels| && LevelHolds(edits, tables, levels, l)
    requires Fits(edits, tables, levels, a) && LevelsAfter(levels, a, after)
    requires Changes(LevelEditOf(e, l, tables), Gone(a, l), Added(a, l))
    ensures LevelHolds(edits + [e], tables, after, l)
  {
    hide Gone, Added, Changes, Never, SavedEach, AddedOnce, LevelEdits, LevelEditOf, Sound;
    var les, x := LevelEdits(edits, l, tables), LevelEditOf(e, l, tables);
    LevelEditsSnoc(edits, e, l, tables);
    LevelAfter(les, levels[l], x, Gone(a, l), Added(a, l));
    ChangesAdd(x, Gone(a, l), Added(a, l));
    forall k, f | 0 <= k < l && f in after[k] ensures Never(les + [x], f.number) {
      NeverAfter(les, x, Added(a, l), f.number);
    }
  }

  lemma ChangesAdd(x: LevelEdit, gone: set<Table>, added: set<Table>)
    requires Changes(x, gone, added)
    ensures FileSet(x.added) == added
  {
  }

  lemma EditKeepsLevels(edits: seq<V.Edit>, tables: nat -> Table, s: State, a: Action, e: V.Edit, t: State)
    requires LevelsHold(edits, tables, s.levels, s.manifestNext) && s.manifestNext <= t.manifestNext
    requires Fits(edits, tables, s.levels, a) && LevelsAfter(s.levels, a, t.levels) && EditOf(e, a, t, tables)
    ensures LevelsHold(edits + [e], tables, t.levels, t.manifestNext)
  {
    hide Fits, Changes, LevelHolds, LevelsAfter;
    assert |t.levels| == NUM_LEVELS by {
      HasAfter(s.levels, a, t.levels);
    }
    forall l | 0 <= l < NUM_LEVELS ensures LevelHolds(edits + [e], tables, t.levels, l) {
      EditKeepsLevel(edits, tables, s.levels, a, e, t.levels, l);
    }
    forall i, p | 0 <= i < |edits + [e]| && p in (edits + [e])[i].added
      ensures p.1.number < t.manifestNext && tables(p.1.number).number == p.1.number {
      if i == |edits| {
        assert p in [e][0].added;
      }
    }
  }

  lemma HasAfter(levels: seq<set<Table>>, a: Action, after: seq<set<Table>>)
    requires LevelsAfter(levels, a, after)
    ensures |after| == NUM_LEVELS
  {
  }

  // ---------- each kind of step

  lemma StepChangesLevels(s: State, a: Action)
    requires Inv(s) && Allowed(s, a) && (a.Flush? || a.TrivialMove? || a.Merge? || a.Recover?)
    ensures LevelsAfter(s.levels, a, After(s, a).levels)
    ensures s.manifestNext <= After(s, a).manifestNext
  {
    hide Inv, Numbered, Outside, Cuts, CutInto, PairwiseBefore, Fresh, Survivors, Replay, MaxSeqno, LevelsAfter;
    BaseNumbers(s);
    match a
    case Flush(level, table) => AddsTable(s, level, table);
    case TrivialMove(from, file) => MovesDown(s, from, file);
    case Merge(c, outs, next) => MergesDown(s, c, outs, next);
    case Recover(torn, tables, cuts, log) => AddsTables(s, a);
  }

  lemma AddsTable(s: State, level: nat, table: Option<Table>)
    requires |s.levels| == NUM_LEVELS && Allowed(s, Flush(level, table))
    ensures LevelsAfter(s.levels, Flush(level, table), After(s, Flush(level, table)).levels)
  {
  }

  lemma MergesDown(s: State, c: Compaction, outs: set<Table>, next: nat)
    requires |s.levels| == NUM_LEVELS && Allowed(s, Merge(c, outs, next))
    ensures LevelsAfter(s.levels, Merge(c, outs, next), After(s, Merge(c, outs, next)).levels)
  {
    hide Outside, Cuts, PairwiseBefore, Fresh, Survivors, Compacted;
    CompactedAt(s.levels, c, outs);
  }

  lemma AddsTables(s: State, a: Action)
    requires |s.levels| == NUM_LEVELS && a.Recover? && Allowed(s, a)
    ensures LevelsAfter(s.levels, a, After(s, a).levels)
  {
    hide CutInto, Replay, MaxSeqno, SurvivingLogs, AddTables;
    TablesAtZero(s.levels, a.tables);
  }

  lemma MovesDown(s: State, from: nat, file: Table)
    requires |s.levels| == NUM_LEVELS && Allowed(s, TrivialMove(from, file))
    ensures LevelsAfter(s.levels, TrivialMove(from, file), After(s, TrivialMove(from, file)).levels)
  {
    CompactedAt(s.levels, Move(from, file), {file});
  }

  lemma BaseNumbers(s: State)
    requires Inv(s)
    ensures |s.levels| == NUM_LEVELS && Numbered(s.levels, s.manifestNext) && s.manifestNext <= s.nextFile
  {
  }

  // New files take numbers no manifest record has seen.
  ghost predicate AddsFresh(a: Action, next: nat) {
    && (forall l, g | 0 <= l < NUM_LEVELS && g in Added(a, l) :: g.number >= next)
    && forall k, l | 0 <= k < l < NUM_LEVELS :: Added(a, k) == {} || Added(a, l) == {}
  }

  lemma StepAddsFresh(s: State, a: Action)
    requires Inv(s) && Allowed(s, a) && (a.Flush? || a.Merge? || a.Recover?)
    ensures AddsFresh(a, s.manifestNext)
    ensures forall l | 0 <= l < NUM_LEVELS :: l < |s.levels| && Gone(a, l) <= s.levels[l]
  {
    hide Inv, Cuts, PairwiseBefore, Survivors, Replay, Numbered, Outside;
    BaseNumbers(s);
    if a.Recover? {
      forall g | g in FileSet(a.tables) ensures g.number >= s.manifestNext {
        var i :| 0 <= i < |a.tables| && a.tables[i] == g;
      }
    }
  }

  lemma FreshIsSound(edits: seq<V.Edit>, tables: nat -> Table, levels: seq<set<Table>>, a: Action, next: nat, l: nat)
    requires l < NUM_LEVELS == |levels| && Gone(a, l) <= levels[l] && AddsFresh(a, next)
    requires Numbered(levels, next) && Named(edits, tables, next)
    ensures Sound(LevelEdits(edits, l, tables), levels[l], Gone(a, l), Added(a, l))
  {
    hide Gone, Added, LevelEdits, Never, Named;
    forall g | g in Added(a, l) ensures Never(LevelEdits(edits, l, tables), g.number) {
      AddedIsNamed(edits, l, tables, next, g.number);
    }
  }

  // f stays in a level above l, or comes to it.
  ghost predicate NotBelow(edits: seq<V.Edit>, tables: nat -> Table, a: Action, l: nat, f: Table) {
    Never(LevelEdits(edits, l, tables), f.number) && forall g | g in Added(a, l) :: g.number != f.number
  }

  lemma FitsBy(edits: seq<V.Edit>, tables: nat -> Table, levels: seq<set<Table>>, a: Action)
    requires |levels| == NUM_LEVELS
    requires forall l | 0 <= l < NUM_LEVELS :: Sound(LevelEdits(edits, l, tables), levels[l], Gone(a, l), Added(a, l))
    requires forall k, l, f | 0 <= k < l < NUM_LEVELS && f in levels[k] - Gone(a, k) + Added(a, k) :: NotBelow(edits, tables, a, l, f)
    ensures Fits(edits, tables, levels, a)
  {
    hide Gone, Added, LevelEdits, Never, Sound;
    forall k, l, f | 0 <= k < l < NUM_LEVELS && f in levels[k] - Gone(a, k) + Added(a, k)
      ensures Never(LevelEdits(edits, l, tables), f.number) && forall g | g in Added(a, l) :: g.number != f.number {
      assert NotBelow(edits, tables, a, l, f);
    }
  }

  lemma StaysAboveEdits(edits: seq<V.Edit>, tables: nat -> Table, levels: seq<set<Table>>, next: nat, k: nat, l: nat, f: Table)
    requires LevelsHold(edits, tables, levels, next) && k < l < NUM_LEVELS && f in levels[k]
    ensures Never(LevelEdits(edits, l, tables), f.number)
  {
    hide LevelEdits, Never, Named, SavedEach, AddedOnce;
    assert LevelHolds(edits, tables, levels, l);
  }

  lemma FreshNotBelow(edits: seq<V.Edit>, tables: nat -> Table, levels: seq<set<Table>>, next: nat, a: Action, k: nat, l: nat, f: Table)
    requires LevelsHold(edits, tables, levels, next) && Numbered(levels, next) && AddsFresh(a, next)
    requires k < l < NUM_LEVELS && f in levels[k] - Gone(a, k) + Added(a, k)
    ensures NotBelow(edits, tables, a, l, f)
  {
    hide Gone, Added, LevelEdits, Never, Named, LevelHolds;
    if f in Added(a, k) {
      AddedIsNamed(edits, l, tables, next, f.number);
    } else {
      StaysAboveEdits(edits, tables, levels, next, k, l, f);
    }
  }

  lemma FreshFits(edits: seq<V.Edit>, tables: nat -> Table, s: State, a: Action)
    requires Inv(s) && Allowed(s, a) && (a.Flush? || a.Merge? || a.Recover?)
    requires LevelsHold(edits, tables, s.levels, s.manifestNext)
    ensures Fits(edits, tables, s.levels, a)
  {
    hide Inv, Allowed, Gone, Added, LevelEdits, Sound, Named, NotBelow, LevelHolds, AddsFresh, Fits;
    BaseNumbers(s);
    StepAddsFresh(s, a);
    forall l | 0 <= l < NUM_LEVELS
      ensures Sound(LevelEdits(edits, l, tables), s.levels[l], Gone(a, l), Added(a, l)) {
      FreshIsSound(edits, tables, s.levels, a, s.manifestNext, l);
    }
    forall k, l, f | 0 <= k < l < NUM_LEVELS && f in s.levels[k] - Gone(a, k) + Added(a, k)
      ensures NotBelow(edits, tables, a, l, f) {
      FreshNotBelow(edits, tables, s.levels, s.manifestNext, a, k, l, f);
    }
    FitsBy(edits, tables, s.levels, a);
  }

  lemma MoveIsSound(edits: seq<V.Edit>, tables: nat -> Table, levels: seq<set<Table>>, next: nat, from: nat, file: Table, l: nat)
    requires LevelsHold(edits, tables, levels, next) && Numbered(levels, next)
    requires from + 1 < NUM_LEVELS && file in levels[from] && l < NUM_LEVELS
    ensures var a := TrivialMove(from, file);
            Sound(LevelEdits(edits, l, tables), levels[l], Gone(a, l), Added(a, l))
  {
    hide LevelEdits, Never, Named, LevelHolds;
    if l == from + 1 {
      StaysAboveEdits(edits, tables, levels, next, from, l, file);
    }
  }

  lemma MoveNotBelow(edits: seq<V.Edit>, tables: nat -> Table, levels: seq<set<Table>>, next: nat, from: nat, file: Table,
                     k: nat, l: nat, f: Table)
    requires LevelsHold(edits, tables, levels, next) && Numbered(levels, next)
    requires from + 1 < NUM_LEVELS && file in levels[from] && k < l < NUM_LEVELS
    requires var a := TrivialMove(from, file); f in levels[k] - Gone(a, k) + Added(a, k)
    ensures NotBelow(edits, tables, TrivialMove(from, file), l, f)
  {
    hide LevelEdits, Never, Named, LevelHolds;
    if f == file && k == from + 1 {
      StaysAboveEdits(edits, tables, levels, next, from, l, f);
    } else {
      StaysAboveEdits(edits, tables, levels, next, k, l, f);
    }
  }

  lemma MoveFits(edits: seq<V.Edit>, tables: nat -> Table, s: State, from: nat, file: Table)
    requires Inv(s) && Allowed(s, TrivialMove(from, file))
    requires LevelsHold(edits, tables, s.levels, s.manifestNext)
    ensures Fits(edits, tables, s.levels, TrivialMove(from, file))
  {
    hide Inv, LevelEdits, Gone, Added, Outside, Named, LevelHolds, Sound, NotBelow, Fits;
    BaseNumbers(s);
    var a := TrivialMove(from, file);
    assert file in s.levels[from];
    forall l | 0 <= l < NUM_LEVELS
      ensures Sound(LevelEdits(edits, l, tables), s.levels[l], Gone(a, l), Added(a, l)) {
      MoveIsSound(edits, tables, s.levels, s.manifestNext, from, file, l);
    }
    forall k, l, f | 0 <= k < l < NUM_LEVELS && f in s.levels[k] - Gone(a, k) + Added(a, k)
      ensures NotBelow(edits, tables, a, l, f) {
      MoveNotBelow(edits, tables, s.levels, s.manifestNext, from, file, k, l, f);
    }
    FitsBy(edits, tables, s.levels, a);
  }

  lemma RecordKeepsManifest(rank: Rank, d: Disk, s: State, a: Action, d': Disk)
    requires Inv(s) && Allowed(s, a) && (a.Flush? || a.TrivialMove? || a.Merge?)
    requires ManifestHolds(d, s) && Recorded(rank, d, s, a, After(s, a), d')
    ensures ManifestHolds(d', After(s, a))
  {
    hide Inv, Allowed, After, LevelHolds, EditOf, LevelsAfter, Fits, Named, SameTables, IsSnapshot, IsNewDb;
    var e :| EditOf(e, a, After(s, a), d'.tables) && d'.edits == d.edits + [e];
    TablesGrow(d.edits, s.levels, d.tables, d'.tables, s.manifestNext);
    StepChangesLevels(s, a);
    if a.TrivialMove? {
      MoveFits(d.edits, d'.tables, s, a.from, a.file);
    } else {
      FreshFits(d.edits, d'.tables, s, a);
    }
    EditKeepsLevels(d.edits, d'.tables, s, a, e, After(s, a));
    EditCommits(e, a, After(s, a), d'.tables);
  }

  lemma EditCommits(e: V.Edit, a: Action, t: State, tables: nat -> Table)
    requires EditOf(e, a, t, tables)
    ensures Replays.Complete(e) && Commits(e, t.logNumber, t.manifestNext, t.manifestLast)
  {
  }

  lemma TablesGrow(edits: seq<V.Edit>, levels: seq<set<Table>>, was: nat -> Table, now: nat -> Table, next: nat)
    requires LevelsHold(edits, was, levels, next) && SameTables(was, now, next)
    ensures LevelsHold(edits, now, levels, next)
  {
    hide SameTables, Named, LevelEdits;
    SameLevelEdits(edits, 0, was, now, next);
    forall l | 0 <= l < NUM_LEVELS ensures LevelHolds(edits, now, levels, l) {
      SameLevelEdits(edits, l, was, now, next);
      assert LevelHolds(edits, was, levels, l);
    }
  }

  // The snapshot a new manifest starts with.
  lemma SnapshotHolds(e: V.Edit, s: State, tables: nat -> Table)
    requires Numbered(s.levels, s.manifestNext) && SnapshotOf(e, s, tables)
    ensures LevelsHold([e], tables, s.levels, s.manifestNext)
  {
    hide LevelEditOf;
    forall l | 0 <= l < NUM_LEVELS ensures LevelHolds([e], tables, s.levels, l) {
      SnapshotLevel(e, s, tables, l);
    }
  }

  lemma SnapshotLevel(e: V.Edit, s: State, tables: nat -> Table, l: nat)
    requires Numbered(s.levels, s.manifestNext) && SnapshotOf(e, s, tables) && l < NUM_LEVELS
    ensures LevelHolds([e], tables, s.levels, l)
  {
    var x := LevelEditOf(e, l, tables);
    assert x.deleted == {};
    hide LevelEditOf;
    assert LevelEdits([e], l, tables) == [] + [x];
    SavedEachSnoc({}, [], x);
    assert Saved({}, Edited(FRESH, x)) == FileSet(x.added);
    forall k, f | 0 <= k < l && f in s.levels[k] ensures Never([x], f.number) {
      forall g | g in x.added ensures g.number != f.number {
        assert g in FileSet(x.added);
      }
    }
  }

  lemma RecoverKeepsManifest(rank: Rank, d: Disk, s: State, a: Action, d': Disk)
    requires Inv(s) && a.Recover? && Allowed(s, a) && Writes(rank, d, s, a, d')
    ensures ManifestHolds(d', After(s, a))
  {
    hide Inv, Allowed, After, Numbered, LevelHolds, EditOf, LevelsAfter, Fits, Named, SameTables, IsNewDb, SurvivingRecords;
    BaseNumbers(s);
    var first, e := d'.edits[0], d'.edits[1];
    SnapshotHolds(first, s, d'.tables);
    StepChangesLevels(s, a);
    FreshFits([first], d'.tables, s, a);
    EditKeepsLevels([first], d'.tables, s, a, e, After(s, a));
    EditCommits(e, a, After(s, a), d'.tables);
    assert d'.edits == [first] + [e];
  }

  lemma StepDescribes(rank: Rank, d: Disk, s: State, a: Action, d': Disk)
    requires Allowed(s, a) && ManifestHolds(d, s) && Described(rank, d.edits, d.tables) && Writes(rank, d, s, a, d')
    ensures Described(rank, d'.edits, d'.tables)
  {
    hide MetaIs, LevelHolds, EditOf, SnapshotOf, BatchIs;
    if a.Flush? || a.TrivialMove? || a.Merge? {
      var e :| Described(rank, [e], d'.tables) && d'.edits == d.edits + [e];
      forall i, p | 0 <= i < |d'.edits| && p in d'.edits[i].added ensures MetaIs(rank, p.1, d'.tables(p.1.number)) {
        if i < |d.edits| {
          assert p in d.edits[i].added;
        } else {
          assert p in [e][0].added;
        }
      }
    }
  }

  // Every step leaves on disk what the state after it needs.
  lemma StepKeepsDisk(rank: Rank, d: Disk, s: State, a: Action, d': Disk)
    requires Inv(s) && Allowed(s, a) && OnDisk(rank, d, s) && Writes(rank, d, s, a, d')
    ensures OnDisk(rank, d', After(s, a))
  {
    hide Inv, ManifestHolds, LogsHold, Described;
    StepKeepsLogs(rank, d, s, a, d');
    StepDescribes(rank, d, s, a, d');
    match a
    case Flush(_, _) => RecordKeepsManifest(rank, d, s, a, d');
    case TrivialMove(_, _) => RecordKeepsManifest(rank, d, s, a, d');
    case Merge(_, _, _) => RecordKeepsManifest(rank, d, s, a, d');
    case Recover(_, _, _, _) => RecoverKeepsManifest(rank, d, s, a, d');
    case _ => OtherKeepsManifest(d, s, d', After(s, a));
  }

  lemma OtherKeepsManifest(d: Disk, s: State, d': Disk, t: State)
    requires ManifestHolds(d, s) && d'.edits == d.edits && d'.tables == d.tables
    requires t.levels == s.levels && t.logNumber == s.logNumber
    requires t.manifestNext == s.manifestNext && t.manifestLast == s.manifestLast
    ensures ManifestHolds(d', t)
  {
  }

  lemma InitialOnDisk(rank: Rank, d: Disk, target: nat)
    requires InitialDisk(d)
    ensures OnDisk(rank, d, Initial(target))
  {
    hide LevelHolds, LogHolds;
    NothingLogged(rank, 0);
    forall l | 0 <= l < NUM_LEVELS ensures LevelHolds(d.edits, d.tables, Initial(target).levels, l) {
      InitialLevel(d, target, l);
    }
  }

  lemma InitialLevel(d: Disk, target: nat, l: nat)
    requires InitialDisk(d) && l < NUM_LEVELS
    ensures LevelHolds(d.edits, d.tables, Initial(target).levels, l)
  {
    var les := LevelEdits(d.edits, l, d.tables);
    assert les == [] + [les[0]] + [les[1]];
    SavedEachSnoc({}, [], les[0]);
    SavedEachSnoc({}, [les[0]], les[1]);
    assert les[0].added == [] && les[1].added == [];
  }

  // ---------- runs and crashes

  ghost predicate DiskRun(rank: Rank, ss: seq<State>, acts: seq<Action>, ds: seq<Disk>) {
    && SafeRun(ss, acts) && |ds| == |ss| && InitialDisk(ds[0])
    && forall i | 0 <= i < |acts| :: Writes(rank, ds[i], ss[i], acts[i], ds[i + 1])
  }

  lemma {:induction false} RunKeepsDisk(rank: Rank, ss: seq<State>, acts: seq<Action>, ds: seq<Disk>, k: nat)
    requires DiskRun(rank, ss, acts, ds) && k < |ss|
    ensures OnDisk(rank, ds[k], ss[k])
  {
    hide OnDisk, Inv, Writes, InitialDisk;
    if k == 0 {
      InitialOnDisk(rank, ds[0], ss[0].target);
    } else {
      RunKeepsDisk(rank, ss, acts, ds, k - 1);
      RunKeepsInv(ss, acts, k - 1);
      assert Allowed(ss[k - 1], acts[k - 1]) && ss[k - 1 + 1] == After(ss[k - 1], acts[k - 1]);
      assert Writes(rank, ds[k - 1], ss[k - 1], acts[k - 1], ds[k - 1 + 1]);
      StepKeepsDisk(rank, ds[k - 1], ss[k - 1], acts[k - 1], ds[k]);
    }
  }

  // The numbers of a batch grow to that of its last operation.
  lemma {:induction false} NumberedMax(rank: Rank, ops: seq<B.BatchOp>, first: nat, start: nat, i: nat)
    requires i <= |ops|
    ensures MaxSeqno(EntriesOf(rank, B.Numbered(ops, first))[..i], start)
         == if i > 0 && first + i - 1 > start then first + i - 1 else start
  {
    if i > 0 {
      NumberedMax(rank, ops, first, start, i - 1);
      var es := EntriesOf(rank, B.Numbered(ops, first));
      assert es[..i][..i - 1] == es[..i - 1] && es[..i][i - 1].seqno == first + i - 1;
    }
  }

  lemma EntriesConcat(rank: Rank, xs: seq<(nat, B.BatchOp)>, ys: seq<(nat, B.BatchOp)>)
    ensures EntriesOf(rank, xs + ys) == EntriesOf(rank, xs) + EntriesOf(rank, ys)
  {
  }

  // The records' headers lead to the number of the last operation.
  lemma {:induction false} MaxFrom(records: seq<Bytes>, first: nat, start: nat, k: nat)
    requires Consecutive(records, first + 1) && k <= |records| && start >= first
    ensures var last := first + |AllOps(records[..k])|;
            MaxSequence(records[..k], start) == if last > start then last else start
  {
    hide Consecutive, OpsOf, B.SequenceOf, B.CountOf;
    if k == 0 {
      assert records[..0] == [];
    } else {
      MaxFrom(records, first, start, k - 1);
      EndsAt(records, first + 1, k - 1);
      assert records[..k] == records[..k - 1] + [records[k - 1]];
      assert records[..k][..k - 1] == records[..k - 1];
      MaxSequenceSnoc(records[..k - 1], records[k - 1], start);
    }
  }

  // Recovery's sequence number is that of the last operation replayed, from any number on that
  // is not below the one before the log.
  lemma LogMax(rank: Rank, records: seq<Bytes>, es: seq<Entry>, first: nat, start: nat)
    requires LogHolds(rank, records, es, first) && start >= first
    ensures MaxSequence(records, start) == MaxSeqno(es, start)
  {
    hide MaxSeqno, MaxSequence, Consecutive, Replayed, AllOps;
    assert records[..|records|] == records;
    MaxFrom(records, first, start, |records|);
    ReplayedOps(records, first + 1);
    NumberedMax(rank, AllOps(records), first + 1, start, |AllOps(records)|);
    assert es[..|es|] == es;
  }

  // The records of a log that n bytes hold: all, all but the pending one when that is torn, or
  // all but one that is empty.
  ghost predicate Kept(s: State, torn: bool, log: nat, records: seq<Bytes>, k: nat) {
    && k <= |records|
    && if torn && log == s.logfile && s.pending != [] then k + 1 == |records|
       else k == |records| || (torn && log == s.logfile && k + 1 == |records| && OpsOf(records[k]) == [])
  }

  // n bytes of the manifest survive, which hold all its edits and not all of the next one, and
  // of each log that is needed the bytes that hold its records but for the one that may be torn.
  ghost predicate Survives(crc: Log.Crc, d: Disk, s: State, torn: bool, more: seq<V.Edit>, n: nat, cuts: map<nat, nat>) {
    && n <= |Log.Written(crc, Encoded(d.edits + more))|
    && Log.WhollyInside(crc, Encoded(d.edits + more), n, |d.edits|)
    && forall log | log in d.logs && log >= s.logNumber ::
         && log in cuts && cuts[log] <= |Log.Written(crc, d.logs[log])|
         && exists k :: Kept(s, torn, log, d.logs[log], k) && Log.WhollyInside(crc, d.logs[log], cuts[log], k)
  }

  // What recovery makes of a manifest is the levels and the numbers of the state, with the key
  // ranges and the sizes of the tables.
  ghost predicate ManifestReads(crc: Log.Crc, rank: Rank, comparator: Bytes, file: Bytes, tables: nat -> Table, s: State) {
    var (records, drops) := Log.ReadAll(crc, file, 0);
    var edits := EditsOf(records, comparator);
    && drops == 0 && edits.Some? && |s.levels| == NUM_LEVELS
    && (forall l | 0 <= l < NUM_LEVELS :: SavedOnce({}, LevelEdits(edits.value, l, tables)) == s.levels[l])
    && Described(rank, edits.value, tables)
    && var m := Summarized(edits.value);
    && HasAll(m) && m.logNumber == Some(s.logNumber)
    && m.nextFile == Some(s.manifestNext) && m.lastSequence == Some(s.manifestLast)
  }

  // What recovery replays of a log are these entries, and their largest sequence number.
  ghost predicate LogReads(crc: Log.Crc, rank: Rank, file: Bytes, es: seq<Entry>, first: nat) {
    var (records, drops) := Log.ReadAll(crc, file, 0);
    && drops == 0 && (forall r | r in records :: IsBatch(r))
    && EntriesOf(rank, Replayed(records)) == es
    && forall start: nat | start >= first :: MaxSequence(records, start) == MaxSeqno(es, start)
  }

  // Whatever edit is being written when a crash comes, the manifest's bytes give back the
  // levels and the numbers of the state.
  lemma CrashKeepsManifest(crc: Log.Crc, rank: Rank, comparator: Bytes, d: Disk, s: State, more: seq<V.Edit>, n: nat)
    requires ManifestHolds(d, s) && Described(rank, d.edits, d.tables)
    requires forall e | e in d.edits + more :: V.WellFormed(e) && Accepts(comparator, e)
    requires n <= |Log.Written(crc, Encoded(d.edits + more))|
    requires Log.WhollyInside(crc, Encoded(d.edits + more), n, |d.edits|)
    ensures ManifestReads(crc, rank, comparator, Log.Written(crc, Encoded(d.edits + more))[..n], d.tables, s)
  {
    hide Log.ReadAll, Log.Written, Log.WhollyInside, EditsOf, Summarized, V.WellFormed, IsManifest, Encoded;
    hide SavedOnce, SavedEach, AddedOnce, LevelEdits, Named, Described;
    TornManifestReadsBack(crc, d.edits + more, comparator, n, |d.edits|);
    assert (d.edits + more)[..|d.edits|] == d.edits;
    ManifestDecides(d.edits);
    forall l | 0 <= l < NUM_LEVELS ensures SavedOnce({}, LevelEdits(d.edits, l, d.tables)) == s.levels[l] {
      assert LevelHolds(d.edits, d.tables, s.levels, l);
      SavedOnceIsSavedEach({}, LevelEdits(d.edits, l, d.tables));
    }
  }

  // What survives of a log gives back its records, but for the one that may be torn.
  lemma CrashKeepsLog(crc: Log.Crc, rank: Rank, records: seq<Bytes>, n: nat, k: nat, es: seq<Entry>, first: nat)
    requires k <= |records| && LogHolds(rank, records[..k], es, first)
    requires n <= |Log.Written(crc, records)| && Log.WhollyInside(crc, records, n, k)
    ensures LogReads(crc, rank, Log.Written(crc, records)[..n], es, first)
  {
    hide Log.ReadAll, Log.Written, Log.WhollyInside, MaxSeqno, MaxSequence, Replayed, IsBatch, LogHolds;
    Log.PrefixReadsBack(crc, records, n, k);
    HeldRecords(rank, records[..k], es, first);
    forall start: nat | start >= first ensures MaxSequence(records[..k], start) == MaxSeqno(es, start) {
      LogMax(rank, records[..k], es, first, start);
    }
  }

  lemma HeldRecords(rank: Rank, records: seq<Bytes>, es: seq<Entry>, first: nat)
    requires LogHolds(rank, records, es, first)
    ensures (forall r | r in records :: IsBatch(r)) && EntriesOf(rank, Replayed(records)) == es
  {
    hide IsBatch, Replayed, B.SequenceOf, AllOps;
    forall r | r in records ensures IsBatch(r) {
      var i :| 0 <= i < |records| && records[i] == r;
    }
  }

  // The records that are kept hold what is left of the log.
  lemma KeptHolds(rank: Rank, d: Disk, s: State, torn: bool, log: nat, k: nat, first: nat)
    requires s.logfile in s.logs && LogsHold(rank, d.logs, s) && log in d.logs && Kept(s, torn, log, d.logs[log], k)
    requires LogHolds(rank, d.logs[log], s.logs[log], first)
    ensures log in SurvivingLogs(s, torn) && LogHolds(rank, d.logs[log][..k], SurvivingLogs(s, torn)[log], first)
  {
    hide LogHolds, OpsOf, IsBatch;
    var records, es := d.logs[log], s.logs[log];
    assert records[..|records|] == records && es[..|es|] == es;
    if k < |records| {
      if s.pending != [] {
        LogShrinks(rank, records, es, first, Stamp(s.last, s.pending));
      } else {
        EmptyRecord(rank, records[k]);
        LogShrinks(rank, records, es, first, []);
      }
    }
  }

  lemma EmptyRecord(rank: Rank, r: Bytes)
    requires OpsOf(r) == []
    ensures EntriesOf(rank, ReplayedRecord(r)) == []
  {
    hide OpsOf;
  }

  // Where the numbers of a needed log start.
  function FirstOf(s: State, log: nat): nat {
    if log == s.logfile then s.memStart else s.flushed
  }

  lemma CrashKeepsLogs(crc: Log.Crc, rank: Rank, d: Disk, s: State, torn: bool, more: seq<V.Edit>, n: nat, cuts: map<nat, nat>)
    requires Inv(s) && LogsHold(rank, d.logs, s) && Survives(crc, d, s, torn, more, n, cuts)
    ensures forall log | log in s.logs && log >= s.logNumber ::
              && log in d.logs && log in cuts && cuts[log] <= |Log.Written(crc, d.logs[log])|
              && log in SurvivingLogs(s, torn)
              && LogReads(crc, rank, Log.Written(crc, d.logs[log])[..cuts[log]], SurvivingLogs(s, torn)[log], FirstOf(s, log))
  {
    hide LevelsInv, Numbered, MemInv, SnapshotInv, Log.Written, Log.WhollyInside, BatchIs, LogHolds, LogReads, Encoded, Kept;
    hide SurvivingLogs;
    forall log | log in s.logs && log >= s.logNumber ensures
        && log in d.logs && log in cuts && cuts[log] <= |Log.Written(crc, d.logs[log])|
        && log in SurvivingLogs(s, torn)
        && LogReads(crc, rank, Log.Written(crc, d.logs[log])[..cuts[log]], SurvivingLogs(s, torn)[log], FirstOf(s, log)) {
      assert log in d.logs;
      var k :| Kept(s, torn, log, d.logs[log], k) && Log.WhollyInside(crc, d.logs[log], cuts[log], k);
      KeptIsSome(s, torn, log, d.logs[log], k);
      KeptHolds(rank, d, s, torn, log, k, FirstOf(s, log));
      CrashKeepsLog(crc, rank, d.logs[log], cuts[log], k, SurvivingLogs(s, torn)[log], FirstOf(s, log));
    }
  }

  lemma KeptIsSome(s: State, torn: bool, log: nat, records: seq<Bytes>, k: nat)
    requires Kept(s, torn, log, records, k)
    ensures k <= |records|
  {
  }

  // The bounds are met when the logs are replayed in turn from the manifest's number on.
  lemma BoundsAreMet(s: State, torn: bool)
    requires Inv(s)
    ensures s.manifestLast >= FirstOf(s, s.logNumber)
    ensures s.imm.Some? ==>
              && s.logNumber in SurvivingLogs(s, torn)
              && MaxSeqno(SurvivingLogs(s, torn)[s.logNumber], s.manifestLast) >= FirstOf(s, s.logfile)
  {
    hide LevelsInv, Numbered, SnapshotInv, MaxSeqno, SpanSeq;
    if s.imm.Some? {
      var full := s.hist + s.pending;
      MaxSeqnoOfSpan(full, s.flushed, s.memStart, s.manifestLast);
    }
  }

  // After any run, and a crash at any byte of the record being logged or of the edit being
  // committed, the files give recovery the levels, the numbers, the key ranges of the tables and
  // the log entries that Store.Recover starts from, and the state it leads to has every applied
  // write, and of the batch being written all or nothing.
  lemma CrashedRunRecovers(crc: Log.Crc, rank: Rank, comparator: Bytes, ss: seq<State>, acts: seq<Action>, ds: seq<Disk>,
                           k: nat, torn: bool, more: seq<V.Edit>, n: nat, cuts: map<nat, nat>, a: Action)
    requires DiskRun(rank, ss, acts, ds) && k < |ss|
    requires forall e | e in ds[k].edits + more :: V.WellFormed(e) && Accepts(comparator, e)
    requires Survives(crc, ds[k], ss[k], torn, more, n, cuts)
    requires a.Recover? && a.torn == torn && Allowed(ss[k], a)
    ensures n <= |Log.Written(crc, Encoded(ds[k].edits + more))|
    ensures ManifestReads(crc, rank, comparator, Log.Written(crc, Encoded(ds[k].edits + more))[..n], ds[k].tables, ss[k])
    ensures forall log | log in ss[k].logs && log >= ss[k].logNumber ::
              && log in ds[k].logs && log in cuts && cuts[log] <= |Log.Written(crc, ds[k].logs[log])|
              && log in SurvivingLogs(ss[k], torn)
              && LogReads(crc, rank, Log.Written(crc, ds[k].logs[log])[..cuts[log]], SurvivingLogs(ss[k], torn)[log],
                          FirstOf(ss[k], log))
    ensures ss[k].manifestLast >= FirstOf(ss[k], ss[k].logNumber)
    ensures ss[k].imm.Some? ==>
              && ss[k].logNumber in SurvivingLogs(ss[k], torn)
              && MaxSeqno(SurvivingLogs(ss[k], torn)[ss[k].logNumber], ss[k].manifestLast) >= FirstOf(ss[k], ss[k].logfile)
    ensures var t := After(ss[k], a);
            && Inv(t) && t.last == |t.hist|
            && t.hist == ss[k].hist + (if torn then [] else ss[k].pending)
  {
    hide Inv, Allowed, ManifestHolds, LogsHold, Survives, Writes, InitialDisk, Log.Written, Encoded, V.WellFormed;
    hide SurvivingLogs, ManifestReads, LogReads, Log.WhollyInside, Described, MaxSeqno;
    RunKeepsDisk(rank, ss, acts, ds, k);
    RunKeepsInv(ss, acts, k);
    SurvivesManifest(crc, ds[k], ss[k], torn, more, n, cuts);
    CrashKeepsManifest(crc, rank, comparator, ds[k], ss[k], more, n);
    CrashKeepsLogs(crc, rank, ds[k], ss[k], torn, more, n, cuts);
    BoundsAreMet(ss[k], torn);
    RecoverKeepsInv(ss[k], a);
    RecoveredWrites(ss[k], a);
  }

  lemma RecoveredWrites(s: State, a: Action)
    requires a.Recover? && Allowed(s, a)
    ensures After(s, a).hist == s.hist + (if a.torn then [] else s.pending)
  {
    assert s.hist + [] == s.hist;
  }

  lemma SurvivesManifest(crc: Log.Crc, d: Disk, s: State, torn: bool, more: seq<V.Edit>, n: nat, cuts: map<nat, nat>)
    requires Survives(crc, d, s, torn, more, n, cuts)
    ensures n <= |Log.Written(crc, Encoded(d.edits + more))|
    ensures Log.WhollyInside(crc, Encoded(d.edits + more), n, |d.edits|)
  {
  }
}
