/**
 The store as a state machine: a write-ahead log, two memtables and seven levels of
 immutable tables, moved forward by writes, memtable switches, flushes, trivial moves,
 compactions, snapshots and crashes.  Every step keeps the invariant Inv, and a state with
 Inv answers reads exactly as the list of writes does.
 */
module Store {
  import opened Coding
  import opened Entries
  import opened Levels

  // ---------- the state

  /**
   hist, flushed and memStart are history variables: hist lists the applied writes, those up
   to flushed have reached tables, those up to memStart have left the active memtable.
   floor is the largest snapshot bound any compaction has used.  pending holds the writes
   that are in the log but not yet in the memtable.
   logs holds the records of each log file; logNumber, manifestLast and manifestNext are what
   the last committed manifest record says; logfile is the log being written.
   target is the size at which an output file is full, an option.
   */
  datatype State = State(
    target: nat,
    hist: seq<Write>,
    flushed: nat,
    memStart: nat,
    floor: nat,
    pending: seq<Write>,
    last: nat,
    mem: set<Entry>,
    imm: Option<set<Entry>>,
    levels: seq<set<Table>>,
    snapshots: seq<nat>,
    nextFile: nat,
    logfile: nat,
    logNumber: nat,
    manifestLast: nat,
    manifestNext: nat,
    logs: map<nat, seq<Entry>>)

  ghost function ImmSet(s: State): set<Entry> {
    if s.imm.Some? then s.imm.value else {}
  }

  ghost function All(s: State): set<Entry> {
    s.mem + ImmSet(s) + LevelsContent(s.levels)
  }

  ghost predicate MemInv(s: State) {
    && s.flushed <= s.memStart <= |s.hist|
    && s.mem == Span(s.hist, s.memStart, |s.hist|)
    && match s.imm
       case None => s.flushed == s.memStart
       case Some(es) => es == Span(s.hist, s.flushed, s.memStart)
  }

  // The unflushed writes are exactly the records of the logs the manifest still names.
  ghost predicate LogInv(s: State)
    requires s.flushed <= s.memStart <= |s.hist|
  {
    var full := s.hist + s.pending;
    && s.logfile in s.logs
    && s.logs[s.logfile] == SpanSeq(full, s.memStart, |full|)
    && (s.imm.None? ==> s.logNumber == s.logfile)
    && (s.imm.Some? ==>
          && s.logNumber < s.logfile && s.logNumber in s.logs
          && s.logs[s.logNumber] == SpanSeq(full, s.flushed, s.memStart))
    && (forall n | n in s.logs ::
          n < s.nextFile && (n < s.logNumber || n == s.logNumber || n == s.logfile))
    && s.flushed <= s.manifestLast <= |s.hist|
  }

  // Live snapshots are kept oldest first.
  ghost predicate SnapshotInv(s: State) {
    && (forall i | 0 <= i < |s.snapshots| :: s.floor <= s.snapshots[i] <= s.last)
    && (forall i, j | 0 <= i < j < |s.snapshots| :: s.snapshots[i] <= s.snapshots[j])
  }

  ghost predicate Inv(s: State) {
    && s.last == |s.hist|
    && s.floor <= s.last
    && SnapshotInv(s)
    && MemInv(s)
    && LevelsInv(s.hist, s.floor, s.flushed, s.levels)
    && Numbered(s.levels, s.manifestNext) && s.manifestNext <= s.nextFile
    && LogInv(s)
  }

  // ---------- reading

  lemma AllFromHist(s: State, e: Entry)
    requires Inv(s) && e in All(s)
    ensures 1 <= e.seqno <= |s.hist| && e == EntryAt(s.hist, e.seqno)
    ensures e in s.mem ==> s.memStart < e.seqno
    ensures e in ImmSet(s) ==> s.flushed < e.seqno <= s.memStart
    ensures e in LevelsContent(s.levels) ==> e.seqno <= s.flushed
  {
  }

  // The newest stored entry at a snapshot not below the floor is what the list of writes says.
  lemma NewestIsReference(s: State, u: UserKey, snap: nat, r: Option<Entry>)
    requires Inv(s)
    requires s.floor <= snap <= s.last
    requires IsNewest(All(s), u, snap, r)
    ensures Visible(r) == RefGet(s.hist, u, snap)
  {
    var n := RefGetFinds(s.hist, u, snap);
    if r.Some? {
      AllFromHist(s, r.value);
      assert r.value == EntryAt(s.hist, r.value.seqno);
      assert r.value.seqno <= n;
    }
    if n > 0 {
      var en := EntryAt(s.hist, n);
      assert !Superseded(s.hist, s.floor, n);
      if n > s.memStart {
        assert en in s.mem;
      } else if n > s.flushed {
        assert en in ImmSet(s);
      } else if en !in LevelsContent(s.levels) {
        assert Gone(s.hist, s.floor, n, LevelsContent(s.levels));
      }
    }
  }

  // ---------- steps

  datatype Action =
    | Append(batch: seq<Write>)
    | Apply
    | SwitchMemTable
    | Flush(level: nat, table: Option<Table>)
    | TrivialMove(from: nat, file: Table)
    | Merge(c: Compaction, outs: set<Table>, next: nat)
    | TakeSnapshot
    | ReleaseSnapshot(index: nat)
    | DeleteObsoleteLogs
    | Recover(torn: bool, tables: seq<Table>, cuts: seq<nat>, log: nat)

  // A batch whose first write gets sequence number start + 1.
  function Stamp(start: nat, batch: seq<Write>): (es: seq<Entry>)
    ensures |es| == |batch|
  {
    seq(|batch|, i requires 0 <= i < |batch| => Entry(batch[i].key, start + 1 + i, batch[i].op))
  }

  // DoCompactionWork's smallest_snapshot.
  function SmallestSnapshot(s: State): nat {
    if s.snapshots == [] then s.last else s.snapshots[0]
  }

  function Move(from: nat, file: Table): Compaction {
    Compaction(from, {file}, {})
  }

  // The records of the logs numbered lo .. hi-1, oldest log first.
  function Replay(logs: map<nat, seq<Entry>>, lo: nat, hi: nat): seq<Entry> {
    if hi <= lo then []
    else Replay(logs, lo, hi - 1) + (if hi - 1 in logs then logs[hi - 1] else [])
  }

  function MaxSeqno(es: seq<Entry>, start: nat): nat {
    if es == [] then start
    else
      var m := MaxSeqno(es[..|es| - 1], start);
      if es[|es| - 1].seqno > m then es[|es| - 1].seqno else m
  }

  // What the logs hold after a crash that may have torn the record being written.
  function SurvivingLogs(s: State, torn: bool): map<nat, seq<Entry>> {
    if torn && s.logfile in s.logs && |s.pending| <= |s.logs[s.logfile]| then
      s.logs[s.logfile := s.logs[s.logfile][..|s.logs[s.logfile]| - |s.pending|]]
    else s.logs
  }

  function SurvivingWrites(s: State, torn: bool): seq<Write> {
    if torn then s.hist else s.hist + s.pending
  }

  ghost predicate Chunk(replay: seq<Entry>, f: Table, lo: nat, hi: nat) {
    lo <= hi <= |replay| && Content(f.entries) == Content(replay[lo..hi])
  }

  // Recovery cuts the replayed records into tables numbered upwards.
  ghost predicate CutInto(replay: seq<Entry>, tables: seq<Table>, cuts: seq<nat>, next: nat) {
    && |cuts| == |tables| + 1 && cuts[0] == 0 && cuts[|tables|] == |replay|
    && (forall i | 0 <= i < |tables| ::
          next <= tables[i].number && Chunk(replay, tables[i], cuts[i], cuts[i + 1]))
    && (forall i, j | 0 <= i < j < |tables| :: tables[i].number < tables[j].number)
  }

  ghost function AddTables(levels: seq<set<Table>>, tables: seq<Table>): seq<set<Table>>
    requires |levels| > 0
    ensures |AddTables(levels, tables)| == |levels|
  {
    if tables == [] then levels
    else AddFile(AddTables(levels, tables[..|tables| - 1]), 0, tables[|tables| - 1])
  }

  ghost predicate Fresh(tables: set<Table>, lo: nat, hi: nat) {
    && (forall f | f in tables :: lo <= f.number < hi)
    && (forall f, g | f in tables && g in tables && f.number == g.number :: f == g)
  }

  lemma {:induction false} TablesAtZero(levels: seq<set<Table>>, tables: seq<Table>)
    requires |levels| > 0
    ensures AddTables(levels, tables) == levels[0 := levels[0] + set f | f in tables]
  {
    var files := set f | f in tables;
    if tables == [] {
      assert levels[0] + files == levels[0];
    } else {
      var rest, last := tables[..|tables| - 1], tables[|tables| - 1];
      TablesAtZero(levels, rest);
      assert tables == rest + [last];
      assert levels[0] + (set f | f in rest) + {last} == levels[0] + files;
    }
  }

  // When the code can take a step, and with what outcome.
  ghost predicate Allowed(s: State, a: Action) {
    match a
    case Append(batch) => s.pending == []
    case Apply => true
    case SwitchMemTable => s.imm.None? && s.pending == []
    case Flush(level, table) =>
      && s.imm.Some?
      && (table.None? <==> s.imm.value == {})
      && (table.Some? ==>
            && Content(table.value.entries) == s.imm.value
            && table.value.number == s.nextFile
            && PickedLevel(s.levels, s.target, table.value, level))
    case TrivialMove(from, file) => Chosen(s.levels, Move(from, file))
    case Merge(c, outs, next) =>
      && Chosen(s.levels, c)
      && PairwiseBefore(outs)
      && FilesContent(outs) == Survivors(s.levels, c, SmallestSnapshot(s))
      && Cuts(s.levels, c, s.target, outs)
      && s.nextFile <= next && Fresh(outs, s.nextFile, next)
    case TakeSnapshot => true
    case ReleaseSnapshot(index) => index < |s.snapshots|
    case DeleteObsoleteLogs => true
    case Recover(torn, tables, cuts, log) =>
      && |s.levels| > 0
      && CutInto(Replay(SurvivingLogs(s, torn), s.logNumber, s.nextFile), tables, cuts, s.manifestNext + 1)
      && s.manifestNext < log
      && (forall i | 0 <= i < |tables| :: tables[i].number < log)
      && (forall n | n in s.logs :: n < log)
  }

  ghost function After(s: State, a: Action): State
    requires Allowed(s, a)
  {
    match a
    case Append(batch) =>
      s.(pending := batch,
         logs := s.logs[s.logfile :=
           (if s.logfile in s.logs then s.logs[s.logfile] else []) + Stamp(s.last, batch)])
    case Apply =>
      s.(hist := s.hist + s.pending, pending := [], last := s.last + |s.pending|,
         mem := s.mem + Content(Stamp(s.last, s.pending)))
    case SwitchMemTable =>
      s.(imm := Some(s.mem), mem := {}, memStart := |s.hist|,
         logs := s.logs[s.nextFile := []], logfile := s.nextFile, nextFile := s.nextFile + 1)
    case Flush(level, table) =>
      s.(imm := None, flushed := s.memStart,
         levels := if table.Some? then AddFile(s.levels, level, table.value) else s.levels,
         nextFile := s.nextFile + 1,
         logNumber := s.logfile, manifestLast := s.last, manifestNext := s.nextFile + 1)
    case TrivialMove(from, file) =>
      s.(levels := Compacted(s.levels, Move(from, file), {file}), floor := SmallestSnapshot(s),
         manifestLast := s.last, manifestNext := s.nextFile)
    case Merge(c, outs, next) =>
      s.(levels := Compacted(s.levels, c, outs), floor := SmallestSnapshot(s), nextFile := next,
         manifestLast := s.last, manifestNext := next)
    case TakeSnapshot => s.(snapshots := s.snapshots + [s.last])
    case ReleaseSnapshot(index) =>
      s.(snapshots := s.snapshots[..index] + s.snapshots[index + 1..])
    case DeleteObsoleteLogs =>
      s.(logs := map n | n in s.logs && n >= s.logNumber :: s.logs[n])
    case Recover(torn, tables, cuts, log) =>
      var logs := SurvivingLogs(s, torn);
      var replay := Replay(logs, s.logNumber, s.nextFile);
      var hist := SurvivingWrites(s, torn);
      var last := MaxSeqno(replay, s.manifestLast);
      s.(hist := hist, flushed := |hist|, memStart := |hist|, pending := [], last := last,
         mem := {}, imm := None, levels := AddTables(s.levels, tables), snapshots := [],
         nextFile := log + 1, logfile := log, logNumber := log,
         manifestLast := last, manifestNext := log + 1,
         logs := logs[log := []])
  }

  // Without snapshots, what a merge leaves of a key is one entry, and a marker only where a
  // deeper level may hold what it deletes: the last level but one leaves no marker.
  lemma MergeCollectsGarbage(s: State, a: Action, e: Entry)
    requires Inv(s) && a.Merge? && Allowed(s, a) && s.snapshots == [] && e in FilesContent(a.outs)
    ensures forall d | d in Inputs(a.c) && d.key == e.key :: d == e || (d.seqno < e.seqno && d !in FilesContent(a.outs))
    ensures e.op.Delete? ==> exists l, f :: a.c.level + 2 <= l < |s.levels| && f in s.levels[l] && f.Lo() <= e.key <= f.Hi()
  {
    hide LevelsInv, LogInv, MemInv, SnapshotInv, Cuts, PairwiseBefore, Fresh;
    InputIsStored(s, a.c, e);
    assert !Hidden(Inputs(a.c), s.last, e);
    forall d | d in Inputs(a.c) && d.key == e.key ensures d == e || (d.seqno < e.seqno && d !in FilesContent(a.outs)) {
      InputIsStored(s, a.c, d);
      if d.seqno < e.seqno {
        assert Hidden(Inputs(a.c), s.last, d);
      }
    }
    if e.op.Delete? {
      assert !BaseLevel(s.levels, a.c.level, e.key);
      var l, f :| a.c.level + 2 <= l < |s.levels| && f in s.levels[l] && Covers(f, e.key);
      assert f.Lo() <= e.key <= f.Hi();
    }
  }

  lemma InputIsStored(s: State, c: Compaction, e: Entry)
    requires Inv(s) && Chosen(s.levels, c) && e in Inputs(c)
    ensures 1 <= e.seqno <= s.last && e == EntryAt(s.hist, e.seqno)
  {
    hide Outside;
    var f :| f in c.in0 + c.in1 && e in f.entries;
    assert f in s.levels[c.level] || f in s.levels[c.level + 1];
    assert e in LevelsContent(s.levels);
    AllFromHist(s, e);
  }

  // A compaction step takes no entry that a reader may be after from above an older one.
  ghost predicate SafeStep(s: State, a: Action)
    requires Allowed(s, a)
  {
    && (a.Merge? ==> Safe(s.hist, s.levels, a.c, true, SmallestSnapshot(s)))
    && (a.TrivialMove? ==> Safe(s.hist, s.levels, Move(a.from, a.file), false, SmallestSnapshot(s)))
  }

  function Initial(target: nat): State {
    State(target, [], 0, 0, 0, [], 0, {}, None, seq(NUM_LEVELS, _ => {}), [], 4, 3, 3, 0, 4, map[3 := []])
  }

  // ---------- every step keeps the invariant

  lemma StampIsSpan(hist: seq<Write>, batch: seq<Write>, lo: nat)
    requires lo <= |hist|
    ensures SpanSeq(hist + batch, lo, |hist + batch|) == SpanSeq(hist, lo, |hist|) + Stamp(|hist|, batch)
  {
  }

  lemma SpanIsContent(hist: seq<Write>, lo: nat, hi: nat)
    requires lo <= hi <= |hist|
    ensures Content(SpanSeq(hist, lo, hi)) == Span(hist, lo, hi)
  {
    var es := SpanSeq(hist, lo, hi);
    forall e | e in Span(hist, lo, hi) ensures e in es {
      var n :| lo < n <= hi && e == EntryAt(hist, n);
      assert es[n - lo - 1] == e;
    }
  }

  // Later writes do not disturb what is known about earlier ones.
  lemma HistGrows(hist: seq<Write>, more: seq<Write>, floor: nat, flushed: nat, levels: seq<set<Table>>)
    requires LevelsInv(hist, floor, flushed, levels) && floor <= |hist|
    ensures LevelsInv(hist + more, floor, flushed, levels)
  {
    hide Superseded, OneHome, SortedLevels, Newer, Live;
    var full := hist + more;
    forall n | 1 <= n <= |hist|
      ensures EntryAt(full, n) == EntryAt(hist, n) && (Superseded(full, floor, n) <==> Superseded(hist, floor, n)) {
      SupersededStays(hist, more, floor, n);
    }
    forall f, g | Newer(hist, floor, f, g) && FromWrites(hist, g) ensures Newer(full, floor, f, g) {
      NewerStays(hist, more, floor, f, g);
    }
    forall l, g | 0 <= l < |levels| && g in levels[l] ensures FromWrites(hist, g) {
      forall e | e in g.entries ensures e in LevelsContent(levels) {
      }
    }
  }

  ghost predicate FromWrites(hist: seq<Write>, g: Table) {
    forall e | e in g.entries :: 1 <= e.seqno <= |hist|
  }

  lemma SupersededStays(hist: seq<Write>, more: seq<Write>, floor: nat, n: nat)
    requires floor <= |hist| && 1 <= n <= |hist|
    ensures Superseded(hist + more, floor, n) <==> Superseded(hist, floor, n)
  {
    forall m | 1 <= m <= |hist| ensures EntryAt(hist + more, m) == EntryAt(hist, m) {
    }
  }

  lemma NewerStays(hist: seq<Write>, more: seq<Write>, floor: nat, f: Table, g: Table)
    requires Newer(hist, floor, f, g) && FromWrites(hist, g) && floor <= |hist|
    ensures Newer(hist + more, floor, f, g)
  {
    hide Superseded;
    forall d | d in g.entries && Live(hist + more, floor, d) ensures Live(hist, floor, d) {
      SupersededStays(hist, more, floor, d.seqno);
    }
  }

  lemma SpanGrows(hist: seq<Write>, more: seq<Write>, lo: nat, hi: nat)
    requires lo <= hi <= |hist|
    ensures Span(hist + more, lo, hi) == Span(hist, lo, hi)
    ensures SpanSeq(hist + more, lo, hi) == SpanSeq(hist, lo, hi)
  {
    forall n | 1 <= n <= |hist| ensures EntryAt(hist + more, n) == EntryAt(hist, n) {
    }
  }

  lemma AppendKeepsInv(s: State, batch: seq<Write>)
    requires Inv(s) && Allowed(s, Append(batch))
    ensures Inv(After(s, Append(batch)))
  {
    var t := After(s, Append(batch));
    assert s.hist + s.pending == s.hist;
    StampIsSpan(s.hist, batch, s.memStart);
    if s.imm.Some? {
      SpanGrows(s.hist, batch, s.flushed, s.memStart);
    }
  }

  lemma ApplyKeepsInv(s: State)
    requires Inv(s) && Allowed(s, Apply)
    ensures Inv(After(s, Apply))
  {
    var t := After(s, Apply);
    var full := s.hist + s.pending;
    assert full + [] == full;
    HistGrows(s.hist, s.pending, s.floor, s.flushed, s.levels);
    StampIsSpan(s.hist, s.pending, s.memStart);
    SpanIsContent(full, s.memStart, |full|);
    SpanIsContent(s.hist, s.memStart, |s.hist|);
    SpanGrows(s.hist, s.pending, s.flushed, s.memStart);
    assert Content(SpanSeq(s.hist, s.memStart, |s.hist|) + Stamp(s.last, s.pending))
        == Content(SpanSeq(s.hist, s.memStart, |s.hist|)) + Content(Stamp(s.last, s.pending));
  }

  lemma SwitchKeepsInv(s: State)
    requires Inv(s) && Allowed(s, SwitchMemTable)
    ensures Inv(After(s, SwitchMemTable))
  {
    assert s.hist + s.pending == s.hist;
  }

  lemma EmptySpan(hist: seq<Write>, lo: nat, hi: nat)
    requires lo <= hi <= |hist|
    ensures Span(hist, lo, hi) == {} ==> lo == hi
  {
    if lo < hi {
      assert EntryAt(hist, hi) in Span(hist, lo, hi);
    }
  }

  lemma FlushKeepsInv(s: State, level: nat, table: Option<Table>)
    requires Inv(s) && Allowed(s, Flush(level, table))
    ensures Inv(After(s, Flush(level, table)))
  {
    hide LevelsInv, Numbered, FlushLevelOk, LogInv, AddFile;
    FlushedLevels(s, level, table);
    FlushedLogs(s, level, table);
  }

  lemma FlushedLevels(s: State, level: nat, table: Option<Table>)
    requires Inv(s) && Allowed(s, Flush(level, table))
    ensures var t := After(s, Flush(level, table));
            LevelsInv(t.hist, t.floor, t.flushed, t.levels) && Numbered(t.levels, t.manifestNext)
  {
    hide LevelsInv, FlushLevelOk, LogInv, AddFile, SnapshotInv;
    if table.Some? {
      FlushKeepsLevels(s.hist, s.floor, s.flushed, s.memStart, s.levels, s.nextFile, level, table.value);
    } else {
      EmptySpan(s.hist, s.flushed, s.memStart);
    }
  }

  lemma FlushedLogs(s: State, level: nat, table: Option<Table>)
    requires Inv(s) && Allowed(s, Flush(level, table))
    ensures LogInv(After(s, Flush(level, table)))
  {
    hide LevelsInv, Numbered, FlushLevelOk, AddFile, SnapshotInv, SpanSeq, Span;
  }

  lemma MoveKeepsNumbered(levels: seq<set<Table>>, from: nat, file: Table, next: nat)
    requires Numbered(levels, next) && Chosen(levels, Move(from, file))
    ensures Numbered(Compacted(levels, Move(from, file), {file}), next)
  {
    hide Numbered, Chosen;
    MovedFile(levels, from, file, next);
    OneNewPlace(levels, Compacted(levels, Move(from, file), {file}), from + 1, file, next);
  }

  // The moved file is in the next level only, and every other file where it was.
  lemma MovedFile(levels: seq<set<Table>>, from: nat, file: Table, next: nat)
    requires Numbered(levels, next) && Chosen(levels, Move(from, file))
    ensures file in levels[from] && from + 1 < |levels|
    ensures var after := Compacted(levels, Move(from, file), {file});
            |after| == |levels| && forall l, f | 0 <= l < |after| && f in after[l] ::
              if f == file then l == from + 1 else f in levels[l]
  {
    assert file in levels[from];
  }

  lemma OneNewPlace(levels: seq<set<Table>>, after: seq<set<Table>>, to: nat, file: Table, next: nat)
    requires Numbered(levels, next) && |after| == |levels|
    requires exists l :: 0 <= l < |levels| && file in levels[l]
    requires forall l, f | 0 <= l < |after| && f in after[l] :: if f == file then l == to else f in levels[l]
    ensures Numbered(after, next)
  {
  }

  lemma MergeKeepsNumbered(levels: seq<set<Table>>, c: Compaction, outs: set<Table>, lo: nat, next: nat)
    requires Numbered(levels, lo) && c.level + 1 < |levels| && lo <= next && Fresh(outs, lo, next)
    ensures Numbered(Compacted(levels, c, outs), next)
  {
    hide Compacted;
    CompactedAt(levels, c, outs);
    var after := Compacted(levels, c, outs);
    forall l, f | 0 <= l < |after| && f in after[l]
      ensures (f in levels[l] && f.number < lo) || (f in outs && l == c.level + 1 && lo <= f.number < next)
    {
    }
  }

  lemma BoundIsReadable(s: State)
    requires Inv(s)
    ensures s.floor <= SmallestSnapshot(s) <= s.last == |s.hist|
    ensures forall i | 0 <= i < |s.snapshots| :: SmallestSnapshot(s) <= s.snapshots[i] <= s.last
  {
  }

  lemma MoveKeepsInv(s: State, from: nat, file: Table)
    requires Inv(s) && Allowed(s, TrivialMove(from, file)) && SafeStep(s, TrivialMove(from, file))
    ensures Inv(After(s, TrivialMove(from, file)))
  {
    hide LevelsInv, Chosen, Numbered, LogInv, Safe, Compacted;
    var c := Move(from, file);
    assert c.in0 + c.in1 == {file};
    BoundIsReadable(s);
    CompactKeepsLevels(s.hist, s.floor, s.flushed, s.levels, c, false, SmallestSnapshot(s), {file});
    MoveKeepsNumbered(s.levels, from, file, s.manifestNext);
    NumberedGrows(After(s, TrivialMove(from, file)).levels, s.manifestNext, s.nextFile);
    LogStays(s, After(s, TrivialMove(from, file)));
  }

  lemma MergeKeepsInv(s: State, c: Compaction, outs: set<Table>, next: nat)
    requires Inv(s) && Allowed(s, Merge(c, outs, next)) && SafeStep(s, Merge(c, outs, next))
    ensures Inv(After(s, Merge(c, outs, next)))
  {
    hide LevelsInv, Chosen, Numbered, LogInv, Safe, Compacted, Survivors, Fresh, Cuts, PairwiseBefore;
    BoundIsReadable(s);
    HasLevels(s.levels, c);
    CompactKeepsLevels(s.hist, s.floor, s.flushed, s.levels, c, true, SmallestSnapshot(s), outs);
    NumberedGrows(s.levels, s.manifestNext, s.nextFile);
    MergeKeepsNumbered(s.levels, c, outs, s.nextFile, next);
    LogStays(s, After(s, Merge(c, outs, next)));
  }

  lemma LogStays(s: State, t: State)
    requires MemInv(s) && LogInv(s) && s.last == |s.hist|
    requires t.hist == s.hist && t.pending == s.pending && t.logs == s.logs && t.logfile == s.logfile
    requires t.logNumber == s.logNumber && t.imm == s.imm && t.flushed == s.flushed && t.memStart == s.memStart
    requires t.nextFile >= s.nextFile && t.manifestLast == s.last
    ensures LogInv(t)
  {
  }

  // ---------- recovery

  lemma {:induction false} ReplaySkip(logs: map<nat, seq<Entry>>, lo: nat, mid: nat, hi: nat)
    requires lo <= mid <= hi
    requires forall n | n in logs :: !(mid <= n < hi)
    ensures Replay(logs, lo, hi) == Replay(logs, lo, mid)
  {
    if mid < hi {
      ReplaySkip(logs, lo, mid, hi - 1);
    }
  }

  // The live log holds what survived of the memtable, the one before it the immutable memtable.
  lemma SurvivingLogsHold(s: State, torn: bool)
    requires MemInv(s) && LogInv(s)
    ensures var hist, logs := SurvivingWrites(s, torn), SurvivingLogs(s, torn);
            && s.logfile in logs && logs[s.logfile] == SpanSeq(hist, s.memStart, |hist|)
            && (s.imm.Some? ==>
                  && s.logNumber < s.logfile && s.logNumber in logs
                  && logs[s.logNumber] == SpanSeq(hist, s.flushed, s.memStart))
            && forall n | n in logs :: n < s.nextFile && (n < s.logNumber || n == s.logNumber || n == s.logfile)
  {
    var full := s.hist + s.pending;
    if torn {
      assert s.logs[s.logfile][..|s.logs[s.logfile]| - |s.pending|] == SpanSeq(s.hist, s.memStart, |s.hist|);
    }
    if s.imm.Some? {
      assert SpanSeq(full, s.flushed, s.memStart) == SpanSeq(s.hist, s.flushed, s.memStart);
    }
  }

  // The logs numbered at or above the manifest's log number hold exactly the unflushed writes.
  lemma ReplayIsTail(s: State, torn: bool)
    requires Inv(s)
    ensures var hist := SurvivingWrites(s, torn);
            Replay(SurvivingLogs(s, torn), s.logNumber, s.nextFile) == SpanSeq(hist, s.flushed, |hist|)
  {
    hide LevelsInv, Numbered, SnapshotInv, SurvivingLogs, Replay;
    var hist := SurvivingWrites(s, torn);
    SurvivingLogsHold(s, torn);
    ReplayTwo(SurvivingLogs(s, torn), s.logNumber, s.logfile, s.nextFile);
    if s.imm.Some? {
      assert SpanSeq(hist, s.flushed, s.memStart) + SpanSeq(hist, s.memStart, |hist|) == SpanSeq(hist, s.flushed, |hist|);
    }
  }

  // Replaying from log lo on, when only lo and hi are left from there.
  lemma ReplayTwo(logs: map<nat, seq<Entry>>, lo: nat, hi: nat, next: nat)
    requires lo in logs && hi in logs && lo <= hi
    requires forall n | n in logs :: n < next && (n < lo || n == lo || n == hi)
    ensures Replay(logs, lo, next) == if lo == hi then logs[hi] else logs[lo] + logs[hi]
  {
    hide Replay;
    ReplaySkip(logs, lo, hi + 1, next);
    ReplayStep(logs, lo, hi);
    ReplayStep(logs, lo, lo);
    if lo < hi {
      ReplaySkip(logs, lo, lo + 1, hi);
    }
  }

  lemma ReplayStep(logs: map<nat, seq<Entry>>, lo: nat, n: nat)
    requires lo <= n
    ensures Replay(logs, lo, n + 1) == Replay(logs, lo, n) + (if n in logs then logs[n] else [])
    ensures Replay(logs, lo, lo) == []
  {
  }

  lemma {:induction false} MaxSeqnoOfSpan(hist: seq<Write>, lo: nat, hi: nat, start: nat)
    requires lo <= hi <= |hist|
    ensures MaxSeqno(SpanSeq(hist, lo, hi), start) == if lo < hi && start < hi then hi else start
  {
    if lo < hi {
      MaxSeqnoOfSpan(hist, lo, hi - 1, start);
      assert SpanSeq(hist, lo, hi)[..hi - lo - 1] == SpanSeq(hist, lo, hi - 1);
    }
  }

  lemma ChunkIsSpan(hist: seq<Write>, flushed: nat, f: Table, lo: nat, hi: nat)
    requires flushed <= |hist| && Chunk(SpanSeq(hist, flushed, |hist|), f, lo, hi)
    ensures Content(f.entries) == Span(hist, flushed + lo, flushed + hi)
  {
    assert SpanSeq(hist, flushed, |hist|)[lo..hi] == SpanSeq(hist, flushed + lo, flushed + hi);
    SpanIsContent(hist, flushed + lo, flushed + hi);
  }

  lemma RecoverOneTable(hist: seq<Write>, floor: nat, flushed: nat, lo: nat, hi: nat,
                        levels: seq<set<Table>>, next: nat, f: Table)
    requires flushed + lo <= |hist| && LevelsInv(hist, floor, flushed + lo, levels) && Numbered(levels, next)
    requires Chunk(SpanSeq(hist, flushed, |hist|), f, lo, hi)
    requires f.number >= next
    ensures LevelsInv(hist, floor, flushed + hi, AddFile(levels, 0, f))
    ensures Numbered(AddFile(levels, 0, f), f.number + 1)
  {
    ChunkIsSpan(hist, flushed, f, lo, hi);
    FlushKeepsLevels(hist, floor, flushed + lo, flushed + hi, levels, next, 0, f);
  }

  lemma CutAt(replay: seq<Entry>, tables: seq<Table>, cuts: seq<nat>, next: nat, k: nat)
    requires CutInto(replay, tables, cuts, next) && k < |tables|
    ensures Chunk(replay, tables[k], cuts[k], cuts[k + 1])
    ensures tables[k].number >= next && (k > 0 ==> tables[k].number > tables[k - 1].number)
  {
  }

  lemma AddTablesStep(levels: seq<set<Table>>, tables: seq<Table>, k: nat)
    requires |levels| > 0 && k < |tables|
    ensures AddTables(levels, tables[..k + 1]) == AddFile(AddTables(levels, tables[..k]), 0, tables[k])
  {
    assert tables[..k + 1][..k] == tables[..k];
  }

  lemma {:induction false} RecoverKeepsLevels(hist: seq<Write>, floor: nat, flushed: nat, levels: seq<set<Table>>,
                                              tables: seq<Table>, cuts: seq<nat>, next: nat, k: nat)
    requires |levels| > 0
    requires LevelsInv(hist, floor, flushed, levels) && Numbered(levels, next)
    requires CutInto(SpanSeq(hist, flushed, |hist|), tables, cuts, next)
    requires k <= |tables|
    ensures flushed + cuts[k] <= |hist|
    ensures LevelsInv(hist, floor, flushed + cuts[k], AddTables(levels, tables[..k]))
    ensures Numbered(AddTables(levels, tables[..k]), if k == 0 then next else tables[k - 1].number + 1)
  {
    hide LevelsInv, Numbered;
    if k > 0 {
      RecoverKeepsLevels(hist, floor, flushed, levels, tables, cuts, next, k - 1);
      CutAt(SpanSeq(hist, flushed, |hist|), tables, cuts, next, k - 1);
      RecoverOneTable(hist, floor, flushed, cuts[k - 1], cuts[k], AddTables(levels, tables[..k - 1]),
                      if k == 1 then next else tables[k - 2].number + 1, tables[k - 1]);
      AddTablesStep(levels, tables, k - 1);
    }
  }

  lemma NumberedGrows(levels: seq<set<Table>>, lo: nat, hi: nat)
    requires Numbered(levels, lo) && lo <= hi
    ensures Numbered(levels, hi)
  {
  }

  lemma RecoveredLevels(s: State, a: Action)
    requires Inv(s) && a.Recover? && Allowed(s, a)
    ensures var hist := SurvivingWrites(s, a.torn);
            && LevelsInv(hist, s.floor, |hist|, AddTables(s.levels, a.tables))
            && Numbered(AddTables(s.levels, a.tables), a.log + 1)
  {
    hide LevelsInv, Numbered, LogInv, SnapshotInv, Replay, SurvivingLogs, SpanSeq, Chunk;
    var hist := SurvivingWrites(s, a.torn);
    ReplayIsTail(s, a.torn);
    HistGrows(s.hist, if a.torn then [] else s.pending, s.floor, s.flushed, s.levels);
    assert hist == s.hist + if a.torn then [] else s.pending;
    var k := |a.tables|;
    assert |s.levels| > 0;
    NumberedGrows(s.levels, s.manifestNext, s.manifestNext + 1);
    RecoverKeepsLevels(hist, s.floor, s.flushed, s.levels, a.tables, a.cuts, s.manifestNext + 1, k);
    assert a.tables[..k] == a.tables;
    NumberedGrows(AddTables(s.levels, a.tables),
                  if k == 0 then s.manifestNext + 1 else a.tables[k - 1].number + 1, a.log + 1);
  }

  // After a crash at any point, replaying the logs the manifest names restores every applied
  // write, plus the one being written when its record survived; the recovered sequence
  // number is exact, so none is used twice.
  lemma RecoverKeepsInv(s: State, a: Action)
    requires Inv(s) && a.Recover? && Allowed(s, a)
    ensures Inv(After(s, a))
    ensures s.hist <= After(s, a).hist <= s.hist + s.pending
    ensures After(s, a).last == |After(s, a).hist|
  {
    hide LevelsInv, Numbered, LogInv;
    RecoveredLevels(s, a);
    RecoveredLast(s, a);
    RecoveredLogs(s, a);
  }

  // The sequence number counts the writes that survived.
  lemma RecoveredLast(s: State, a: Action)
    requires Inv(s) && a.Recover? && Allowed(s, a)
    ensures After(s, a).last == |After(s, a).hist| && s.flushed <= |After(s, a).hist|
  {
    hide LevelsInv, Numbered;
    var hist := SurvivingWrites(s, a.torn);
    ReplayIsTail(s, a.torn);
    MaxSeqnoOfSpan(hist, s.flushed, |hist|, s.manifestLast);
  }

  // A new, empty log, and older ones the manifest no longer names.
  lemma RecoveredLogs(s: State, a: Action)
    requires Inv(s) && a.Recover? && Allowed(s, a) && After(s, a).last == |After(s, a).hist|
    ensures LogInv(After(s, a))
  {
    hide LevelsInv, Numbered, Replay, MemInv, SnapshotInv;
    var t := After(s, a);
    assert t.hist + t.pending == t.hist;
  }
}
