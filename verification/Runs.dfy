/**
 Whole runs of the store: what every reachable state answers, why picking compaction inputs
 is safe when no snapshot is live, and what goes wrong when a user key is split over two
 files of one level.
 */
module Runs {
  import opened Coding
  import opened Entries
  import opened Levels
  import opened Store

  // ---------- the read path (DBImpl::Get, Version::Get)

  // Level 0 is searched by descending file number, a level above 0 as one sorted run.
  ghost predicate LevelRead(levels: seq<set<Table>>, l: nat, u: UserKey, s: nat, e: Entry)
    requires l < |levels|
  {
    if l == 0 then
      exists f | f in levels[0] && IsNewest(Content(f.entries), u, s, Some(e)) ::
        forall g | g in levels[0] && g.number > f.number :: IsNewest(Content(g.entries), u, s, None)
    else IsNewest(FilesContent(levels[l]), u, s, Some(e))
  }

  // The search stops in the first level that has an entry for the key.
  ghost predicate LevelsRead(levels: seq<set<Table>>, u: UserKey, s: nat, r: Option<Entry>) {
    match r
    case None => forall l | 0 <= l < |levels| :: IsNewest(FilesContent(levels[l]), u, s, None)
    case Some(e) =>
      exists l | 0 <= l < |levels| && LevelRead(levels, l, u, s, e) ::
        forall m | 0 <= m < l :: IsNewest(FilesContent(levels[m]), u, s, None)
  }

  ghost predicate StoreRead(s: State, u: UserKey, snap: nat, r: Option<Entry>) {
    || (r.Some? && IsNewest(s.mem, u, snap, r))
    || (IsNewest(s.mem, u, snap, None) && r.Some? && IsNewest(ImmSet(s), u, snap, r))
    || (IsNewest(s.mem, u, snap, None) && IsNewest(ImmSet(s), u, snap, None)
        && LevelsRead(s.levels, u, snap, r))
  }

  // The search returns e when nothing it looks at before e's file can be read, and nothing
  // newer is in e's level.
  lemma FirstIsFound(levels: seq<set<Table>>, next: nat, u: UserKey, snap: nat, r: Option<Entry>,
                     e: Entry, l: nat, f: Table)
    requires Numbered(levels, next) && l < |levels| && f in levels[l] && e in f.entries && e.key == u && e.seqno <= snap
    requires forall g, d | g in levels[l] && d in g.entries && (l > 0 || g == f) && d.key == u && d.seqno <= snap ::
               d.seqno <= e.seqno
    requires forall m, g, d | 0 <= m <= l && g in levels[m] && (m < l || (l == 0 && g.number > f.number))
               && d in g.entries && d.key == u :: d.seqno > snap
    requires LevelsRead(levels, u, snap, r)
    ensures r.Some? && r.value.key == u && r.value.seqno == e.seqno
    ensures exists g :: g in levels[l] && r.value in g.entries
  {
    hide Numbered, LevelRead;
    assert e in FilesContent(levels[l]);
    if r.Some? {
      var k: nat :| k < |levels| && LevelRead(levels, k, u, snap, r.value)
        && forall m | 0 <= m < k :: IsNewest(FilesContent(levels[m]), u, snap, None);
      var g := FileOfRead(levels, k, u, snap, r.value);
      assert k == l;
      NewestInLevel(levels, next, u, snap, r.value, e, l, f, g);
    }
  }

  lemma NewestInLevel(levels: seq<set<Table>>, next: nat, u: UserKey, snap: nat, q: Entry,
                      e: Entry, l: nat, f: Table, g: Table)
    requires Numbered(levels, next) && l < |levels| && f in levels[l] && e in f.entries && e.key == u && e.seqno <= snap
    requires LevelRead(levels, l, u, snap, q) && g in levels[l] && q in g.entries && q.key == u && q.seqno <= snap
    requires forall g, d | g in levels[l] && d in g.entries && (l > 0 || g == f) && d.key == u && d.seqno <= snap ::
               d.seqno <= e.seqno
    requires l == 0 ==> forall h, d | h in levels[0] && h.number > f.number && d in h.entries && d.key == u :: d.seqno > snap
    requires l == 0 ==> IsNewest(Content(g.entries), u, snap, Some(q))
    requires l == 0 ==> forall h | h in levels[0] && h.number > g.number :: IsNewest(Content(h.entries), u, snap, None)
    ensures q.seqno == e.seqno
  {
    if l == 0 {
      assert e in Content(f.entries);
      assert g.number == f.number;
      assert g == f;
    } else {
      assert e in FilesContent(levels[l]);
    }
  }

  lemma FileOfRead(levels: seq<set<Table>>, l: nat, u: UserKey, s: nat, e: Entry) returns (f: Table)
    requires l < |levels| && LevelRead(levels, l, u, s, e)
    ensures f in levels[l] && e in f.entries && e.key == u && e.seqno <= s
    ensures l == 0 ==> forall g | g in levels[0] && g.number > f.number :: IsNewest(Content(g.entries), u, s, None)
    ensures l == 0 ==> IsNewest(Content(f.entries), u, s, Some(e))
  {
    if l == 0 {
      f :| f in levels[0] && IsNewest(Content(f.entries), u, s, Some(e))
        && forall g | g in levels[0] && g.number > f.number :: IsNewest(Content(g.entries), u, s, None);
    } else {
      f :| f in levels[l] && e in f.entries;
    }
  }

  lemma FoundIsStored(levels: seq<set<Table>>, u: UserKey, snap: nat, r: Option<Entry>)
    requires LevelsRead(levels, u, snap, r)
    ensures r.Some? ==> r.value in LevelsContent(levels) && r.value.key == u && r.value.seqno <= snap
    ensures r.None? ==> IsNewest(LevelsContent(levels), u, snap, None)
  {
    if r.Some? {
      var k: nat :| k < |levels| && LevelRead(levels, k, u, snap, r.value);
      var g := FileOfRead(levels, k, u, snap, r.value);
    } else {
      forall d | d in LevelsContent(levels) ensures !(d.key == u && d.seqno <= snap) {
        var l: nat, g: Table :| l < |levels| && g in levels[l] && d in g.entries;
        assert d in FilesContent(levels[l]);
      }
    }
  }

  // Searching level by level finds a live entry before anything older of its key.
  lemma LiveIsFound(hist: seq<Write>, floor: nat, flushed: nat, levels: seq<set<Table>>, next: nat,
                    u: UserKey, snap: nat, r: Option<Entry>, e: Entry)
    requires LevelsInv(hist, floor, flushed, levels) && Numbered(levels, next)
    requires LevelsRead(levels, u, snap, r)
    requires e in LevelsContent(levels) && Live(hist, floor, e) && IsNewest(LevelsContent(levels), u, snap, Some(e))
    ensures r == Some(e)
  {
    hide Live, Complete, SortedLevels, OneHome, Numbered, LevelsRead, Superseded;
    var l: nat, f: Table :| l < |levels| && f in levels[l] && e in f.entries;
    forall m, g, d | 0 <= m < |levels| && g in levels[m] && d in g.entries ensures d in LevelsContent(levels) {
    }
    forall m, g, d | 0 <= m <= l && g in levels[m] && (m < l || (l == 0 && g.number > f.number))
        && d in g.entries && d.key == u ensures d.seqno > snap {
      assert Newer(hist, floor, g, f);
      assert d in LevelsContent(levels);
    }
    FirstIsFound(levels, next, u, snap, r, e, l, f);
    assert r.value in LevelsContent(levels);
  }

  // A read finds the newest of all stored entries.
  lemma ReadIsNewest(s: State, u: UserKey, snap: nat, r: Option<Entry>)
    requires Inv(s) && s.floor <= snap <= s.last
    requires StoreRead(s, u, snap, r)
    ensures IsNewest(All(s), u, snap, r)
  {
    hide LogInv, Numbered, LevelsRead, SnapshotInv;
    Ages(s);
    if IsNewest(s.mem, u, snap, None) && IsNewest(ImmSet(s), u, snap, None) && LevelsRead(s.levels, u, snap, r) {
      FoundIsStored(s.levels, u, snap, r);
      if r.Some? {
        var q := NewestExists(LevelsContent(s.levels), u, snap);
        NewestIsLive(s, u, snap, q.value);
        LiveIsFound(s.hist, s.floor, s.flushed, s.levels, s.manifestNext, u, snap, r, q.value);
      }
    }
  }

  lemma Ages(s: State)
    requires Inv(s)
    ensures forall e | e in s.mem :: e.seqno > s.memStart
    ensures forall e | e in ImmSet(s) :: s.flushed < e.seqno <= s.memStart
    ensures forall e | e in LevelsContent(s.levels) :: e.seqno <= s.flushed <= s.memStart
  {
  }

  // The newest stored entry at a sequence number, when it is in a table, is no older than any
  // write readers there should see.
  lemma NewestIsLive(s: State, u: UserKey, snap: nat, e: Entry)
    requires Inv(s) && s.floor <= snap <= s.last
    requires IsNewest(s.mem, u, snap, None) && IsNewest(ImmSet(s), u, snap, None)
    requires IsNewest(LevelsContent(s.levels), u, snap, Some(e))
    ensures Live(s.hist, s.floor, e) && Live(s.hist, snap, e)
  {
    hide LogInv, Numbered, SnapshotInv, Ordered, OneHome, SortedLevels;
    AllFromHist(s, e);
    var n := RefGetFinds(s.hist, u, snap);
    var en := EntryAt(s.hist, n);
    assert !Superseded(s.hist, s.floor, n);
    assert n > s.memStart ==> en in s.mem;
    assert s.flushed < n <= s.memStart ==> en in ImmSet(s);
    assert n <= s.flushed;
    assert en in LevelsContent(s.levels) || Gone(s.hist, s.floor, n, LevelsContent(s.levels));
    assert e == en;
  }

  // A read of any state with the invariant, at any sequence number some live or future
  // snapshot can have, answers what the list of writes says.
  lemma ReadsMatchHistory(s: State, u: UserKey, snap: nat, r: Option<Entry>)
    requires Inv(s) && s.floor <= snap <= s.last
    requires StoreRead(s, u, snap, r)
    ensures Visible(r) == RefGet(s.hist, u, snap)
  {
    hide Inv;
    ReadIsNewest(s, u, snap, r);
    NewestIsReference(s, u, snap, r);
  }

  // ---------- runs

  ghost predicate Run(ss: seq<State>, acts: seq<Action>) {
    && |ss| == |acts| + 1
    && ss[0].target >= MIN_FILE_SIZE && ss[0] == Initial(ss[0].target)
    && forall i | 0 <= i < |acts| :: Allowed(ss[i], acts[i]) && ss[i + 1] == After(ss[i], acts[i])
  }

  ghost predicate SafeRun(ss: seq<State>, acts: seq<Action>) {
    Run(ss, acts) && forall i | 0 <= i < |acts| :: SafeStep(ss[i], acts[i])
  }

  lemma InitialInv(target: nat)
    ensures Inv(Initial(target))
  {
  }

  lemma StepKeepsInv(s: State, a: Action)
    requires Inv(s) && Allowed(s, a) && SafeStep(s, a)
    ensures Inv(After(s, a))
    ensures s.hist <= After(s, a).hist
  {
    hide Inv;
    match a
    case Append(batch) => AppendKeepsInv(s, batch);
    case Apply => ApplyKeepsInv(s);
    case SwitchMemTable => SwitchKeepsInv(s);
    case Flush(level, table) => FlushKeepsInv(s, level, table);
    case TrivialMove(from, file) => MoveKeepsInv(s, from, file);
    case Merge(c, outs, next) => MergeKeepsInv(s, c, outs, next);
    case TakeSnapshot => TakeKeepsInv(s);
    case ReleaseSnapshot(index) => ReleaseKeepsInv(s, index);
    case DeleteObsoleteLogs => DeleteKeepsInv(s);
    case Recover(torn, tables, cuts, log) => RecoverKeepsInv(s, a);
  }

  lemma TakeKeepsInv(s: State)
    requires Inv(s)
    ensures Inv(After(s, TakeSnapshot))
  {
  }

  lemma ReleaseKeepsInv(s: State, index: nat)
    requires Inv(s) && index < |s.snapshots|
    ensures Inv(After(s, ReleaseSnapshot(index)))
  {
  }

  lemma DeleteKeepsInv(s: State)
    requires Inv(s)
    ensures Inv(After(s, DeleteObsoleteLogs))
  {
  }

  lemma {:induction false} RunKeepsInv(ss: seq<State>, acts: seq<Action>, k: nat)
    requires SafeRun(ss, acts) && k < |ss|
    ensures Inv(ss[k])
    ensures forall j | 0 <= j <= k :: ss[j].hist <= ss[k].hist
  {
    hide Inv;
    if k == 0 {
      InitialInv(ss[0].target);
    } else {
      RunKeepsInv(ss, acts, k - 1);
      assert SafeStep(ss[k - 1], acts[k - 1]) && ss[k - 1 + 1] == After(ss[k - 1], acts[k - 1]);
      StepKeepsInv(ss[k - 1], acts[k - 1]);
    }
  }

  // In every run whose compactions are safe, every read that a snapshot or the
  // current state allows answers exactly what the list of applied writes says.
  lemma RunAnswersReads(ss: seq<State>, acts: seq<Action>, k: nat, u: UserKey, snap: nat, r: Option<Entry>)
    requires SafeRun(ss, acts) && k < |ss|
    requires ss[k].floor <= snap <= ss[k].last
    requires StoreRead(ss[k], u, snap, r)
    ensures snap <= |ss[k].hist|
    ensures Visible(r) == RefGet(ss[k].hist, u, snap)
  {
    RunKeepsInv(ss, acts, k);
    ReadsMatchHistory(ss[k], u, snap, r);
  }

  lemma {:induction false} RefGetOfPrefix(hist: seq<Write>, more: seq<Write>, u: UserKey, s: nat)
    requires hist <= more && s <= |hist|
    ensures RefGet(more, u, s) == RefGet(hist, u, s)
  {
    if s > 0 {
      RefGetOfPrefix(hist, more, u, s - 1);
    }
  }

  // A reader that keeps its sequence number sees one value across writes, switches, flushes,
  // compactions and crashes, as long as no compaction bound has passed it.
  lemma ReadsRepeat(ss: seq<State>, acts: seq<Action>, i: nat, j: nat, u: UserKey, snap: nat,
                    r: Option<Entry>, q: Option<Entry>)
    requires SafeRun(ss, acts) && i <= j < |ss|
    requires ss[i].floor <= snap <= ss[i].last && ss[j].floor <= snap
    requires StoreRead(ss[i], u, snap, r) && StoreRead(ss[j], u, snap, q)
    ensures Visible(r) == Visible(q)
  {
    hide Inv;
    RunKeepsInv(ss, acts, i);
    RunKeepsInv(ss, acts, j);
    LastIsHist(ss[i]);
    LastIsHist(ss[j]);
    RunAnswersReads(ss, acts, i, u, snap, r);
    RunAnswersReads(ss, acts, j, u, snap, q);
    RefGetOfPrefix(ss[i].hist, ss[j].hist, u, snap);
  }

  lemma LastIsHist(s: State)
    requires Inv(s)
    ensures s.last == |s.hist|
  {
  }

  // A live snapshot is never passed by a compaction bound.
  lemma SnapshotsStayReadable(ss: seq<State>, acts: seq<Action>, k: nat, i: nat)
    requires SafeRun(ss, acts) && k < |ss| && i < |ss[k].snapshots|
    ensures ss[k].floor <= ss[k].snapshots[i] <= ss[k].last
  {
    RunKeepsInv(ss, acts, k);
  }

  // ---------- runs whose compactions start with no live snapshot

  ghost predicate UnsnapshottedRun(ss: seq<State>, acts: seq<Action>) {
    Run(ss, acts) && forall i | 0 <= i < |acts| :: acts[i].Merge? ==> ss[i].snapshots == []
  }

  lemma SurvivorsAreSingle(s: State, c: Compaction, e: Entry, d: Entry)
    requires Inv(s) && Chosen(s.levels, c)
    requires e in Survivors(s.levels, c, s.last) && d in Survivors(s.levels, c, s.last) && e.key == d.key
    ensures e == d
  {
    hide Dropped;
    StoredEntry(s, c, e);
    StoredEntry(s, c, d);
    if e.seqno < d.seqno {
      HiddenIsDropped(s.levels, c, s.last, e, d);
    } else if d.seqno < e.seqno {
      HiddenIsDropped(s.levels, c, s.last, d, e);
    }
  }

  lemma StoredEntry(s: State, c: Compaction, e: Entry)
    requires Inv(s) && Chosen(s.levels, c) && e in Inputs(c)
    ensures 1 <= e.seqno <= |s.hist| == s.last && e == EntryAt(s.hist, e.seqno)
  {
    assert e in LevelsContent(s.levels);
  }

  lemma HiddenIsDropped(levels: seq<set<Table>>, c: Compaction, smallest: nat, e: Entry, d: Entry)
    requires d in Inputs(c) && d.key == e.key && e.seqno < d.seqno <= smallest
    ensures Dropped(levels, c, smallest, e)
  {
  }

  lemma MergeKeepsDisjoint(s: State, c: Compaction, outs: set<Table>, next: nat)
    requires Inv(s) && UserDisjoint(s.levels) && s.snapshots == []
    requires Allowed(s, Merge(c, outs, next))
    ensures UserDisjoint(Compacted(s.levels, c, outs))
  {
    hide Inv;
    DisjointInputsAreClosed(s.levels, c);
    LevelsAreSorted(s);
    forall f, g | f in outs && g in outs && f != g ensures Apart(f, g) {
      OutputsShareNoKey(s, c, outs, next, f, g);
    }
    forall g, o | g in s.levels[c.level + 1] - c.in1 && o in outs ensures Apart(g, o) {
      OutputIsApart(s.levels, c, SmallestSnapshot(s), outs, g, o);
    }
    var after := Compacted(s.levels, c, outs);
    CompactedAt(s.levels, c, outs);
    forall l, f, g | 1 <= l < |after| && f in after[l] && g in after[l] && f != g ensures Apart(f, g) {
      if l == c.level + 1 && f in outs && g !in outs {
        assert Apart(g, f);
      } else if l == c.level + 1 && g in outs && f !in outs {
        assert Apart(f, g);
      } else if l != c.level + 1 || f !in outs {
        assert f in s.levels[l] && g in s.levels[l];
      }
    }
  }

  lemma OutputIsApart(levels: seq<set<Table>>, c: Compaction, smallest: nat, outs: set<Table>, g: Table, o: Table)
    requires SortedLevels(levels) && Chosen(levels, c) && UserClosed(levels, c)
    requires FilesContent(outs) == Survivors(levels, c, smallest)
    requires g in levels[c.level + 1] - c.in1 && o in outs
    ensures Apart(g, o)
  {
    hide Dropped, Outside, UserClosed, SortedLevels;
    OneSide(levels, c, g);
    EndsInContent(outs, o);
    BesideSharesNoKey(levels, c, g, o.Smallest());
    BesideSharesNoKey(levels, c, g, o.Largest());
  }

  lemma LevelsAreSorted(s: State)
    requires Inv(s)
    ensures SortedLevels(s.levels) && Ordered(s.hist, s.floor, s.levels)
    ensures s.floor <= SmallestSnapshot(s)
  {
  }

  lemma BesideSharesNoKey(levels: seq<set<Table>>, c: Compaction, g: Table, e: Entry)
    requires Chosen(levels, c) && UserClosed(levels, c) && g in levels[c.level + 1] - c.in1 && e in Inputs(c)
    ensures e.key < g.Lo() || e.key > g.Hi()
  {
    var h, k := InputFile(c, e);
    InRange(h, e);
    if k == c.level {
      LeftBesideMisses(levels, c, g, h);
    }
  }

  lemma OutputsShareNoKey(s: State, c: Compaction, outs: set<Table>, next: nat, f: Table, g: Table)
    requires Inv(s) && s.snapshots == [] && Allowed(s, Merge(c, outs, next))
    requires f in outs && g in outs && f != g
    ensures Apart(f, g)
  {
    hide Inv;
    var a, b := if FileBefore(f, g) then f else g, if FileBefore(f, g) then g else f;
    assert FileBefore(a, b);
    EndsInContent(outs, a);
    EndsInContent(outs, b);
    if a.Largest().key == b.Smallest().key {
      SurvivorsAreSingle(s, c, a.Largest(), b.Smallest());
    }
  }

  lemma FlushKeepsDisjoint(levels: seq<set<Table>>, level: nat, f: Table)
    requires UserDisjoint(levels) && FlushLevelOk(levels, f, level)
    ensures UserDisjoint(AddFile(levels, level, f))
  {
    var after := AddFile(levels, level, f);
    forall l, g, h | 1 <= l < |after| && g in after[l] && h in after[l] && g != h ensures Apart(g, h) {
      if g !in levels[l] {
        assert Apart(f, h);
      } else if h !in levels[l] {
        assert Apart(f, g);
      }
    }
  }

  lemma StepKeepsDisjoint(s: State, a: Action)
    requires Inv(s) && UserDisjoint(s.levels) && Allowed(s, a)
    requires a.Merge? ==> s.snapshots == []
    ensures SafeStep(s, a)
    ensures UserDisjoint(After(s, a).levels)
  {
    hide Inv;
    match a
    case Flush(level, table) =>
      if table.Some? {
        FlushKeepsDisjoint(s.levels, level, table.value);
      }
    case TrivialMove(from, file) =>
      LevelsAreSorted(s);
      DisjointInputsAreClosed(s.levels, Move(from, file));
      ClosedIsSafe(s.hist, s.floor, s.levels, Move(from, file), false, SmallestSnapshot(s));
    case Merge(c, outs, next) =>
      LevelsAreSorted(s);
      DisjointInputsAreClosed(s.levels, c);
      ClosedIsSafe(s.hist, s.floor, s.levels, c, true, SmallestSnapshot(s));
      MergeKeepsDisjoint(s, c, outs, next);
    case Recover(torn, tables, cuts, log) =>
      TablesAtZero(s.levels, tables);
    case _ =>
  }

  // When no snapshot is live at the start of any compaction, no user key is ever split over
  // files of one level, so picking inputs by range exposes nothing and every read is right.
  lemma {:induction false} UnsnapshottedRunIsSafe(ss: seq<State>, acts: seq<Action>, k: nat)
    requires UnsnapshottedRun(ss, acts) && k < |ss|
    ensures Inv(ss[k]) && UserDisjoint(ss[k].levels)
    ensures forall i | 0 <= i < k :: SafeStep(ss[i], acts[i])
  {
    hide Inv;
    if k == 0 {
      InitialInv(ss[0].target);
    } else {
      UnsnapshottedRunIsSafe(ss, acts, k - 1);
      assert Allowed(ss[k - 1], acts[k - 1]) && ss[k - 1 + 1] == After(ss[k - 1], acts[k - 1]);
      StepKeepsDisjoint(ss[k - 1], acts[k - 1]);
      StepKeepsInv(ss[k - 1], acts[k - 1]);
    }
  }

  lemma UnsnapshottedRunAnswersReads(ss: seq<State>, acts: seq<Action>, k: nat,
                                     u: UserKey, snap: nat, r: Option<Entry>)
    requires UnsnapshottedRun(ss, acts) && k < |ss|
    requires ss[k].floor <= snap <= ss[k].last
    requires StoreRead(ss[k], u, snap, r)
    ensures snap <= |ss[k].hist|
    ensures Visible(r) == RefGet(ss[k].hist, u, snap)
  {
    UnsnapshottedRunIsSafe(ss, acts, |acts|);
    RunAnswersReads(ss, acts, k, u, snap, r);
  }

  // ---------- when a compaction changes what readers see

  function CompactionOf(a: Action): Compaction
    requires a.Merge? || a.TrivialMove?
  {
    if a.Merge? then a.c else Move(a.from, a.file)
  }

  ghost predicate Exposed(s: State, a: Action, snap: nat, e: Entry, x: Entry)
    requires (a.Merge? || a.TrivialMove?) && Allowed(s, a)
  {
    && Live(s.hist, snap, e)
    && Exposes(s.levels, CompactionOf(a), a.Merge?, SmallestSnapshot(s), snap, e, x)
  }

  ghost function Outputs(a: Action): set<Table>
    requires a.Merge? || a.TrivialMove?
  {
    if a.Merge? then a.outs else {a.file}
  }

  lemma CompactionReplaces(s: State, a: Action)
    requires (a.Merge? || a.TrivialMove?) && Allowed(s, a)
    ensures Chosen(s.levels, CompactionOf(a)) && CompactionOf(a).level + 1 < |s.levels|
    ensures Replaces(s.levels, CompactionOf(a), a.Merge?, SmallestSnapshot(s), Outputs(a))
    ensures var t := After(s, a);
            && t.mem == s.mem && t.imm == s.imm && t.hist == s.hist
            && t.levels == Compacted(s.levels, CompactionOf(a), Outputs(a))
  {
    if a.TrivialMove? {
      assert CompactionOf(a).in0 + CompactionOf(a).in1 == {a.file};
    }
  }

  // Everything stored is a write, at one place, and under one file number after the step too.
  lemma StepNumbers(s: State, a: Action) returns (next: nat)
    requires Inv(s) && (a.Merge? || a.TrivialMove?) && Allowed(s, a)
    ensures Numbered(After(s, a).levels, next)
  {
    hide Chosen, Numbered, LevelsInv, Compacted, LogInv;
    CompactionReplaces(s, a);
    if a.Merge? {
      next := a.next;
      NumberedGrows(s.levels, s.manifestNext, s.nextFile);
      MergeKeepsNumbered(s.levels, a.c, a.outs, s.nextFile, next);
    } else {
      next := s.manifestNext;
      MoveKeepsNumbered(s.levels, a.from, a.file, next);
    }
  }

  // What the levels hold of a key when e is the newest entry readers at snap can find.
  ghost predicate NewestHere(s: State, snap: nat, e: Entry) {
    && e in LevelsContent(s.levels) && Live(s.hist, snap, e) && Live(s.hist, s.floor, e)
    && IsNewest(LevelsContent(s.levels), e.key, snap, Some(e))
  }

  // No level above e's place holds a readable entry of its key.
  lemma NothingAbove(s: State, snap: nat, e: Entry, m: nat, g: Table, d: Entry, l: nat, f: Table)
    requires Inv(s) && NewestHere(s, snap, e)
    requires m < |s.levels| && g in s.levels[m] && d in g.entries && d.key == e.key
    requires l < |s.levels| && f in s.levels[l] && e in f.entries && (m < l || (m == l == 0 && g.number > f.number))
    ensures d.seqno > snap
  {
    hide Live, LogInv, SnapshotInv, Numbered, Complete, SortedLevels, OneHome, MemInv, FromHist;
    assert Newer(s.hist, s.floor, g, f);
    assert d in LevelsContent(s.levels);
  }

  // Entries of the compacted levels were stored before, so none readable is newer than e.
  lemma NotNewer(s: State, a: Action, snap: nat, e: Entry, l: nat, g: Table, d: Entry)
    requires (a.Merge? || a.TrivialMove?) && Allowed(s, a)
    requires IsNewest(LevelsContent(s.levels), e.key, snap, Some(e))
    requires l < |After(s, a).levels| && g in After(s, a).levels[l] && d in g.entries && d.key == e.key && d.seqno <= snap
    ensures d.seqno <= e.seqno && d in LevelsContent(s.levels)
  {
    hide Chosen, Replaces, Compacted, After, Allowed;
    CompactionReplaces(s, a);
    CompactedAt(s.levels, CompactionOf(a), Outputs(a));
    var m, h := CameFrom(s.levels, CompactionOf(a), a.Merge?, SmallestSnapshot(s), Outputs(a), l, g, d);
  }

  // An entry that is no input is found as before.
  lemma BystanderIsFound(s: State, a: Action, snap: nat, e: Entry, r: Option<Entry>)
    requires Inv(s) && (a.Merge? || a.TrivialMove?) && Allowed(s, a)
    requires NewestHere(s, snap, e) && e !in Inputs(CompactionOf(a))
    requires LevelsRead(After(s, a).levels, e.key, snap, r)
    ensures r.Some? && r.value.seqno == e.seqno
  {
    hide Inv, Chosen, Replaces, Compacted, Allowed, After, NewestHere, LevelsRead, Numbered, Live;
    var c := CompactionOf(a);
    CompactionReplaces(s, a);
    HasLevels(s.levels, c);
    var next := StepNumbers(s, a);
    var t := After(s, a);
    var l, f := HomeOf(s, snap, e);
    StaysPut(s.levels, c, Outputs(a), l, f, e);
    forall m, g, d | 0 <= m <= l && g in t.levels[m] && (m < l || (l == 0 && g.number > f.number))
        && d in g.entries && d.key == e.key ensures d.seqno > snap {
      var k, h := CameFrom(s.levels, c, a.Merge?, SmallestSnapshot(s), Outputs(a), m, g, d);
      NothingAbove(s, snap, e, k, h, d, l, f);
    }
    NewestIs(s, snap, e);
    forall g, d | g in t.levels[l] && d in g.entries && d.key == e.key && d.seqno <= snap ensures d.seqno <= e.seqno {
      NotNewer(s, a, snap, e, l, g, d);
    }
    FirstIsFound(t.levels, next, e.key, snap, r, e, l, f);
  }

  lemma HomeOf(s: State, snap: nat, e: Entry) returns (l: nat, f: Table)
    requires NewestHere(s, snap, e)
    ensures l < |s.levels| && f in s.levels[l] && e in f.entries && e.seqno <= snap
  {
    l, f :| l < |s.levels| && f in s.levels[l] && e in f.entries;
  }

  lemma NewestIs(s: State, snap: nat, e: Entry)
    requires NewestHere(s, snap, e)
    ensures IsNewest(LevelsContent(s.levels), e.key, snap, Some(e))
  {
  }

  lemma StaysPut(levels: seq<set<Table>>, c: Compaction, outs: set<Table>, l: nat, f: Table, e: Entry)
    requires c.level + 1 < |levels| && l < |levels| && f in levels[l] && e in f.entries && e !in Inputs(c)
    ensures l < |Compacted(levels, c, outs)| && f in Compacted(levels, c, outs)[l]
  {
  }

  // Readers come to the newest entry left behind above an input, if there is one.
  lemma AboveIsFound(s: State, a: Action, snap: nat, e: Entry, x: Entry, r: Option<Entry>)
    requires Inv(s) && (a.Merge? || a.TrivialMove?) && Allowed(s, a)
    requires NewestHere(s, snap, e) && e in Inputs(CompactionOf(a))
    requires CompactionOf(a).level + 1 < |s.levels|
    requires IsNewest(StaysAbove(s.levels, CompactionOf(a)), e.key, snap, Some(x)) && x.seqno < e.seqno
    requires LevelsRead(After(s, a).levels, e.key, snap, r)
    ensures r.Some? && r.value.seqno == x.seqno
  {
    hide Inv, Chosen, Replaces, Compacted, Allowed, After, NewestHere, LevelsRead, Numbered, Live;
    var c := CompactionOf(a);
    CompactionReplaces(s, a);
    HasLevels(s.levels, c);
    var next := StepNumbers(s, a);
    var t := After(s, a);
    var h, k := InputFile(c, e);
    CompactedAt(s.levels, c, Outputs(a));
    assert k == c.level by {
      if k != c.level {
        var g :| g in s.levels[c.level] - c.in0 && x in g.entries;
        NothingAbove(s, snap, e, c.level, g, x, k, h);
      }
    }
    NotAtZero(s.levels, c, h, e, x);
    var f :| f in s.levels[c.level] - c.in0 && x in f.entries;
    forall g, d | g in t.levels[c.level] && d in g.entries && d.key == e.key && d.seqno <= snap ensures d.seqno <= x.seqno {
      assert d in StaysAbove(s.levels, c);
    }
    forall m, g, d | 0 <= m < c.level && g in t.levels[m] && d in g.entries && d.key == e.key ensures d.seqno > snap {
      NothingAbove(s, snap, e, m, g, d, k, h);
    }
    FirstIsFound(t.levels, next, e.key, snap, r, x, c.level, f);
  }

  // Nothing of a chosen file's key is left behind in level 0.
  lemma NotAtZero(levels: seq<set<Table>>, c: Compaction, h: Table, e: Entry, x: Entry)
    requires Chosen(levels, c) && h in c.in0 && e in h.entries && x in StaysAbove(levels, c) && x.key == e.key
    ensures c.level > 0
  {
    if c.level == 0 {
      var g :| g in levels[0] - c.in0 && x in g.entries;
      InRange(g, x);
      InRange(h, e);
    }
  }

  // An input that is kept, with nothing readable left behind above, is found.
  lemma KeptIsFound(s: State, a: Action, snap: nat, e: Entry, r: Option<Entry>)
    requires Inv(s) && (a.Merge? || a.TrivialMove?) && Allowed(s, a)
    requires NewestHere(s, snap, e) && e in Inputs(CompactionOf(a)) && CompactionOf(a).level + 1 < |s.levels|
    requires e in FilesContent(Outputs(a))
    requires IsNewest(StaysAbove(s.levels, CompactionOf(a)), e.key, snap, None)
    requires LevelsRead(After(s, a).levels, e.key, snap, r)
    ensures r.Some? && r.value.seqno == e.seqno
  {
    hide Inv, Chosen, Replaces, Compacted, Allowed, After, NewestHere, LevelsRead, Numbered, Live;
    var c := CompactionOf(a);
    CompactionReplaces(s, a);
    HasLevels(s.levels, c);
    var next := StepNumbers(s, a);
    var t := After(s, a);
    var h, k := InputFile(c, e);
    CompactedAt(s.levels, c, Outputs(a));
    var f :| f in Outputs(a) && e in f.entries;
    NewestIs(s, snap, e);
    forall g, d | g in t.levels[c.level + 1] && d in g.entries && d.key == e.key && d.seqno <= snap ensures d.seqno <= e.seqno {
      NotNewer(s, a, snap, e, c.level + 1, g, d);
    }
    forall m, g, d | 0 <= m <= c.level && g in t.levels[m] && d in g.entries && d.key == e.key ensures d.seqno > snap {
      if m == c.level {
        assert d in StaysAbove(s.levels, c);
      } else {
        NothingAbove(s, snap, e, m, g, d, k, h);
      }
    }
    HomeOfIs(s, snap, e);
    FirstIsFound(t.levels, next, e.key, snap, r, e, c.level + 1, f);
  }

  lemma HomeOfIs(s: State, snap: nat, e: Entry)
    requires NewestHere(s, snap, e)
    ensures e.seqno <= snap
  {
  }

  // A live input that is dropped is a deletion marker at its base level.
  lemma LostIsMarker(s: State, a: Action, snap: nat, e: Entry)
    requires Inv(s) && (a.Merge? || a.TrivialMove?) && Allowed(s, a) && SmallestSnapshot(s) <= snap
    requires NewestHere(s, snap, e) && e in Inputs(CompactionOf(a)) && e !in FilesContent(Outputs(a))
    ensures Lost(s.levels, CompactionOf(a), a.Merge?, SmallestSnapshot(s), e)
    ensures a.Merge? && e.op.Delete? && e.seqno <= SmallestSnapshot(s)
    ensures BaseLevel(s.levels, CompactionOf(a).level, e.key)
  {
    hide Inv, Chosen, BaseLevel, Live;
    CompactionReplaces(s, a);
    HasLevels(s.levels, CompactionOf(a));
    forall d | d in Inputs(CompactionOf(a)) ensures d in LevelsContent(s.levels) {
    }
  }

  // With a marker gone and nothing readable left behind above, readers come to the newest
  // entry left behind beside it, or to nothing.
  lemma BesideIsFound(s: State, a: Action, snap: nat, e: Entry, q: Option<Entry>, r: Option<Entry>)
    requires Inv(s) && (a.Merge? || a.TrivialMove?) && Allowed(s, a) && SmallestSnapshot(s) <= snap
    requires NewestHere(s, snap, e) && e in Inputs(CompactionOf(a)) && e !in FilesContent(Outputs(a))
    requires CompactionOf(a).level + 1 < |s.levels|
    requires IsNewest(StaysAbove(s.levels, CompactionOf(a)), e.key, snap, None)
    requires IsNewest(StaysBeside(s.levels, CompactionOf(a)), e.key, snap, q)
    requires LevelsRead(After(s, a).levels, e.key, snap, r)
    ensures if q.Some? then r.Some? && r.value.seqno == q.value.seqno else r.None?
  {
    hide Inv, Chosen, Replaces, Compacted, Allowed, After, NewestHere, LevelsRead, Numbered, Live, BaseLevel, Lost, Inputs;
    var c := CompactionOf(a);
    CompactionReplaces(s, a);
    HasLevels(s.levels, c);
    var next := StepNumbers(s, a);
    var t := After(s, a);
    CompactedAt(s.levels, c, Outputs(a));
    LostIsMarker(s, a, snap, e);
    forall m, g, d | 0 <= m < |t.levels| && g in t.levels[m] && d in g.entries && d.key == e.key && d.seqno <= snap
      ensures m == c.level + 1 && g in s.levels[m] - c.in1 {
      OnlyBeside(s, a, snap, e, m, g, d);
    }
    if q.Some? {
      var f :| f in s.levels[c.level + 1] - c.in1 && q.value in f.entries;
      forall g, d | g in t.levels[c.level + 1] && d in g.entries && d.key == e.key && d.seqno <= snap
        ensures d.seqno <= q.value.seqno {
        assert d in StaysBeside(s.levels, c);
      }
      FirstIsFound(t.levels, next, e.key, snap, r, q.value, c.level + 1, f);
    } else {
      forall d | d in LevelsContent(t.levels) ensures d.key != e.key || d.seqno > snap {
        var m: nat, g: Table :| m < |t.levels| && g in t.levels[m] && d in g.entries;
      }
      FoundIsStored(t.levels, e.key, snap, r);
    }
  }

  lemma OnlyBeside(s: State, a: Action, snap: nat, e: Entry, m: nat, g: Table, d: Entry)
    requires Inv(s) && (a.Merge? || a.TrivialMove?) && Allowed(s, a) && SmallestSnapshot(s) <= snap
    requires NewestHere(s, snap, e) && e in Inputs(CompactionOf(a)) && e !in FilesContent(Outputs(a))
    requires CompactionOf(a).level + 1 < |s.levels|
    requires IsNewest(StaysAbove(s.levels, CompactionOf(a)), e.key, snap, None)
    requires m < |After(s, a).levels| && g in After(s, a).levels[m] && d in g.entries && d.key == e.key && d.seqno <= snap
    ensures m == CompactionOf(a).level + 1 && g in s.levels[m] - CompactionOf(a).in1
  {
    hide Inv, Chosen, Replaces, Compacted, Allowed, After, NewestHere, Numbered, Live, BaseLevel, Inputs;
    var c := CompactionOf(a);
    CompactionReplaces(s, a);
    HasLevels(s.levels, c);
    CompactedAt(s.levels, c, Outputs(a));
    LostIsMarker(s, a, snap, e);
    NewestIs(s, snap, e);
    NotNewer(s, a, snap, e, m, g, d);
    LeftIsAbove(s.levels, c, g, d);
    if m < c.level {
      var h, k := InputFile(c, e);
      NothingAbove(s, snap, e, m, g, d, k, h);
    } else if m == c.level + 1 {
      if g in Outputs(a) {
        OutputsAreNewer(s, a, e, g, d);
      }
    } else if m > c.level {
      NotAtBase(s.levels, c.level, m, g, d);
    }
  }

  lemma LeftIsAbove(levels: seq<set<Table>>, c: Compaction, g: Table, d: Entry)
    requires c.level + 1 < |levels| && d in g.entries
    ensures g in levels[c.level] - c.in0 ==> d in StaysAbove(levels, c)
  {
  }

  // What a merge keeps of a dropped marker's key is newer than the marker.
  lemma OutputsAreNewer(s: State, a: Action, e: Entry, g: Table, d: Entry)
    requires Inv(s) && a.Merge? && Allowed(s, a)
    requires e in Inputs(a.c) && e !in FilesContent(a.outs) && e.seqno <= SmallestSnapshot(s)
    requires g in a.outs && d in g.entries && d.key == e.key
    ensures d.seqno > e.seqno
  {
    hide Inv, BaseLevel;
    assert d in FilesContent(a.outs);
    assert d in Inputs(a.c) && !Hidden(Inputs(a.c), SmallestSnapshot(s), d);
    HasLevels(s.levels, a.c);
    assert d in LevelsContent(s.levels) && e in LevelsContent(s.levels);
    if d.seqno == e.seqno {
      SameEntry(s, d, e);
    }
  }

  lemma SameEntry(s: State, d: Entry, e: Entry)
    requires Inv(s) && d in LevelsContent(s.levels) && e in LevelsContent(s.levels) && d.seqno == e.seqno
    ensures d == e
  {
  }

  lemma FoundAfter(s: State, a: Action, u: UserKey, snap: nat, q: Option<Entry>, x: Entry)
    requires Inv(s) && (a.Merge? || a.TrivialMove?) && Allowed(s, a)
    requires LevelsRead(After(s, a).levels, u, snap, q) && q.Some? && q.value.seqno == x.seqno
    requires x in LevelsContent(s.levels)
    ensures q == Some(x)
  {
    hide Inv, Chosen, Replaces, Compacted, Allowed, After, LevelsRead, Lost;
    CompactionReplaces(s, a);
    FoundIsStored(After(s, a).levels, u, snap, q);
    CompactContent(s.levels, CompactionOf(a), a.Merge?, SmallestSnapshot(s), Outputs(a));
    SameEntry(s, q.value, x);
  }

  lemma LeftIsStored(levels: seq<set<Table>>, c: Compaction)
    requires c.level + 1 < |levels|
    ensures StaysAbove(levels, c) <= LevelsContent(levels) && StaysBeside(levels, c) <= LevelsContent(levels)
  {
  }

  // What is left behind of a found input's key is older.
  lemma LeftAreOlder(s: State, a: Action, snap: nat, e: Entry, E: set<Entry>, r: Option<Entry>)
    requires Inv(s) && (a.Merge? || a.TrivialMove?) && Allowed(s, a) && CompactionOf(a).level + 1 < |s.levels|
    requires NewestHere(s, snap, e) && e in Inputs(CompactionOf(a)) && IsNewest(E, e.key, snap, r)
    requires E == StaysAbove(s.levels, CompactionOf(a)) || E == StaysBeside(s.levels, CompactionOf(a))
    ensures r.Some? ==> r.value.seqno < e.seqno && r.value in LevelsContent(s.levels)
    ensures forall x | IsNewest(E, e.key, snap, Some(x)) :: r == Some(x)
  {
    hide Inv, Chosen, Allowed, Live, LevelsContent, StaysAbove, StaysBeside, Inputs;
    LeftIsStored(s.levels, CompactionOf(a));
    forall x | IsNewest(E, e.key, snap, Some(x)) ensures r == Some(x) {
      SameEntry(s, r.value, x);
    }
    if r.Some? && r.value.seqno == e.seqno {
      SameEntry(s, r.value, e);
      InputIsNotLeft(s, a, e);
    }
  }

  lemma InputIsNotLeft(s: State, a: Action, e: Entry)
    requires Inv(s) && (a.Merge? || a.TrivialMove?) && Allowed(s, a) && CompactionOf(a).level + 1 < |s.levels|
    requires e in Inputs(CompactionOf(a))
    ensures e !in StaysAbove(s.levels, CompactionOf(a)) && e !in StaysBeside(s.levels, CompactionOf(a))
  {
    hide Inv, Chosen, Allowed, OneHome, Replaces, Inputs;
    var c := CompactionOf(a);
    CompactionReplaces(s, a);
    HasLevels(s.levels, c);
    var h, k := InputFile(c, e);
    HomesOf(s);
    forall g | g in s.levels[c.level] - c.in0 ensures e !in g.entries {
      NotInBoth(s.levels, k, h, c.level, g, e);
    }
    forall g | g in s.levels[c.level + 1] - c.in1 ensures e !in g.entries {
      NotInBoth(s.levels, k, h, c.level + 1, g, e);
    }
  }

  lemma NotInBoth(levels: seq<set<Table>>, l: nat, f: Table, m: nat, g: Table, e: Entry)
    requires OneHome(levels) && l < |levels| && m < |levels| && f in levels[l] && g in levels[m]
    requires (l != m || f != g) && e in f.entries
    ensures e !in g.entries
  {
  }

  lemma HomesOf(s: State)
    requires Inv(s)
    ensures OneHome(s.levels)
  {
  }

  lemma KeptIsNotLost(s: State, a: Action, e: Entry)
    requires (a.Merge? || a.TrivialMove?) && Allowed(s, a) && e in FilesContent(Outputs(a))
    ensures !Lost(s.levels, CompactionOf(a), a.Merge?, SmallestSnapshot(s), e)
  {
    hide Dropped;
    CompactionReplaces(s, a);
  }

  // What a read finds after a compaction when the levels were searched before it.
  lemma AfterLevelsRead(s: State, a: Action, snap: nat, e: Entry, q: Option<Entry>)
    requires Inv(s) && (a.Merge? || a.TrivialMove?) && Allowed(s, a) && SmallestSnapshot(s) <= snap <= s.last
    requires NewestHere(s, snap, e) && LevelsRead(After(s, a).levels, e.key, snap, q)
    ensures forall x | Exposed(s, a, snap, e, x) :: q == Some(x)
    ensures (forall x :: !Exposed(s, a, snap, e, x)) ==> q == Some(e) || (q.None? && e.op.Delete?)
  {
    hide Inv, Chosen, Replaces, Compacted, Allowed, After, LevelsRead, Numbered, Live, BaseLevel, Inputs;
    var c := CompactionOf(a);
    CompactionReplaces(s, a);
    if e !in Inputs(c) {
      BystanderIsFound(s, a, snap, e, q);
      FoundAfter(s, a, e.key, snap, q, e);
    } else {
      var above := NewestExists(StaysAbove(s.levels, c), e.key, snap);
      LeftAreOlder(s, a, snap, e, StaysAbove(s.levels, c), above);
      if above.Some? {
        AboveIsFound(s, a, snap, e, above.value, q);
        FoundAfter(s, a, e.key, snap, q, above.value);
        assert Exposed(s, a, snap, e, above.value);
      } else if e in FilesContent(Outputs(a)) {
        KeptIsFound(s, a, snap, e, q);
        FoundAfter(s, a, e.key, snap, q, e);
        KeptIsNotLost(s, a, e);
      } else {
        LostIsMarker(s, a, snap, e);
        var beside := NewestExists(StaysBeside(s.levels, c), e.key, snap);
        LeftAreOlder(s, a, snap, e, StaysBeside(s.levels, c), beside);
        BesideIsFound(s, a, snap, e, beside, q);
        if beside.Some? {
          FoundAfter(s, a, e.key, snap, q, beside.value);
          assert Exposed(s, a, snap, e, beside.value);
        }
      }
    }
  }

  // What a read finds after a compaction, from what it found before.
  lemma AfterRead(s: State, a: Action, u: UserKey, snap: nat, r: Option<Entry>, q: Option<Entry>)
    requires Inv(s) && (a.Merge? || a.TrivialMove?) && Allowed(s, a) && SmallestSnapshot(s) <= snap <= s.last
    requires StoreRead(s, u, snap, r) && StoreRead(After(s, a), u, snap, q)
    ensures r.None? ==> q.None?
    ensures r.Some? ==> r.value.key == u && forall x | Exposed(s, a, snap, r.value, x) :: q == Some(x)
    ensures r.Some? && (forall x :: !Exposed(s, a, snap, r.value, x)) ==> q == r || (q.None? && r.value.op.Delete?)
  {
    hide Inv, Chosen, Replaces, Compacted, Allowed, After, LevelsRead, Exposed, Replaces, IsNewest;
    BoundIsReadable(s);
    ReadIsNewest(s, u, snap, r);
    CompactionReplaces(s, a);
    ReadInMemory(s, After(s, a), u, snap, r, q);
    NewestHasKey(All(s), u, snap, r);
    if r.Some? && IsNewest(s.mem, u, snap, None) && IsNewest(ImmSet(s), u, snap, None) {
      OnlyInLevels(s, u, snap, r.value);
      AfterLevelsRead(s, a, snap, r.value, q);
    } else if r.Some? {
      MemoryIsNoInput(s, a, u, snap, r.value);
    } else {
      LevelsStayEmpty(s, a, u, snap, q);
    }
  }

  lemma NewestHasKey(E: set<Entry>, u: UserKey, snap: nat, r: Option<Entry>)
    requires IsNewest(E, u, snap, r)
    ensures r.Some? ==> r.value.key == u && r.value in E && r.value.seqno <= snap
  {
  }

  // Memtables are searched as before; only when they have nothing are the levels.
  lemma ReadInMemory(s: State, t: State, u: UserKey, snap: nat, r: Option<Entry>, q: Option<Entry>)
    requires Inv(s) && t.mem == s.mem && t.imm == s.imm
    requires StoreRead(s, u, snap, r) && StoreRead(t, u, snap, q)
    ensures IsNewest(s.mem, u, snap, None) && IsNewest(ImmSet(s), u, snap, None) ==> LevelsRead(t.levels, u, snap, q)
    ensures !(IsNewest(s.mem, u, snap, None) && IsNewest(ImmSet(s), u, snap, None)) ==> q == r && r.Some?
  {
    hide LevelsRead, LevelsInv, LogInv, Numbered, SnapshotInv;
    Ages(s);
    forall e, d | e in s.mem + ImmSet(s) && d in s.mem + ImmSet(s) && e.seqno == d.seqno ensures e == d {
      AllFromHist(s, e);
      AllFromHist(s, d);
    }
  }

  lemma OnlyInLevels(s: State, u: UserKey, snap: nat, e: Entry)
    requires Inv(s) && s.floor <= snap <= s.last && IsNewest(All(s), u, snap, Some(e))
    requires IsNewest(s.mem, u, snap, None) && IsNewest(ImmSet(s), u, snap, None)
    ensures NewestHere(s, snap, e)
  {
    hide Inv, Live;
    NewestIsLive(s, u, snap, e);
  }

  lemma MemoryIsNoInput(s: State, a: Action, u: UserKey, snap: nat, e: Entry)
    requires Inv(s) && (a.Merge? || a.TrivialMove?) && Allowed(s, a) && s.floor <= snap <= s.last
    requires IsNewest(All(s), u, snap, Some(e))
    requires !(IsNewest(s.mem, u, snap, None) && IsNewest(ImmSet(s), u, snap, None))
    ensures forall x :: !Exposed(s, a, snap, e, x)
  {
    hide Inv, Chosen, Allowed, Live;
    Ages(s);
    CompactionReplaces(s, a);
    HasLevels(s.levels, CompactionOf(a));
    assert e !in LevelsContent(s.levels);
    forall d | d in Inputs(CompactionOf(a)) ensures d in LevelsContent(s.levels) {
    }
  }

  lemma LevelsStayEmpty(s: State, a: Action, u: UserKey, snap: nat, q: Option<Entry>)
    requires (a.Merge? || a.TrivialMove?) && Allowed(s, a)
    requires IsNewest(All(s), u, snap, None) && LevelsRead(After(s, a).levels, u, snap, q)
    ensures q.None?
  {
    hide Chosen, Replaces, Compacted, Allowed, After, LevelsRead, Lost;
    CompactionReplaces(s, a);
    CompactContent(s.levels, CompactionOf(a), a.Merge?, SmallestSnapshot(s), Outputs(a));
    FoundIsStored(After(s, a).levels, u, snap, q);
  }

  // ---------- exactly when

  // A read finds what it found before; it may find nothing in place of a deletion marker.
  ghost predicate SameRead(r: Option<Entry>, q: Option<Entry>) {
    q == r || (q.None? && r.Some? && r.value.op.Delete?)
  }

  ghost predicate ReadsKept(s: State, a: Action)
    requires Allowed(s, a)
  {
    forall u, snap, r, q | SmallestSnapshot(s) <= snap <= s.last && StoreRead(s, u, snap, r)
        && StoreRead(After(s, a), u, snap, q) :: SameRead(r, q)
  }

  // A compaction step leaves every read at every allowed sequence number as it was if and only
  // if no entry readers may be after is taken from above an older one.
  lemma ReadsKeptIff(s: State, a: Action)
    requires Inv(s) && (a.Merge? || a.TrivialMove?) && Allowed(s, a)
    ensures ReadsKept(s, a) <==> SafeStep(s, a)
  {
    hide Inv, StoreRead, Allowed, After, Exposed;
    SafeIsUnexposed(s, a);
    if SafeStep(s, a) {
      forall u, snap, r, q | SmallestSnapshot(s) <= snap <= s.last && StoreRead(s, u, snap, r)
          && StoreRead(After(s, a), u, snap, q) ensures SameRead(r, q) {
        AfterRead(s, a, u, snap, r, q);
      }
    } else {
      var snap: nat, e, x :| SmallestSnapshot(s) <= snap <= s.last && Exposed(s, a, snap, e, x);
      var r, q := ExposedReads(s, a, snap, e, x);
    }
  }

  lemma SafeIsUnexposed(s: State, a: Action)
    requires Inv(s) && (a.Merge? || a.TrivialMove?) && Allowed(s, a)
    ensures SafeStep(s, a) <==>
            forall snap, e, x | SmallestSnapshot(s) <= snap <= s.last :: !Exposed(s, a, snap, e, x)
  {
    hide Inv, Chosen, Allowed, Live, Exposes;
    BoundIsReadable(s);
    CompactionReplaces(s, a);
    if !SafeStep(s, a) {
      var snap: nat, e, x :| SmallestSnapshot(s) <= snap <= |s.hist| && Live(s.hist, snap, e)
        && Exposes(s.levels, CompactionOf(a), a.Merge?, SmallestSnapshot(s), snap, e, x);
      assert Exposed(s, a, snap, e, x);
    }
  }

  // Some read finds the exposed entry in place of the one it was after.
  lemma ExposedReads(s: State, a: Action, snap: nat, e: Entry, x: Entry) returns (r: Option<Entry>, q: Option<Entry>)
    requires Inv(s) && (a.Merge? || a.TrivialMove?) && Allowed(s, a) && SmallestSnapshot(s) <= snap <= s.last
    requires Exposed(s, a, snap, e, x)
    ensures StoreRead(s, e.key, snap, r) && StoreRead(After(s, a), e.key, snap, q)
    ensures r == Some(e) && q == Some(x) && x.seqno < e.seqno
  {
    hide Inv, Chosen, Replaces, Compacted, Allowed, After, LevelsRead, Live, StoreRead;
    r := ReadExists(s, e.key, snap);
    q := ReadExists(After(s, a), e.key, snap);
    BoundIsReadable(s);
    ReadIsNewest(s, e.key, snap, r);
    LiveInputIsNewest(s, a, snap, e);
    NewestIsOne(s, e.key, snap, r, e);
    AfterRead(s, a, e.key, snap, r, q);
  }

  lemma LiveInputIsNewest(s: State, a: Action, snap: nat, e: Entry)
    requires Inv(s) && (a.Merge? || a.TrivialMove?) && Allowed(s, a)
    requires Live(s.hist, snap, e) && e.seqno <= snap && e in Inputs(CompactionOf(a))
    ensures IsNewest(All(s), e.key, snap, Some(e))
  {
    hide Inv, Chosen, Allowed;
    CompactionReplaces(s, a);
    HasLevels(s.levels, CompactionOf(a));
    assert e in LevelsContent(s.levels);
    AllFromHist(s, e);
    forall d | d in All(s) && d.key == e.key && d.seqno <= snap ensures d.seqno <= e.seqno {
      AllFromHist(s, d);
    }
  }

  lemma NewestIsOne(s: State, u: UserKey, snap: nat, r: Option<Entry>, e: Entry)
    requires Inv(s) && IsNewest(All(s), u, snap, r) && IsNewest(All(s), u, snap, Some(e))
    ensures r == Some(e)
  {
    hide Inv;
    assert r.Some?;
    AllFromHist(s, r.value);
    AllFromHist(s, e);
  }

  // Every search comes to an end.
  lemma ReadExists(s: State, u: UserKey, snap: nat) returns (r: Option<Entry>)
    ensures StoreRead(s, u, snap, r)
  {
    hide LevelsRead;
    r := NewestExists(s.mem, u, snap);
    if r.None? {
      r := NewestExists(ImmSet(s), u, snap);
      if r.None? {
        r := LevelsReadExists(s.levels, u, snap, 0);
      }
    }
  }

  lemma {:induction false} LevelsReadExists(levels: seq<set<Table>>, u: UserKey, snap: nat, l: nat) returns (r: Option<Entry>)
    requires l <= |levels| && forall m | 0 <= m < l :: IsNewest(FilesContent(levels[m]), u, snap, None)
    ensures LevelsRead(levels, u, snap, r)
    decreases |levels| - l
  {
    if l == |levels| {
      return None;
    }
    r := NewestExists(FilesContent(levels[l]), u, snap);
    if r.None? {
      r := LevelsReadExists(levels, u, snap, l + 1);
    } else if l == 0 {
      var f := LastReadable(levels[0], u, snap, r.value);
      r := NewestExists(Content(f.entries), u, snap);
      assert LevelRead(levels, 0, u, snap, r.value);
    } else {
      assert LevelRead(levels, l, u, snap, r.value);
    }
  }

  // The file of the largest number that has a readable entry.
  lemma {:induction false} LastReadable(files: set<Table>, u: UserKey, snap: nat, e: Entry) returns (f: Table)
    requires e in FilesContent(files) && e.key == u && e.seqno <= snap
    ensures f in files && !IsNewest(Content(f.entries), u, snap, None)
    ensures forall g | g in files && g.number > f.number :: IsNewest(Content(g.entries), u, snap, None)
    decreases |files|
  {
    f :| f in files && e in f.entries;
    assert e in Content(f.entries);
    var rest := set g | g in files && g.number > f.number && !IsNewest(Content(g.entries), u, snap, None);
    if rest != {} {
      var g :| g in rest;
      var d :| d in Content(g.entries) && d.key == u && d.seqno <= snap;
      assert d in FilesContent(rest) && f !in rest;
      SmallerSet(rest, files, f);
      f := LastReadable(rest, u, snap, d);
    }
    forall h | h in files && h.number > f.number ensures IsNewest(Content(h.entries), u, snap, None) {
      assert h in rest || IsNewest(Content(h.entries), u, snap, None);
    }
  }

  lemma SmallerSet(some: set<Table>, all: set<Table>, f: Table)
    requires some <= all && f in all && f !in some
    ensures |some| < |all|
  {
    Cardinality(some, all - {f});
  }

  lemma {:induction false} Cardinality(some: set<Table>, all: set<Table>)
    requires some <= all
    ensures |some| <= |all|
    decreases some
  {
    if f :| f in some {
      Cardinality(some - {f}, all - {f});
    }
  }

  // A sequence number a reader has: a live snapshot's, or the current one.
  predicate Reader(s: State, snap: nat) {
    snap == s.last || snap in s.snapshots
  }

  // DBImpl::Get answers every reader as before.
  ghost predicate AnswersKept(s: State, a: Action)
    requires Allowed(s, a)
  {
    forall u, snap, r, q | Reader(s, snap) && StoreRead(s, u, snap, r) && StoreRead(After(s, a), u, snap, q) ::
      Visible(q) == Visible(r)
  }

  // Every reader gets the answers it got if and only if no entry it is after is taken from
  // above an older one that looks different.
  lemma AnswersKeptIff(s: State, a: Action)
    requires Inv(s) && (a.Merge? || a.TrivialMove?) && Allowed(s, a)
    ensures AnswersKept(s, a) <==>
            forall snap, e, x | Reader(s, snap) && Exposed(s, a, snap, e, x) :: Visible(Some(x)) == Visible(Some(e))
  {
    hide Inv, StoreRead, Allowed, After, Exposed;
    BoundIsReadable(s);
    if forall snap, e, x | Reader(s, snap) && Exposed(s, a, snap, e, x) :: Visible(Some(x)) == Visible(Some(e)) {
      forall u, snap: nat, r, q | Reader(s, snap) && StoreRead(s, u, snap, r) && StoreRead(After(s, a), u, snap, q)
        ensures Visible(q) == Visible(r) {
        AfterRead(s, a, u, snap, r, q);
      }
    } else {
      var snap: nat, e, x :| Reader(s, snap) && Exposed(s, a, snap, e, x) && Visible(Some(x)) != Visible(Some(e));
      var r, q := ExposedReads(s, a, snap, e, x);
    }
  }

  // ---------- a run that returns a stale value

  const BIG: Bytes := seq(MIN_FILE_SIZE, _ => 3)
  const BIGGEST: nat := 25 * MIN_FILE_SIZE
  const V1: Entry := Entry(0.0, 1, Put([1]))
  const V2: Entry := Entry(0.0, 2, Put(seq(BIGGEST, _ => 2)))
  const V3: Entry := Entry(0.0, 3, Put(BIG))
  const T1: Table := File(5, 1, [V1])
  const T2: Table := File(7, BIGGEST, [V2])
  const T3: Table := File(9, MIN_FILE_SIZE, [V3])
  const HEAD: Table := File(10, MIN_FILE_SIZE, [V3])
  const TAIL: Table := File(11, BIGGEST, [V2])
  const BELOW: Table := File(12, MIN_FILE_SIZE, [V3])
  const LAST: Table := File(13, 1, [V1])

  lemma Extend(ss: seq<State>, acts: seq<Action>, a: Action) returns (st: seq<State>, at: seq<Action>)
    requires |ss| == |acts| + 1
    requires Run(ss, acts) && Allowed(ss[|acts|], a)
    ensures Run(st, at) && st == ss + [After(ss[|acts|], a)] && at == acts + [a]
  {
    st, at := ss + [After(ss[|acts|], a)], acts + [a];
  }

  // The levels before each of the two compactions.
  ghost function StaleBefore(): seq<set<Table>> {
    seq(NUM_LEVELS, i => if i == 0 then {T3} else if i == 1 then {T2} else if i == 2 then {T1} else {})
  }

  ghost function StaleBetween(): seq<set<Table>> {
    seq(NUM_LEVELS, i => if i == 1 then {HEAD, TAIL} else if i == 2 then {T1} else {})
  }

  // A table that meets one small file of level 2, and none above it, goes to level 1.
  lemma PickedAboveOne(levels: seq<set<Table>>, target: nat, f: Table, g: Table)
    requires |levels| == NUM_LEVELS && forall l, h | 0 <= l <= 1 && h in levels[l] :: Apart(f, h)
    requires g in levels[2] && !Apart(f, g) && forall h | h in levels[2] && h != g :: Apart(f, h)
    requires g.size <= 10 * target
    ensures PickedLevel(levels, target, f, 1)
  {
    assert (set h | h in levels[0 + 2] && !Apart(f, h)) == {g};
    TotalSizeWithout({g}, g);
    assert {g} - {g} == {};
    assert Meeting(levels, 2, f);
  }

  // One put, moved on into a table at the level.
  lemma PutAndFlush(ss: seq<State>, acts: seq<Action>, w: Write, level: nat, f: Table)
    returns (st: seq<State>, at: seq<Action>)
    requires |ss| == |acts| + 1 && Run(ss, acts)
    requires var s := ss[|acts|];
             && s.pending == [] && s.imm == None && s.mem == {}
             && f.entries == [Entry(w.key, s.last + 1, w.op)] && f.number == s.nextFile + 1
             && PickedLevel(s.levels, s.target, f, level)
    ensures |st| == |at| + 1 && Run(st, at) && ss <= st && acts <= at
    ensures var s, t := ss[|acts|], st[|at|];
            && t.pending == [] && t.imm == None && t.mem == {} && t.hist == s.hist + [w] && t.last == s.last + 1
            && t.nextFile == s.nextFile + 2 && t.levels == AddFile(s.levels, level, f)
            && t.snapshots == s.snapshots && t.floor == s.floor && t.target == s.target
  {
    hide Run, FlushLevelOk, PickedLevel;
    var s := ss[|acts|];
    assert Stamp(s.last, [w]) == f.entries;
    st, at := Extend(ss, acts, Append([w]));
    st, at := Extend(st, at, Apply);
    assert st[|at|].mem == Content(f.entries);
    st, at := Extend(st, at, SwitchMemTable);
    SingleContent(f, f.entries[0]);
    st, at := Extend(st, at, Flush(level, Some(f)));
  }

  // Three puts of one key, the last one of a big value and after a snapshot; each is pushed
  // down as far as the files already there allow.
  lemma ThreePuts() returns (ss: seq<State>, acts: seq<Action>)
    ensures |ss| == |acts| + 1 && Run(ss, acts)
    ensures var s := ss[|acts|];
            && s.hist == [Write(0.0, V1.op), Write(0.0, V2.op), Write(0.0, V3.op)] && s.last == 3
            && s.mem == {} && s.imm == None && s.snapshots == [2] && s.nextFile == 10
            && s.floor == 0 && s.target == MIN_FILE_SIZE
            && s.levels == StaleBefore()
  {
    hide Run, After, Allowed;
    ss, acts := [Initial(MIN_FILE_SIZE)], [];
    StartsRun();
    ss, acts := PutAndFlush(ss, acts, Write(0.0, V1.op), 2, T1);
    PickedAboveOne(ss[|acts|].levels, MIN_FILE_SIZE, T2, T1);
    ss, acts := PutAndFlush(ss, acts, Write(0.0, V2.op), 1, T2);
    SnapshotIsAllowed(ss[|acts|]);
    ss, acts := Extend(ss, acts, TakeSnapshot);
    ss, acts := PutAndFlush(ss, acts, Write(0.0, V3.op), 0, T3);
    var levels := ss[|acts|].levels;
    assert levels[0] == {T3} && levels[1] == {T2} && levels[2] == {T1};
    assert forall i | 3 <= i < NUM_LEVELS :: levels[i] == {};
  }

  lemma StartsRun()
    ensures Run([Initial(MIN_FILE_SIZE)], [])
  {
  }

  lemma SnapshotIsAllowed(s: State)
    ensures Allowed(s, TakeSnapshot) && After(s, TakeSnapshot) == s.(snapshots := s.snapshots + [s.last])
  {
  }

  lemma SingleContent(f: Table, e: Entry)
    requires f.entries == [e]
    ensures FilesContent({f}) == {e} && Content(f.entries) == {e}
  {
    assert f.entries[0] in f.entries;
  }

  const FIRST: Action := Merge(Compaction(0, {T3}, {T2}), {HEAD, TAIL}, 12)
  const SECOND: Action := Merge(Compaction(1, {HEAD}, {T1}), {BELOW, LAST}, 14)

  // The snapshot needs both entries, and the output is full after the big one.
  lemma FirstMerge(s: State)
    requires s.levels == StaleBefore()
    requires s.snapshots == [2] && s.nextFile == 10 && s.target == MIN_FILE_SIZE
    ensures Allowed(s, FIRST)
    ensures After(s, FIRST).levels
         == StaleBetween()
  {
    hide Chosen, Survivors, Cuts;
    FirstKeeps(s.levels);
    FirstCuts(s.levels);
    FirstChosen(s.levels);
    var t := After(s, FIRST);
    assert t.levels[0] == {} && t.levels[1] == {HEAD, TAIL};
  }

  lemma FirstChosen(levels: seq<set<Table>>)
    requires levels == StaleBefore()
    ensures Chosen(levels, FIRST.c)
  {
  }

  lemma FirstCuts(levels: seq<set<Table>>)
    ensures PairwiseBefore({HEAD, TAIL}) && Cuts(levels, FIRST.c, MIN_FILE_SIZE, {HEAD, TAIL})
  {
    assert FileBefore(HEAD, TAIL) && !FileBefore(TAIL, HEAD);
  }

  lemma FirstKeeps(levels: seq<set<Table>>)
    ensures FilesContent({HEAD, TAIL}) == Survivors(levels, FIRST.c, 2)
  {
    hide BaseLevel;
    SingleContent(T3, V3);
    SingleContent(T2, V2);
    SingleContent(HEAD, V3);
    SingleContent(TAIL, V2);
    assert Inputs(FIRST.c) == FilesContent({T3}) + FilesContent({T2}) == {V3, V2};
    assert FilesContent({HEAD, TAIL}) == FilesContent({HEAD}) + FilesContent({TAIL});
  }

  // The next compaction takes the first of the two outputs only: that is as much as one
  // compaction of a range may take, and with the file below too much to take the second too.
  lemma SecondMerge(s: State)
    requires s.levels == StaleBetween()
    requires s.snapshots == [2] && s.nextFile == 12 && s.target == MIN_FILE_SIZE
    ensures Allowed(s, SECOND)
    ensures After(s, SECOND).levels
         == seq(NUM_LEVELS, i => if i == 1 then {TAIL} else if i == 2 then {BELOW, LAST} else {})
  {
    hide Survivors, Cuts;
    SecondKeeps(s.levels);
    SecondCuts(s.levels);
    var t := After(s, SECOND);
    assert t.levels[1] == {TAIL} && t.levels[2] == {BELOW, LAST};
  }

  lemma SecondCuts(levels: seq<set<Table>>)
    ensures PairwiseBefore({BELOW, LAST}) && Cuts(levels, SECOND.c, MIN_FILE_SIZE, {BELOW, LAST})
  {
    assert FileBefore(BELOW, LAST) && !FileBefore(LAST, BELOW);
  }

  lemma SecondKeeps(levels: seq<set<Table>>)
    ensures FilesContent({BELOW, LAST}) == Survivors(levels, SECOND.c, 2)
  {
    hide BaseLevel;
    SingleContent(HEAD, V3);
    SingleContent(T1, V1);
    SingleContent(BELOW, V3);
    SingleContent(LAST, V1);
    assert Inputs(SECOND.c) == FilesContent({HEAD}) + FilesContent({T1}) == {V3, V1};
    assert FilesContent({BELOW, LAST}) == FilesContent({BELOW}) + FilesContent({LAST});
  }

  // A reachable state in which a read of the latest write returns the one before it: a
  // compaction under a live snapshot cuts its output between two entries of one user key, and
  // the next one, of a range limited in size, takes only the newer entry a level down.
  lemma StaleRead() returns (ss: seq<State>, acts: seq<Action>, r: Option<Entry>)
    ensures |ss| == |acts| + 1 && Run(ss, acts)
    ensures var n := |acts|;
            && n >= 2 && acts[n - 2] == FIRST && acts[n - 1] == SECOND && ss[n - 1].target == MIN_FILE_SIZE
            && ss[n - 2].levels == StaleBefore() && ss[n - 1].levels == StaleBetween()
    ensures var s := ss[|acts|];
            && s.floor <= s.last == |s.hist|
            && StoreRead(s, 0.0, s.last, r)
            && Visible(r) == Some(seq(BIGGEST, _ => 2))
            && RefGet(s.hist, 0.0, s.last) == Some(BIG)
  {
    hide Run, Chosen, Survivors, PairwiseBefore, Compacted, Cuts;
    ss, acts := ThreePuts();
    FirstMerge(ss[|acts|]);
    ss, acts := Extend(ss, acts, FIRST);
    SecondMerge(ss[|acts|]);
    ss, acts := Extend(ss, acts, SECOND);
    r := Some(V2);
    StaleLevels(ss[|acts|].levels);
    assert RefGet(ss[|acts|].hist, 0.0, 3) == Some(BIG);
  }

  lemma StaleLevels(levels: seq<set<Table>>)
    requires levels == seq(NUM_LEVELS, i => if i == 1 then {TAIL} else if i == 2 then {BELOW, LAST} else {})
    ensures LevelsRead(levels, 0.0, 3, Some(V2))
  {
    SingleContent(TAIL, V2);
    assert LevelRead(levels, 1, 0.0, 3, V2);
  }
}
