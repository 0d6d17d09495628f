/**
 Tables and levels (db/version_set): what the levels always satisfy, and that flushing a
 memtable and replacing the inputs of a compaction keep it.
 */
module Levels {
  import opened Coding
  import opened Entries

  // max_file_size is never set below this.
  const MIN_FILE_SIZE: nat := 0x10_0000
  const MAX_MEM_COMPACT_LEVEL := 2

  // ---------- tables

  datatype File = File(number: nat, size: nat, entries: seq<Entry>) {
    ghost predicate WF() {
      entries != [] && Sorted(entries)
    }

    function Smallest(): Entry
      requires entries != []
    {
      entries[0]
    }

    function Largest(): Entry
      requires entries != []
    {
      entries[|entries| - 1]
    }

    function Lo(): UserKey
      requires entries != []
    {
      Smallest().key
    }

    function Hi(): UserKey
      requires entries != []
    {
      Largest().key
    }
  }

  type Table = f: File | f.WF() witness File(0, 0, [Entry(0.0, 0, Delete)])

  // f lies wholly before g in internal key order.
  predicate FileBefore(f: Table, g: Table) {
    Before(f.Largest(), g.Smallest())
  }

  // No user key can be in both files.
  predicate Apart(f: Table, g: Table) {
    f.Hi() < g.Lo() || g.Hi() < f.Lo()
  }

  // f does not meet the user-key range spanned by S.
  ghost predicate Outside(f: Table, S: set<Table>) {
    || (forall g | g in S :: f.Hi() < g.Lo())
    || (forall g | g in S :: g.Hi() < f.Lo())
  }

  predicate Covers(f: Table, u: UserKey) {
    f.Lo() <= u <= f.Hi()
  }

  ghost function FilesContent(S: set<Table>): set<Entry> {
    set f, e | f in S && e in f.entries :: e
  }

  lemma InRange(f: Table, e: Entry)
    requires e in f.entries
    ensures f.Lo() <= e.key <= f.Hi()
  {
    var i :| 0 <= i < |f.entries| && f.entries[i] == e;
    assert i > 0 ==> Before(f.entries[0], f.entries[i]);
    assert i < |f.entries| - 1 ==> Before(f.entries[i], f.entries[|f.entries| - 1]);
  }

  lemma EndsInContent(S: set<Table>, f: Table)
    requires f in S
    ensures f.Smallest() in FilesContent(S) && f.Largest() in FilesContent(S)
  {
    assert f.entries[0] in f.entries && f.entries[|f.entries| - 1] in f.entries;
  }

  ghost function LevelsContent(levels: seq<set<Table>>): set<Entry> {
    set l, f, e | 0 <= l < |levels| && f in levels[l] && e in f.entries :: e
  }

  // ---------- what the levels always satisfy

  // Levels above 0 hold files that follow one another in internal key order.
  ghost predicate SortedLevels(levels: seq<set<Table>>) {
    forall l, f, g | 1 <= l < |levels| && f in levels[l] && g in levels[l] && f != g ::
      FileBefore(f, g) || FileBefore(g, f)
  }

  ghost predicate FromHist(hist: seq<Write>, flushed: nat, levels: seq<set<Table>>) {
    forall e | e in LevelsContent(levels) ::
      1 <= e.seqno <= flushed <= |hist| && e == EntryAt(hist, e.seqno)
  }

  // Write n is hidden from every reader at or above floor by a later write.
  ghost predicate Superseded(hist: seq<Write>, floor: nat, n: nat)
    requires 1 <= n <= |hist|
  {
    exists m | n < m <= |hist| && m <= floor :: EntryAt(hist, m).key == EntryAt(hist, n).key
  }

  // The newest write of its key at some sequence number at or above floor.
  ghost predicate Live(hist: seq<Write>, floor: nat, e: Entry) {
    1 <= e.seqno <= |hist| && !Superseded(hist, floor, e.seqno)
  }

  // What f holds of a user key is newer than what readers can still find of it in g.
  ghost predicate Newer(hist: seq<Write>, floor: nat, f: Table, g: Table) {
    forall e, d | e in f.entries && d in g.entries && e.key == d.key && Live(hist, floor, d) :: e.seqno > d.seqno
  }

  // Going down the levels, and in level 0 by file number, no live entry lies below an older
  // one of its user key.
  ghost predicate Ordered(hist: seq<Write>, floor: nat, levels: seq<set<Table>>) {
    && (forall l, m, f, g | 0 <= l < m < |levels| && f in levels[l] && g in levels[m] :: Newer(hist, floor, f, g))
    && (|levels| > 0 ==>
          forall f, g | f in levels[0] && g in levels[0] && f.number > g.number :: Newer(hist, floor, f, g))
  }

  // No entry is stored in two files.
  ghost predicate OneHome(levels: seq<set<Table>>) {
    forall l, m, f, g, e | 0 <= l < |levels| && 0 <= m < |levels| && f in levels[l] && g in levels[m]
        && e in f.entries && e in g.entries :: l == m && f == g
  }

  // Write n was a deletion whose marker is gone together with all it had to hide.
  ghost predicate Gone(hist: seq<Write>, floor: nat, n: nat, E: set<Entry>)
    requires 1 <= n <= |hist|
  {
    && EntryAt(hist, n).op.Delete?
    && n <= floor
    && forall e | e in E && e.key == EntryAt(hist, n).key :: e.seqno >= n
  }

  ghost predicate Complete(hist: seq<Write>, floor: nat, flushed: nat, levels: seq<set<Table>>)
    requires flushed <= |hist|
  {
    forall n | 1 <= n <= flushed ::
      || Superseded(hist, floor, n)
      || EntryAt(hist, n) in LevelsContent(levels)
      || Gone(hist, floor, n, LevelsContent(levels))
  }

  ghost predicate LevelsInv(hist: seq<Write>, floor: nat, flushed: nat, levels: seq<set<Table>>) {
    && |levels| == NUM_LEVELS
    && flushed <= |hist|
    && FromHist(hist, flushed, levels)
    && Complete(hist, floor, flushed, levels)
    && SortedLevels(levels)
    && Ordered(hist, floor, levels)
    && OneHome(levels)
  }

  // Each file number names one file in one level.
  ghost predicate Numbered(levels: seq<set<Table>>, next: nat) {
    && (forall l, f | 0 <= l < |levels| && f in levels[l] :: f.number < next)
    && (forall l, m, f, g | 0 <= l < |levels| && 0 <= m < |levels| && f in levels[l] && g in levels[m]
          && f.number == g.number :: l == m && f == g)
  }

  // The entries of writes lo+1 .. hi.
  function SpanSeq(hist: seq<Write>, lo: nat, hi: nat): (es: seq<Entry>)
    requires lo <= hi <= |hist|
    ensures |es| == hi - lo
    ensures forall i | 0 <= i < |es| :: es[i] == EntryAt(hist, lo + 1 + i)
  {
    seq(hi - lo, i requires 0 <= i < hi - lo => EntryAt(hist, lo + 1 + i))
  }

  ghost function Span(hist: seq<Write>, lo: nat, hi: nat): set<Entry>
    requires lo <= hi <= |hist|
  {
    set n | lo < n <= hi :: EntryAt(hist, n)
  }

  // ---------- adding the table of a flush

  // A level where a table disturbs no order.
  ghost predicate FlushLevelOk(levels: seq<set<Table>>, f: Table, level: nat) {
    && level <= MAX_MEM_COMPACT_LEVEL < |levels|
    && (level > 0 ==> forall l, g | 0 <= l <= level && g in levels[l] :: Apart(f, g))
  }

  ghost function TotalSize(S: set<Table>): nat {
    if S == {} then 0
    else
      var f :| f in S;
      f.size + TotalSize(S - {f})
  }

  lemma {:induction false} TotalSizeWithout(S: set<Table>, f: Table)
    requires f in S
    ensures TotalSize(S) == f.size + TotalSize(S - {f})
  {
    var g :| g in S && TotalSize(S) == g.size + TotalSize(S - {g});
    if f != g {
      TotalSizeWithout(S - {g}, f);
      TotalSizeWithout(S - {f}, g);
      assert S - {g} - {f} == S - {f} - {g};
    }
  }

  ghost predicate Meeting(levels: seq<set<Table>>, l: nat, f: Table)
    requires l < |levels|
  {
    exists g | g in levels[l] :: !Apart(f, g)
  }

  // The files two levels below that meet f hold too many bytes.
  ghost predicate TooMuchBelow(levels: seq<set<Table>>, target: nat, l: nat, f: Table) {
    l + 2 < |levels| && TotalSize(set g | g in levels[l + 2] && !Apart(f, g)) > 10 * target
  }

  // The level PickLevelForMemTableOutput gives a table: it is pushed down while the next level
  // has no overlap and the one after that not too much.
  ghost predicate PickedLevel(levels: seq<set<Table>>, target: nat, f: Table, level: nat) {
    && FlushLevelOk(levels, f, level)
    && (forall l | 0 <= l < level :: !TooMuchBelow(levels, target, l, f))
    && (level < MAX_MEM_COMPACT_LEVEL ==>
          Meeting(levels, 0, f) || Meeting(levels, level + 1, f) || TooMuchBelow(levels, target, level, f))
  }

  lemma PickedLevelIsUnique(levels: seq<set<Table>>, target: nat, f: Table, a: nat, b: nat)
    requires PickedLevel(levels, target, f, a) && PickedLevel(levels, target, f, b)
    ensures a == b
  {
    hide TooMuchBelow, Apart;
  }

  ghost function AddFile(levels: seq<set<Table>>, l: nat, f: Table): (r: seq<set<Table>>)
    requires l < |levels|
    ensures |r| == |levels|
  {
    levels[l := levels[l] + {f}]
  }

  lemma ApartSharesNoKey(f: Table, g: Table)
    requires Apart(f, g)
    ensures forall e, d | e in f.entries && d in g.entries :: e.key != d.key
    ensures FileBefore(f, g) || FileBefore(g, f)
  {
    forall e, d | e in f.entries && d in g.entries ensures e.key != d.key {
      InRange(f, e);
      InRange(g, d);
    }
  }

  lemma AddFileContent(levels: seq<set<Table>>, l: nat, f: Table)
    requires l < |levels|
    ensures LevelsContent(AddFile(levels, l, f)) == LevelsContent(levels) + Content(f.entries)
  {
    var after := AddFile(levels, l, f);
    forall e | e in LevelsContent(levels) ensures e in LevelsContent(after) {
      var m: nat, g: Table :| m < |levels| && g in levels[m] && e in g.entries;
      assert g in after[m];
    }
    assert f in after[l];
  }

  // f holds exactly the writes flushed+1 .. upto and is placed at an admissible level.
  ghost predicate Flushable(hist: seq<Write>, flushed: nat, upto: nat,
                            levels: seq<set<Table>>, next: nat, level: nat, f: Table) {
    && flushed <= upto <= |hist|
    && Content(f.entries) == Span(hist, flushed, upto)
    && f.number >= next
    && FlushLevelOk(levels, f, level)
  }

  lemma FlushedIsNewest(hist: seq<Write>, flushed: nat, upto: nat, levels: seq<set<Table>>,
                        f: Table, l: nat, g: Table)
    requires flushed <= upto <= |hist|
    requires FromHist(hist, flushed, levels)
    requires Content(f.entries) == Span(hist, flushed, upto)
    requires l < |levels| && g in levels[l]
    ensures forall e, d | e in f.entries && d in g.entries :: e.seqno > d.seqno
  {
    forall e, d | e in f.entries && d in g.entries ensures e.seqno > d.seqno {
      assert d in LevelsContent(levels);
      assert e in Content(f.entries);
    }
  }

  lemma FlushKeepsOrdered(hist: seq<Write>, floor: nat, flushed: nat, upto: nat,
                          levels: seq<set<Table>>, next: nat, level: nat, f: Table)
    requires LevelsInv(hist, floor, flushed, levels) && Numbered(levels, next)
    requires Flushable(hist, flushed, upto, levels, next, level, f)
    ensures Ordered(hist, floor, AddFile(levels, level, f))
  {
    hide Live, Span, Sorted, Complete, FromHist, SortedLevels, OneHome, Newer, Apart;
    var after := AddFile(levels, level, f);
    FromHistIs(hist, floor, flushed, levels);
    forall l, g | 0 <= l < |levels| && g in levels[l] ensures Newer(hist, floor, f, g) {
      FlushedIsNewest(hist, flushed, upto, levels, f, l, g);
      NewerIfAllAre(hist, floor, f, g);
    }
    forall l, m, g, h | 0 <= l < m < |after| && g in after[l] && h in after[m]
      ensures Newer(hist, floor, g, h)
    {
      if h !in levels[m] {
        assert h == f && m == level && g in levels[l];
        ApartIsNewer(hist, floor, f, g);
      } else if g in levels[l] {
        assert Newer(hist, floor, g, h);
      }
    }
  }

  lemma NewerIfAllAre(hist: seq<Write>, floor: nat, f: Table, g: Table)
    requires forall e, d | e in f.entries && d in g.entries :: e.seqno > d.seqno
    ensures Newer(hist, floor, f, g)
  {
  }

  lemma ApartIsNewer(hist: seq<Write>, floor: nat, f: Table, g: Table)
    requires Apart(f, g)
    ensures Newer(hist, floor, g, f)
  {
    ApartSharesNoKey(f, g);
  }

  lemma FlushKeepsHomes(hist: seq<Write>, flushed: nat, upto: nat,
                        levels: seq<set<Table>>, level: nat, f: Table)
    requires flushed <= upto <= |hist| && level < |levels|
    requires FromHist(hist, flushed, levels) && OneHome(levels)
    requires Content(f.entries) == Span(hist, flushed, upto)
    ensures OneHome(AddFile(levels, level, f))
  {
    hide Span, FromHist;
    var after := AddFile(levels, level, f);
    forall l: nat, m: nat, g: Table, h: Table, e: Entry | 0 <= l < |after| && 0 <= m < |after| && g in after[l] && h in after[m]
        && e in g.entries && e in h.entries ensures l == m && g == h {
      if g !in levels[l] && h in levels[m] {
        FlushedIsNewest(hist, flushed, upto, levels, f, m, h);
      } else if g in levels[l] && h !in levels[m] {
        FlushedIsNewest(hist, flushed, upto, levels, f, l, g);
      }
    }
  }

  lemma FromHistIs(hist: seq<Write>, floor: nat, flushed: nat, levels: seq<set<Table>>)
    requires LevelsInv(hist, floor, flushed, levels)
    ensures FromHist(hist, flushed, levels)
  {
  }

  lemma FlushKeepsSorted(levels: seq<set<Table>>, level: nat, f: Table)
    requires SortedLevels(levels)
    requires FlushLevelOk(levels, f, level)
    ensures SortedLevels(AddFile(levels, level, f))
  {
    var after := AddFile(levels, level, f);
    forall l, g, h | 1 <= l < |after| && g in after[l] && h in after[l] && g != h
      ensures FileBefore(g, h) || FileBefore(h, g)
    {
      if g !in levels[l] {
        ApartSharesNoKey(f, h);
      } else if h !in levels[l] {
        ApartSharesNoKey(f, g);
      }
    }
  }

  lemma FlushKeepsContent(hist: seq<Write>, floor: nat, flushed: nat, upto: nat,
                          levels: seq<set<Table>>, level: nat, f: Table)
    requires flushed <= upto <= |hist| && level < |levels|
    requires FromHist(hist, flushed, levels) && Complete(hist, floor, flushed, levels)
    requires Content(f.entries) == Span(hist, flushed, upto)
    ensures FromHist(hist, upto, AddFile(levels, level, f))
    ensures Complete(hist, floor, upto, AddFile(levels, level, f))
  {
    var before := LevelsContent(levels);
    var after := LevelsContent(AddFile(levels, level, f));
    AddFileContent(levels, level, f);
    forall n | 1 <= n <= upto && !Superseded(hist, floor, n)
      ensures EntryAt(hist, n) in after || Gone(hist, floor, n, after)
    {
      if n > flushed {
        assert EntryAt(hist, n) in Span(hist, flushed, upto);
      }
    }
  }

  lemma FlushKeepsNumbered(levels: seq<set<Table>>, next: nat, level: nat, f: Table)
    requires Numbered(levels, next) && level < |levels| && f.number >= next
    ensures Numbered(AddFile(levels, level, f), f.number + 1)
  {
    hide Sorted;
    var after := AddFile(levels, level, f);
    forall l, g | 0 <= l < |after| && g in after[l] ensures if g == f then l == level else g in levels[l] && g.number < next {
    }
  }

  // A table holding the writes flushed+1 .. upto, placed as PickLevelForMemTableOutput allows,
  // keeps everything the levels satisfy.
  lemma FlushKeepsLevels(hist: seq<Write>, floor: nat, flushed: nat, upto: nat,
                         levels: seq<set<Table>>, next: nat, level: nat, f: Table)
    requires LevelsInv(hist, floor, flushed, levels) && Numbered(levels, next)
    requires Flushable(hist, flushed, upto, levels, next, level, f)
    ensures LevelsInv(hist, floor, upto, AddFile(levels, level, f))
    ensures Numbered(AddFile(levels, level, f), f.number + 1)
  {
    hide Ordered, SortedLevels, FromHist, Complete, AddFile, Numbered, Span, Sorted, Apart, OneHome;
    FlushKeepsNumbered(levels, next, level, f);
    FlushKeepsOrdered(hist, floor, flushed, upto, levels, next, level, f);
    FlushKeepsSorted(levels, level, f);
    FlushKeepsHomes(hist, flushed, upto, levels, level, f);
    FlushKeepsContent(hist, floor, flushed, upto, levels, level, f);
  }

  // ---------- compaction

  datatype Compaction = Compaction(level: nat, in0: set<Table>, in1: set<Table>)

  // What picking the inputs guarantees: the next level's inputs are all its files that meet
  // the key range of the chosen files; in level 0 that range has no file left behind.
  ghost predicate Chosen(levels: seq<set<Table>>, c: Compaction) {
    && c.level + 1 < |levels|
    && c.in0 != {} && c.in0 <= levels[c.level]
    && c.in1 == (set f | f in levels[c.level + 1] && !Outside(f, c.in0))
    && (c.level == 0 ==> forall f | f in levels[0] && !Outside(f, c.in0) :: f in c.in0)
  }

  // No file left behind shares a user key with an input of its own level.
  ghost predicate UserClosed(levels: seq<set<Table>>, c: Compaction)
    requires c.level + 1 < |levels|
  {
    && (forall g, h | g in levels[c.level] && g !in c.in0 && h in c.in0 :: Apart(g, h))
    && (forall g, h | g in levels[c.level + 1] && g !in c.in1 && h in c.in1 :: Apart(g, h))
  }

  // Files of one level above 0 share no user key.
  ghost predicate UserDisjoint(levels: seq<set<Table>>) {
    forall l, f, g | 1 <= l < |levels| && f in levels[l] && g in levels[l] && f != g :: Apart(f, g)
  }

  ghost function Inputs(c: Compaction): set<Entry> {
    FilesContent(c.in0 + c.in1)
  }

  // Compaction::IsBaseLevelForKey
  ghost predicate BaseLevel(levels: seq<set<Table>>, level: nat, u: UserKey) {
    forall l, f | level + 2 <= l < |levels| && f in levels[l] :: !Covers(f, u)
  }

  // Rule (A) of DoCompactionWork: hidden by a newer input entry every reader can see.
  ghost predicate Hidden(input: set<Entry>, smallest: nat, e: Entry) {
    exists d | d in input :: d.key == e.key && e.seqno < d.seqno <= smallest
  }

  ghost predicate Dropped(levels: seq<set<Table>>, c: Compaction, smallest: nat, e: Entry) {
    || Hidden(Inputs(c), smallest, e)
    || (e.op.Delete? && e.seqno <= smallest && BaseLevel(levels, c.level, e.key))
  }

  ghost function Survivors(levels: seq<set<Table>>, c: Compaction, smallest: nat): set<Entry> {
    set e | e in Inputs(c) && !Dropped(levels, c, smallest, e)
  }

  ghost predicate PairwiseBefore(S: set<Table>) {
    forall f, g | f in S && g in S && f != g :: FileBefore(f, g) || FileBefore(g, f)
  }

  // Whether a compaction that drops entries drops e.
  ghost predicate Lost(levels: seq<set<Table>>, c: Compaction, drops: bool, smallest: nat, e: Entry) {
    drops && Dropped(levels, c, smallest, e)
  }

  // outs replaces the inputs: what the drop rules keep of them, or all of it for a move.
  ghost predicate Replaces(levels: seq<set<Table>>, c: Compaction, drops: bool, smallest: nat, outs: set<Table>) {
    && PairwiseBefore(outs)
    && FilesContent(outs) == if drops then Survivors(levels, c, smallest) else Inputs(c)
  }

  // ---------- where outputs are cut

  function TotalFileSize(files: seq<Table>): nat {
    if files == [] then 0 else TotalFileSize(files[..|files| - 1]) + files[|files| - 1].size
  }

  ghost predicate InOrder(files: seq<Table>) {
    forall i, j | 0 <= i < j < |files| :: FileBefore(files[i], files[j])
  }

  // Files of the level after the next that lie before the next key.
  ghost predicate Passed(levels: seq<set<Table>>, c: Compaction, passed: seq<Table>, next: Entry) {
    && c.level + 2 < |levels| && InOrder(passed)
    && forall h | h in passed :: h in levels[c.level + 2] && Before(h.Largest(), next)
  }

  // An output is closed before the next key when it is big enough, or when too much of the
  // level after the next was passed.
  ghost predicate CutOk(levels: seq<set<Table>>, c: Compaction, target: nat, f: Table, next: Entry) {
    f.size >= target || exists passed | Passed(levels, c, passed, next) :: TotalFileSize(passed) > 10 * target
  }

  ghost predicate Cuts(levels: seq<set<Table>>, c: Compaction, target: nat, outs: set<Table>) {
    forall f, g | f in outs && g in outs && FileBefore(f, g)
        && (forall h | h in outs :: h == f || h == g || FileBefore(h, f) || FileBefore(g, h)) ::
      CutOk(levels, c, target, f, g.Smallest())
  }

  ghost function Compacted(levels: seq<set<Table>>, c: Compaction, outs: set<Table>): seq<set<Table>>
    requires c.level + 1 < |levels|
  {
    levels[c.level := levels[c.level] - c.in0][c.level + 1 := levels[c.level + 1] - c.in1 + outs]
  }

  lemma CompactedAt(levels: seq<set<Table>>, c: Compaction, outs: set<Table>)
    requires c.level + 1 < |levels|
    ensures var after := Compacted(levels, c, outs);
            && |after| == |levels|
            && (forall m | 0 <= m < |levels| && m != c.level && m != c.level + 1 :: after[m] == levels[m])
            && after[c.level] == levels[c.level] - c.in0
            && after[c.level + 1] == levels[c.level + 1] - c.in1 + outs
  {
  }

  // ---------- what is left behind

  ghost function StaysAbove(levels: seq<set<Table>>, c: Compaction): set<Entry>
    requires c.level + 1 < |levels|
  {
    FilesContent(levels[c.level] - c.in0)
  }

  ghost function StaysBeside(levels: seq<set<Table>>, c: Compaction): set<Entry>
    requires c.level + 1 < |levels|
  {
    FilesContent(levels[c.level + 1] - c.in1)
  }

  // Readers at snap, who found the input e, come to the older entry x that is left behind:
  // e sinks below x, or e is dropped.
  ghost predicate Exposes(levels: seq<set<Table>>, c: Compaction, drops: bool, smallest: nat, snap: nat,
                          e: Entry, x: Entry)
    requires c.level + 1 < |levels|
  {
    && e in Inputs(c) && x.seqno < e.seqno <= snap
    && (IsNewest(StaysAbove(levels, c), e.key, snap, Some(x))
        || (&& Lost(levels, c, drops, smallest, e)
            && IsNewest(StaysAbove(levels, c), e.key, snap, None)
            && IsNewest(StaysBeside(levels, c), e.key, snap, Some(x))))
  }

  // No input that is the newest write of its key at a sequence number readers may have is
  // taken from above an older entry.
  ghost predicate Safe(hist: seq<Write>, levels: seq<set<Table>>, c: Compaction, drops: bool, smallest: nat)
    requires c.level + 1 < |levels|
  {
    forall snap, e, x | smallest <= snap <= |hist| && Live(hist, snap, e) ::
      !Exposes(levels, c, drops, smallest, snap, e, x)
  }

  // With disjoint user keys per level, picking the inputs closes them.
  lemma DisjointInputsAreClosed(levels: seq<set<Table>>, c: Compaction)
    requires UserDisjoint(levels) && Chosen(levels, c)
    ensures UserClosed(levels, c)
  {
    if c.level == 0 {
      forall g, h | g in levels[0] && g !in c.in0 && h in c.in0 ensures Apart(g, h) {
        assert Outside(g, c.in0);
      }
    }
  }

  // Closed inputs expose nothing.
  lemma ClosedIsSafe(hist: seq<Write>, floor: nat, levels: seq<set<Table>>, c: Compaction, drops: bool, smallest: nat)
    requires Ordered(hist, floor, levels) && floor <= smallest
    requires Chosen(levels, c) && UserClosed(levels, c)
    ensures Safe(hist, levels, c, drops, smallest)
  {
    hide Exposes, Live, Chosen, Ordered, UserClosed;
    HasLevels(levels, c);
    forall snap, e, x | smallest <= snap <= |hist| && Live(hist, snap, e)
      ensures !Exposes(levels, c, drops, smallest, snap, e, x) {
      if Exposes(levels, c, drops, smallest, snap, e, x) {
        ClosedExposesNot(hist, floor, levels, c, drops, smallest, snap, e, x);
      }
    }
  }

  lemma ClosedExposesNot(hist: seq<Write>, floor: nat, levels: seq<set<Table>>, c: Compaction, drops: bool,
                         smallest: nat, snap: nat, e: Entry, x: Entry)
    requires Ordered(hist, floor, levels) && floor <= smallest <= snap && Live(hist, snap, e)
    requires Chosen(levels, c) && UserClosed(levels, c)
    ensures !Exposes(levels, c, drops, smallest, snap, e, x)
  {
    hide Live, Lost, Outside, Chosen, Ordered;
    LiveLater(hist, floor, snap, e);
    HasLevels(levels, c);
    if Exposes(levels, c, drops, smallest, snap, e, x) {
      var h :| h in c.in0 + c.in1 && e in h.entries;
      InRange(h, e);
      var above := IsNewest(StaysAbove(levels, c), e.key, snap, Some(x));
      var S := if above then levels[c.level] - c.in0 else levels[c.level + 1] - c.in1;
      assert x in FilesContent(S);
      var g :| g in S && x in g.entries;
      InRange(g, x);
      if above && h in c.in1 {
        OrderedMeans(hist, floor, levels, c.level, g, c.level + 1, h, x, e);
      } else if !above && h in c.in0 {
        LeftBesideMisses(levels, c, g, h);
      }
    }
  }

  lemma LiveLater(hist: seq<Write>, floor: nat, snap: nat, e: Entry)
    requires floor <= snap && Live(hist, snap, e)
    ensures Live(hist, floor, e)
  {
  }

  lemma HasLevels(levels: seq<set<Table>>, c: Compaction)
    requires Chosen(levels, c)
    ensures c.level + 1 < |levels| && c.in0 <= levels[c.level] && c.in1 <= levels[c.level + 1]
  {
  }

  // A file of the next level that is left behind shares no user key with the chosen files.
  lemma LeftBesideMisses(levels: seq<set<Table>>, c: Compaction, g: Table, h: Table)
    requires Chosen(levels, c) && g in levels[c.level + 1] - c.in1 && h in c.in0
    ensures Apart(g, h)
  {
    assert Outside(g, c.in0);
  }

  // It lies to one side of all inputs.
  lemma OneSide(levels: seq<set<Table>>, c: Compaction, g: Table)
    requires SortedLevels(levels) && Chosen(levels, c) && g in levels[c.level + 1] - c.in1
    ensures (forall e | e in Inputs(c) :: Before(g.Largest(), e)) || (forall e | e in Inputs(c) :: Before(e, g.Smallest()))
  {
    assert Outside(g, c.in0);
    forall e, h | h in c.in0 + c.in1 && e in h.entries
      ensures (forall k | k in c.in0 :: g.Hi() < k.Lo()) ==> Before(g.Largest(), e)
      ensures (forall k | k in c.in0 :: k.Hi() < g.Lo()) ==> Before(e, g.Smallest())
    {
      InRange(h, e);
      InTable(h, e);
      if h in c.in1 {
        InRange(g, g.Smallest());
        assert !Outside(h, c.in0);
        assert FileBefore(g, h) || FileBefore(h, g);
      }
    }
  }

  lemma InTable(f: Table, e: Entry)
    requires e in f.entries
    ensures e == f.Smallest() || Before(f.Smallest(), e)
    ensures e == f.Largest() || Before(e, f.Largest())
  {
    var i :| 0 <= i < |f.entries| && f.entries[i] == e;
    assert i > 0 ==> Before(f.entries[0], f.entries[i]);
    assert i < |f.entries| - 1 ==> Before(f.entries[i], f.entries[|f.entries| - 1]);
  }

  lemma FollowersShareNothing(f: Table, g: Table, e: Entry)
    requires FileBefore(f, g) && e in f.entries
    ensures e !in g.entries
  {
    InTable(f, e);
    if e in g.entries {
      InTable(g, e);
    }
  }

  // ---------- what a compaction keeps

  // Where an entry of the compacted levels was: it stayed, or came from an input.
  lemma CameFrom(levels: seq<set<Table>>, c: Compaction, drops: bool, smallest: nat, outs: set<Table>,
                 l: nat, g: Table, e: Entry) returns (m: nat, h: Table)
    requires Chosen(levels, c) && Replaces(levels, c, drops, smallest, outs)
    requires l < |levels| && g in Compacted(levels, c, outs)[l] && e in g.entries
    ensures m < |levels| && h in levels[m] && e in h.entries && l <= |levels|
    ensures || (h == g && m == l && (l == c.level ==> g !in c.in0) && (l == c.level + 1 ==> g !in c.in1))
            || (l == c.level + 1 && g in outs && e in Inputs(c) && !Lost(levels, c, drops, smallest, e)
                && ((m == c.level && h in c.in0) || (m == l && h in c.in1)))
  {
    hide Dropped, Outside;
    if l == c.level + 1 && g !in levels[l] - c.in1 {
      assert e in FilesContent(outs);
      assert e in Inputs(c);
      h :| h in c.in0 + c.in1 && e in h.entries;
      m := if h in c.in0 then c.level else l;
    } else {
      m, h := l, g;
    }
  }

  lemma CompactKeepsSorted(levels: seq<set<Table>>, c: Compaction, drops: bool, smallest: nat, outs: set<Table>)
    requires SortedLevels(levels) && Chosen(levels, c) && Replaces(levels, c, drops, smallest, outs)
    ensures SortedLevels(Compacted(levels, c, outs))
  {
    hide Dropped, Outside, Before;
    forall g, o | g in levels[c.level + 1] - c.in1 && o in outs
      ensures FileBefore(g, o) || FileBefore(o, g)
    {
      OneSide(levels, c, g);
      EndsInContent(outs, o);
    }
  }

  lemma CompactKeepsHomes(levels: seq<set<Table>>, c: Compaction, drops: bool, smallest: nat, outs: set<Table>)
    requires OneHome(levels) && Chosen(levels, c) && Replaces(levels, c, drops, smallest, outs)
    ensures OneHome(Compacted(levels, c, outs))
  {
    hide Lost, Outside, FileBefore, Chosen, Inputs;
    HasLevels(levels, c);
    var after := Compacted(levels, c, outs);
    forall l: nat, m: nat, f: Table, g: Table, e: Entry | 0 <= l < |after| && 0 <= m < |after| && f in after[l] && g in after[m]
        && e in f.entries && e in g.entries ensures l == m && f == g {
      var l', f' := CameFrom(levels, c, drops, smallest, outs, l, f, e);
      var m', g' := CameFrom(levels, c, drops, smallest, outs, m, g, e);
      assert l' == m' && f' == g';
      if f != g && f in outs && g in outs {
        if FileBefore(f, g) {
          FollowersShareNothing(f, g, e);
        } else {
          FollowersShareNothing(g, f, e);
        }
      }
    }
  }

  lemma NewestExists(E: set<Entry>, u: UserKey, s: nat) returns (r: Option<Entry>)
    ensures IsNewest(E, u, s, r)
  {
    var F := set e | e in E && e.key == u && e.seqno <= s;
    if F == {} {
      r := None;
      assert forall e | e in E && e.key == u && e.seqno <= s :: e in F;
    } else {
      var e := Latest(F);
      r := Some(e);
      assert forall d | d in E && d.key == u && d.seqno <= s :: d in F;
    }
  }

  lemma {:induction false} Latest(F: set<Entry>) returns (e: Entry)
    requires F != {}
    ensures e in F && forall d | d in F :: d.seqno <= e.seqno
    decreases |F|
  {
    e :| e in F;
    if F != {e} {
      var d := Latest(F - {e});
      if d.seqno > e.seqno {
        e := d;
      }
    }
  }

  lemma SafeMeans(hist: seq<Write>, levels: seq<set<Table>>, c: Compaction, drops: bool, smallest: nat,
                  snap: nat, e: Entry, x: Entry)
    requires c.level + 1 < |levels| && Safe(hist, levels, c, drops, smallest)
    requires smallest <= snap <= |hist| && Live(hist, snap, e)
    ensures !Exposes(levels, c, drops, smallest, snap, e, x)
  {
  }

  // An older entry that is left behind above a live input exposes one.
  lemma SafeAbove(hist: seq<Write>, levels: seq<set<Table>>, c: Compaction, drops: bool, smallest: nat,
                  snap: nat, e: Entry, d: Entry)
    requires c.level + 1 < |levels| && Safe(hist, levels, c, drops, smallest)
    requires smallest <= snap <= |hist| && Live(hist, snap, e) && e in Inputs(c) && e.seqno <= snap
    requires d in StaysAbove(levels, c) && d.key == e.key
    requires forall x | x in StaysAbove(levels, c) && x.key == e.key && x.seqno <= snap :: x.seqno != e.seqno
    requires forall x | x in StaysAbove(levels, c) && x.key == e.key && x.seqno > e.seqno :: x.seqno > snap
    ensures d.seqno > e.seqno
  {
    hide Live, Lost, Safe;
    if d.seqno < e.seqno {
      var r := NewestExists(StaysAbove(levels, c), e.key, snap);
      SafeMeans(hist, levels, c, drops, smallest, snap, e, r.value);
    }
  }

  // The same beside a live input that is dropped.
  lemma SafeBeside(hist: seq<Write>, levels: seq<set<Table>>, c: Compaction, drops: bool, smallest: nat,
                   snap: nat, e: Entry, d: Entry)
    requires c.level + 1 < |levels| && Safe(hist, levels, c, drops, smallest)
    requires smallest <= snap <= |hist| && Live(hist, snap, e) && e in Inputs(c) && e.seqno <= snap
    requires Lost(levels, c, drops, smallest, e) && IsNewest(StaysAbove(levels, c), e.key, snap, None)
    requires d in StaysBeside(levels, c) && d.key == e.key
    requires forall x | x in StaysBeside(levels, c) && x.key == e.key && x.seqno <= snap :: x.seqno != e.seqno
    requires forall x | x in StaysBeside(levels, c) && x.key == e.key && x.seqno > e.seqno :: x.seqno > snap
    ensures d.seqno > e.seqno
  {
    hide Live, Lost, Safe;
    if d.seqno < e.seqno {
      var r := NewestExists(StaysBeside(levels, c), e.key, snap);
      SafeMeans(hist, levels, c, drops, smallest, snap, e, r.value);
    }
  }

  // A sequence number at which a live entry is the newest of its key.
  function SnapFor(smallest: nat, e: Entry): nat {
    if e.seqno > smallest then e.seqno else smallest
  }

  // Stored entries of e's key that are newer than e are beyond that number, and no other
  // file holds e.
  lemma NewestAt(hist: seq<Write>, flushed: nat, levels: seq<set<Table>>, smallest: nat, snap: nat, e: Entry, d: Entry,
                 l: nat, f: Table, m: nat, g: Table)
    requires FromHist(hist, flushed, levels) && OneHome(levels)
    requires l < |levels| && f in levels[l] && e in f.entries && m < |levels| && g in levels[m] && d in g.entries
    requires smallest <= |hist| && Live(hist, smallest, e) && snap == SnapFor(smallest, e) && d.key == e.key && g != f
    ensures smallest <= snap <= |hist| && e.seqno <= snap && Live(hist, snap, e)
    ensures d.seqno != e.seqno && (d.seqno > e.seqno ==> d.seqno > snap)
  {
    assert e in LevelsContent(levels) && d in LevelsContent(levels);
    assert EntryAt(hist, d.seqno) == d && EntryAt(hist, e.seqno) == e;
  }

  lemma CompactKeepsOrdered(hist: seq<Write>, floor: nat, flushed: nat, levels: seq<set<Table>>,
                            c: Compaction, drops: bool, smallest: nat, outs: set<Table>)
    requires LevelsInv(hist, floor, flushed, levels) && floor <= smallest <= |hist|
    requires Chosen(levels, c) && Replaces(levels, c, drops, smallest, outs)
    requires Safe(hist, levels, c, drops, smallest)
    ensures Ordered(hist, smallest, Compacted(levels, c, outs))
  {
    hide Safe, Chosen, Replaces, Live, LevelsInv, Compacted;
    HasLevels(levels, c);
    var after := Compacted(levels, c, outs);
    forall l: nat, m: nat, f: Table, g: Table, e: Entry, d: Entry | 0 <= l < |after| && 0 <= m < |after| && f in after[l] && g in after[m]
        && (l < m || (l == m == 0 && f.number > g.number))
        && e in f.entries && d in g.entries && e.key == d.key && Live(hist, smallest, d)
      ensures e.seqno > d.seqno
    {
      NewerAfter(hist, floor, flushed, levels, c, drops, smallest, outs, l, m, f, g, e, d);
    }
  }

  lemma NewerAfter(hist: seq<Write>, floor: nat, flushed: nat, levels: seq<set<Table>>,
                   c: Compaction, drops: bool, smallest: nat, outs: set<Table>,
                   l: nat, m: nat, f: Table, g: Table, e: Entry, d: Entry)
    requires LevelsInv(hist, floor, flushed, levels) && floor <= smallest <= |hist|
    requires Chosen(levels, c) && Replaces(levels, c, drops, smallest, outs)
    requires Safe(hist, levels, c, drops, smallest)
    requires var after := Compacted(levels, c, outs);
             l < |after| && m < |after| && f in after[l] && g in after[m] && (l < m || (l == m == 0 && f.number > g.number))
    requires e in f.entries && d in g.entries && e.key == d.key && Live(hist, smallest, d)
    ensures e.seqno > d.seqno
  {
    hide Safe, Live, Lost, Replaces, Complete, SortedLevels, Outside, FromHist, OneHome, Newer;
    LiveLater(hist, floor, smallest, d);
    var l', f' := CameFrom(levels, c, drops, smallest, outs, l, f, e);
    var m', g' := CameFrom(levels, c, drops, smallest, outs, m, g, d);
    if l' < m' || (l' == m' == 0 && f'.number > g'.number) {
      NewerMeans(hist, floor, f', g', e, d);
    } else {
      assert m' == l' == c.level && g' in c.in0 && f' == f && f !in c.in0;
      LeftAbove(hist, floor, flushed, levels, c, drops, smallest, f, g', e, d);
    }
  }

  lemma NewerMeans(hist: seq<Write>, floor: nat, f: Table, g: Table, e: Entry, d: Entry)
    requires Newer(hist, floor, f, g) && e in f.entries && d in g.entries && e.key == d.key && Live(hist, floor, d)
    ensures e.seqno > d.seqno
  {
  }

  // What is left behind above a live input of its key is newer.
  lemma LeftAbove(hist: seq<Write>, floor: nat, flushed: nat, levels: seq<set<Table>>, c: Compaction, drops: bool,
                  smallest: nat, f: Table, h: Table, e: Entry, d: Entry)
    requires LevelsInv(hist, floor, flushed, levels) && smallest <= |hist|
    requires Chosen(levels, c) && Safe(hist, levels, c, drops, smallest)
    requires f in levels[c.level] - c.in0 && e in f.entries && h in c.in0 + c.in1 && d in h.entries
    requires e.key == d.key && Live(hist, smallest, d)
    ensures e.seqno > d.seqno
  {
    hide Safe, Live, Complete, SortedLevels, Ordered, FromHist, OneHome, Outside;
    HasLevels(levels, c);
    var snap := SnapFor(smallest, d);
    var k := if h in c.in0 then c.level else c.level + 1;
    forall x, g | g in levels[c.level] - c.in0 && x in g.entries && x.key == d.key
      ensures x.seqno != d.seqno && (x.seqno > d.seqno ==> x.seqno > snap) {
      OtherHome(levels, c, h, d, g, x);
      NewestAt(hist, flushed, levels, smallest, snap, d, x, k, h, c.level, g);
    }
    OtherHome(levels, c, h, d, f, e);
    NewestAt(hist, flushed, levels, smallest, snap, d, e, k, h, c.level, f);
    assert d in Inputs(c);
    SafeAbove(hist, levels, c, drops, smallest, snap, d, e);
  }

  lemma OtherHome(levels: seq<set<Table>>, c: Compaction, h: Table, d: Entry, g: Table, x: Entry)
    requires OneHome(levels) && c.level + 1 < |levels| && c.in0 <= levels[c.level] && c.in1 <= levels[c.level + 1]
    requires h in c.in0 + c.in1 && d in h.entries && x in g.entries
    requires g in levels[c.level] - c.in0 || g in levels[c.level + 1] - c.in1
    ensures g != h
  {
  }

  // Compaction only removes entries, and only entries the drop rules allow.
  lemma CompactContent(levels: seq<set<Table>>, c: Compaction, drops: bool, smallest: nat, outs: set<Table>)
    requires Chosen(levels, c) && Replaces(levels, c, drops, smallest, outs)
    ensures LevelsContent(Compacted(levels, c, outs)) <= LevelsContent(levels)
    ensures forall e | e in LevelsContent(levels) && e !in LevelsContent(Compacted(levels, c, outs)) ::
              e in Inputs(c) && Lost(levels, c, drops, smallest, e)
  {
    hide Dropped, Outside;
    var after := Compacted(levels, c, outs);
    forall e | e in LevelsContent(after) ensures e in LevelsContent(levels) {
      var l: nat, g: Table :| l < |after| && g in after[l] && e in g.entries;
      var m, h := CameFrom(levels, c, drops, smallest, outs, l, g, e);
    }
    forall e | e in LevelsContent(levels) && e !in LevelsContent(after)
      ensures e in Inputs(c) && Lost(levels, c, drops, smallest, e)
    {
      var l: nat, g: Table :| l < |levels| && g in levels[l] && e in g.entries;
      assert g !in after[l];
      assert g in c.in0 + c.in1;
      forall o | o in outs ensures e !in o.entries {
        assert o in after[c.level + 1];
      }
      assert e !in FilesContent(outs);
    }
  }

  // When the tombstone rule drops a live marker, nothing older of its key remains anywhere.
  lemma DroppedMarkerHidesNothing(hist: seq<Write>, floor: nat, flushed: nat, levels: seq<set<Table>>,
                                  c: Compaction, smallest: nat, outs: set<Table>, e: Entry, d: Entry)
    requires LevelsInv(hist, floor, flushed, levels) && floor <= smallest <= |hist|
    requires Chosen(levels, c) && Replaces(levels, c, true, smallest, outs) && Safe(hist, levels, c, true, smallest)
    requires e in Inputs(c) && e.op.Delete? && e.seqno <= smallest && BaseLevel(levels, c.level, e.key)
    requires Live(hist, smallest, e)
    requires d in LevelsContent(Compacted(levels, c, outs)) && d.key == e.key
    ensures d.seqno >= e.seqno
  {
    hide Safe, Live, Complete, SortedLevels, FromHist, OneHome, Outside, Ordered, Replaces, Inputs, BaseLevel;
    HasLevels(levels, c);
    LiveLater(hist, floor, smallest, e);
    var after := Compacted(levels, c, outs);
    var l: nat, g: Table :| l < |after| && g in after[l] && d in g.entries;
    var m, f := CameFrom(levels, c, true, smallest, outs, l, g, d);
    var h, k := InputFile(c, e);
    if l == c.level + 1 && !(m == l && f == g && g !in c.in1) {
      assert !Hidden(Inputs(c), smallest, d);
    } else if l < c.level {
      OrderedMeans(hist, floor, levels, l, g, k, h, d, e);
    } else if l == c.level {
      LeftAbove(hist, floor, flushed, levels, c, true, smallest, g, h, d, e);
    } else if l == c.level + 1 {
      LeftBeside(hist, floor, flushed, levels, c, smallest, g, h, d, e);
    } else {
      NotAtBase(levels, c.level, l, g, d);
    }
  }

  lemma InputFile(c: Compaction, e: Entry) returns (h: Table, k: nat)
    requires e in Inputs(c)
    ensures e in h.entries && ((k == c.level && h in c.in0) || (k == c.level + 1 && h in c.in1))
  {
    h :| h in c.in0 + c.in1 && e in h.entries;
    k := if h in c.in0 then c.level else c.level + 1;
  }

  lemma OrderedMeans(hist: seq<Write>, floor: nat, levels: seq<set<Table>>, l: nat, f: Table, m: nat, g: Table,
                     e: Entry, d: Entry)
    requires Ordered(hist, floor, levels) && l < m < |levels| && f in levels[l] && g in levels[m]
    requires e in f.entries && d in g.entries && e.key == d.key && Live(hist, floor, d)
    ensures e.seqno > d.seqno
  {
    hide Live;
    assert Newer(hist, floor, f, g);
  }

  lemma NotAtBase(levels: seq<set<Table>>, level: nat, l: nat, g: Table, d: Entry)
    requires level + 2 <= l < |levels| && g in levels[l] && d in g.entries
    ensures !BaseLevel(levels, level, d.key)
  {
    InRange(g, d);
    assert Covers(g, d.key);
  }

  lemma LeftBeside(hist: seq<Write>, floor: nat, flushed: nat, levels: seq<set<Table>>, c: Compaction,
                   smallest: nat, f: Table, h: Table, e: Entry, d: Entry)
    requires LevelsInv(hist, floor, flushed, levels) && smallest <= |hist|
    requires Chosen(levels, c) && Safe(hist, levels, c, true, smallest) && Dropped(levels, c, smallest, d)
    requires f in levels[c.level + 1] - c.in1 && e in f.entries && h in c.in0 + c.in1 && d in h.entries
    requires e.key == d.key && Live(hist, smallest, d) && d.seqno <= smallest
    ensures e.seqno > d.seqno
  {
    hide Safe, Live, Complete, SortedLevels, Ordered, FromHist, OneHome, Outside, Dropped;
    HasLevels(levels, c);
    var k := if h in c.in0 then c.level else c.level + 1;
    forall x, g | g in levels[c.level + 1] - c.in1 && x in g.entries && x.key == d.key
      ensures x.seqno != d.seqno && (x.seqno > d.seqno ==> x.seqno > smallest) {
      OtherHome(levels, c, h, d, g, x);
      NewestAt(hist, flushed, levels, smallest, smallest, d, x, k, h, c.level + 1, g);
    }
    forall x, g | g in levels[c.level] - c.in0 && x in g.entries && x.key == d.key ensures x.seqno > smallest {
      LeftAbove(hist, floor, flushed, levels, c, true, smallest, g, h, x, d);
      OtherHome(levels, c, h, d, g, x);
      NewestAt(hist, flushed, levels, smallest, smallest, d, x, k, h, c.level, g);
    }
    OtherHome(levels, c, h, d, f, e);
    NewestAt(hist, flushed, levels, smallest, smallest, d, e, k, h, c.level + 1, f);
    assert d in Inputs(c);
    SafeBeside(hist, levels, c, true, smallest, smallest, d, e);
  }

  // An input that no newer write supersedes is not hidden by another input.
  lemma NotHidden(hist: seq<Write>, flushed: nat, levels: seq<set<Table>>, c: Compaction, smallest: nat, n: nat)
    requires FromHist(hist, flushed, levels) && c.level + 1 < |levels| && 1 <= n <= |hist|
    requires c.in0 <= levels[c.level] && c.in1 <= levels[c.level + 1]
    requires !Superseded(hist, smallest, n)
    ensures !Hidden(Inputs(c), smallest, EntryAt(hist, n))
  {
    var e := EntryAt(hist, n);
    forall d | d in Inputs(c) && d.key == e.key && e.seqno < d.seqno <= smallest ensures Superseded(hist, smallest, n) {
      assert d in LevelsContent(levels);
    }
  }

  lemma CompactKeepsComplete(hist: seq<Write>, floor: nat, flushed: nat, levels: seq<set<Table>>,
                             c: Compaction, drops: bool, smallest: nat, outs: set<Table>)
    requires LevelsInv(hist, floor, flushed, levels) && floor <= smallest <= |hist|
    requires Chosen(levels, c) && Replaces(levels, c, drops, smallest, outs) && Safe(hist, levels, c, drops, smallest)
    ensures FromHist(hist, flushed, Compacted(levels, c, outs))
    ensures Complete(hist, smallest, flushed, Compacted(levels, c, outs))
  {
    hide Safe, Ordered, OneHome, SortedLevels, Chosen, Replaces, Inputs, Compacted;
    HasLevels(levels, c);
    var before, after := LevelsContent(levels), LevelsContent(Compacted(levels, c, outs));
    CompactContent(levels, c, drops, smallest, outs);
    forall n | 1 <= n <= flushed && !Superseded(hist, smallest, n)
      ensures EntryAt(hist, n) in after || Gone(hist, smallest, n, after)
    {
      var e := EntryAt(hist, n);
      assert !Superseded(hist, floor, n);
      if e in before && e !in after {
        NotHidden(hist, flushed, levels, c, smallest, n);
        forall d | d in after && d.key == e.key ensures d.seqno >= n {
          DroppedMarkerHidesNothing(hist, floor, flushed, levels, c, smallest, outs, e, d);
        }
      }
    }
  }

  // A safe compaction leaves the levels as complete for every reader at or above the snapshot
  // bound, and in order for all of them.
  lemma CompactKeepsLevels(hist: seq<Write>, floor: nat, flushed: nat, levels: seq<set<Table>>,
                           c: Compaction, drops: bool, smallest: nat, outs: set<Table>)
    requires LevelsInv(hist, floor, flushed, levels) && floor <= smallest <= |hist|
    requires Chosen(levels, c) && Replaces(levels, c, drops, smallest, outs) && Safe(hist, levels, c, drops, smallest)
    ensures LevelsInv(hist, smallest, flushed, Compacted(levels, c, outs))
  {
    hide Safe, Ordered, OneHome, SortedLevels, Chosen, Replaces, Complete, FromHist;
    HasLevels(levels, c);
    CompactKeepsSorted(levels, c, drops, smallest, outs);
    CompactKeepsHomes(levels, c, drops, smallest, outs);
    CompactKeepsOrdered(hist, floor, flushed, levels, c, drops, smallest, outs);
    CompactKeepsComplete(hist, floor, flushed, levels, c, drops, smallest, outs);
  }
}
