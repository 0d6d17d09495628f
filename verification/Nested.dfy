/**
 A memtable flushed while a compaction is at work (db/db_impl): its table is placed by the
 files that were there before the compaction, next to outputs that come after it.
 */
module NestedFlushes {
  import opened Coding
  import opened Entries
  import opened Levels
  import opened Store
  import opened Runs
  import opened Versions
  import opened Builders
  import opened Selections
  import opened Compactions

  // Some output reaches over the flushed table in the level both go to.
  predicate Spans(o: Table, f: Table) {
    o.Lo() < f.Lo() && f.Hi() < o.Hi()
  }

  ghost predicate Straddled(c: Compaction, outs: set<Table>, level: nat, f: Table) {
    level == c.level + 1 && exists o | o in outs :: Spans(o, f)
  }

  // No user key is in both files.
  ghost predicate NoSharedKey(f: Table, g: Table) {
    forall e, d | e in f.entries && d in g.entries :: e.key != d.key
  }

  // Committing the compaction after the flush is flushing after the compaction.
  lemma FlushCommutes(levels: seq<set<Table>>, c: Compaction, outs: set<Table>, level: nat, f: Table, next: nat)
    requires Chosen(levels, c) && level < |levels| && Numbered(levels, next) && f.number >= next
    ensures Compacted(AddFile(levels, level, f), c, outs) == AddFile(Compacted(levels, c, outs), level, f)
  {
    hide Outside;
    assert f !in c.in0 && f !in c.in1;
    var a, b := Compacted(AddFile(levels, level, f), c, outs), AddFile(Compacted(levels, c, outs), level, f);
    forall l | 0 <= l < |levels| ensures a[l] == b[l] {
    }
  }

  // An output's entries come from inputs; where those are at or above the flushed table's
  // level, all of them lie apart from it.
  lemma OutputSource(levels: seq<set<Table>>, c: Compaction, smallest: nat, outs: set<Table>, level: nat, f: Table,
                     o: Table, e: Entry) returns (g: Table)
    requires Chosen(levels, c) && Replaces(levels, c, true, smallest, outs)
    requires FlushLevelOk(levels, f, level) && c.level + 1 <= level
    requires o in outs && e in o.entries
    ensures g in c.in0 + c.in1 && e in g.entries && Apart(f, g)
  {
    hide Outside, Dropped, Apart;
    assert e in FilesContent(outs);
    assert e in Inputs(c);
    g :| g in c.in0 + c.in1 && e in g.entries;
  }

  lemma OutputSharesNoKey(levels: seq<set<Table>>, c: Compaction, smallest: nat, outs: set<Table>, level: nat, f: Table,
                          o: Table)
    requires Chosen(levels, c) && Replaces(levels, c, true, smallest, outs)
    requires FlushLevelOk(levels, f, level) && c.level + 1 <= level && o in outs
    ensures NoSharedKey(f, o)
    ensures o.Lo() < f.Lo() || f.Hi() < o.Lo()
    ensures o.Hi() < f.Lo() || f.Hi() < o.Hi()
  {
    hide Chosen, Replaces, FlushLevelOk;
    forall e, d | e in f.entries && d in o.entries ensures e.key != d.key {
      var g := OutputSource(levels, c, smallest, outs, level, f, o, d);
      ApartSharesNoKey(f, g);
    }
    var g := OutputSource(levels, c, smallest, outs, level, f, o, o.Smallest());
    Levels.InRange(g, o.Smallest());
    var h := OutputSource(levels, c, smallest, outs, level, f, o, o.Largest());
    Levels.InRange(h, o.Largest());
  }

  // An output beside the flushed table follows it or goes before it unless it spans it.
  lemma BesideIff(levels: seq<set<Table>>, c: Compaction, smallest: nat, outs: set<Table>, level: nat, f: Table, o: Table)
    requires Chosen(levels, c) && Replaces(levels, c, true, smallest, outs)
    requires FlushLevelOk(levels, f, level) && c.level + 1 == level && o in outs
    ensures FileBefore(f, o) || FileBefore(o, f) <==> !Spans(o, f)
  {
    hide Chosen, Replaces, FlushLevelOk, NoSharedKey;
    OutputSharesNoKey(levels, c, smallest, outs, level, f, o);
    EndsOrdered(f);
    EndsOrdered(o);
  }

  lemma EndsOrdered(f: Table)
    ensures f.Lo() <= f.Hi()
  {
    SmallestToLargest(f);
  }

  lemma SortedIff(levels: seq<set<Table>>, c: Compaction, smallest: nat, outs: set<Table>, level: nat, f: Table)
    requires SortedLevels(levels) && Chosen(levels, c) && Replaces(levels, c, true, smallest, outs)
    requires FlushLevelOk(levels, f, level) && f !in outs
    ensures SortedLevels(AddFile(Compacted(levels, c, outs), level, f)) <==> !Straddled(c, outs, level, f)
  {
    hide Chosen, Replaces, FileBefore, Spans, Apart;
    HasLevels(levels, c);
    CompactKeepsSorted(levels, c, true, smallest, outs);
    CompactedAt(levels, c, outs);
    hide Compacted;
    var before := Compacted(levels, c, outs);
    var after := AddFile(before, level, f);
    if level > 0 {
      forall g | g in before[level] ensures (FileBefore(f, g) || FileBefore(g, f)) <==> !(level == c.level + 1 && g in outs && Spans(g, f)) {
        FollowsIff(levels, c, smallest, outs, level, f, g);
      }
    }
    if Straddled(c, outs, level, f) {
      var o :| o in outs && Spans(o, f);
      assert o in after[level] && f in after[level];
    }
  }

  lemma FollowsIff(levels: seq<set<Table>>, c: Compaction, smallest: nat, outs: set<Table>, level: nat, f: Table, g: Table)
    requires Chosen(levels, c) && Replaces(levels, c, true, smallest, outs)
    requires FlushLevelOk(levels, f, level) && level > 0 && g in Compacted(levels, c, outs)[level]
    ensures (FileBefore(f, g) || FileBefore(g, f)) <==> !(level == c.level + 1 && g in outs && Spans(g, f))
  {
    hide Replaces, Outside;
    if level == c.level + 1 && g in outs {
      BesideIff(levels, c, smallest, outs, level, f, g);
    } else {
      assert g in levels[level];
      ApartSharesNoKey(f, g);
    }
  }

  lemma OrderedStays(hist: seq<Write>, floor: nat, flushed: nat, upto: nat, levels: seq<set<Table>>, next: nat,
                     c: Compaction, smallest: nat, outs: set<Table>, level: nat, f: Table)
    requires Numbered(levels, next) && Flushable(hist, flushed, upto, levels, next, level, f)
    requires Chosen(levels, c) && Replaces(levels, c, true, smallest, outs)
    requires FromHist(hist, flushed, Compacted(levels, c, outs)) && Ordered(hist, floor, Compacted(levels, c, outs))
    ensures Ordered(hist, floor, AddFile(Compacted(levels, c, outs), level, f))
  {
    hide Live, Span, Sorted, FromHist, Newer, Apart, Chosen, Replaces, Compacted;
    HasLevels(levels, c);
    CompactedAt(levels, c, outs);
    var before := Compacted(levels, c, outs);
    var after := AddFile(before, level, f);
    forall l, g | 0 <= l < |before| && g in before[l] ensures Newer(hist, floor, f, g) {
      FlushedIsNewest(hist, flushed, upto, before, f, l, g);
      NewerIfAllAre(hist, floor, f, g);
    }
    forall l, g | 0 <= l < level && g in before[l] ensures Newer(hist, floor, g, f) {
      AboveIsNewer(hist, floor, levels, c, smallest, outs, level, f, l, g);
    }
    forall g: Table | level == 0 && g in before[0] ensures g.number < f.number {
      StaysNumbered(levels, c, outs, next, g);
    }
  }

  lemma StaysNumbered(levels: seq<set<Table>>, c: Compaction, outs: set<Table>, next: nat, g: Table)
    requires Numbered(levels, next) && c.level + 1 < |levels| && g in Compacted(levels, c, outs)[0]
    ensures g.number < next
  {
    assert g in levels[0];
  }

  lemma AboveIsNewer(hist: seq<Write>, floor: nat, levels: seq<set<Table>>, c: Compaction, smallest: nat, outs: set<Table>,
                     level: nat, f: Table, l: nat, g: Table)
    requires Chosen(levels, c) && Replaces(levels, c, true, smallest, outs)
    requires FlushLevelOk(levels, f, level) && l < level && g in Compacted(levels, c, outs)[l]
    ensures Newer(hist, floor, g, f)
  {
    hide Replaces, Outside, Live;
    if g in levels[l] {
      ApartIsNewer(hist, floor, f, g);
    } else {
      OutputSharesNoKey(levels, c, smallest, outs, level, f, g);
    }
  }

  // A memtable flushed while a compaction is at work leaves the levels in order, once both are
  // committed, if and only if no output spans the table in the level both go to.
  lemma FlushInMergeKeepsLevelsIff(hist: seq<Write>, floor: nat, flushed: nat, upto: nat, levels: seq<set<Table>>, next: nat,
                                   c: Compaction, smallest: nat, outs: set<Table>, level: nat, f: Table)
    requires LevelsInv(hist, floor, flushed, levels) && Numbered(levels, next) && floor <= smallest <= |hist|
    requires Chosen(levels, c) && Replaces(levels, c, true, smallest, outs) && Safe(hist, levels, c, true, smallest)
    requires Flushable(hist, flushed, upto, levels, next, level, f) && f !in outs
    ensures LevelsInv(hist, smallest, upto, Compacted(AddFile(levels, level, f), c, outs))
       <==> !Straddled(c, outs, level, f)
  {
    hide Safe, Ordered, OneHome, SortedLevels, Chosen, Replaces, Complete, FromHist, Compacted, Numbered, Straddled, Span, Apart;
    FlushCommutes(levels, c, outs, level, f, next);
    CompactKeepsLevels(hist, floor, flushed, levels, c, true, smallest, outs);
    SortedIff(levels, c, smallest, outs, level, f);
    HasLevels(levels, c);
    var before := Compacted(levels, c, outs);
    OrderedStays(hist, smallest, flushed, upto, levels, next, c, smallest, outs, level, f);
    FlushKeepsHomes(hist, flushed, upto, before, level, f);
    FlushKeepsContent(hist, smallest, flushed, upto, before, level, f);
  }

  // Inputs without a gap leave no room for the table to lie between them.
  lemma NoGapIsNotStraddled(levels: seq<set<Table>>, c: Compaction, smallest: nat, outs: set<Table>, level: nat, f: Table,
                            inputs: seq<Table>)
    requires Chosen(levels, c) && Replaces(levels, c, true, smallest, outs) && FlushLevelOk(levels, f, level)
    requires inputs != [] && FileSet(inputs) == c.in0 + c.in1 && NoGap(inputs)
    ensures !Straddled(c, outs, level, f)
  {
    hide Replaces, Chosen, NoGap, FlushLevelOk;
    if level == c.level + 1 {
      forall o | o in outs ensures !Spans(o, f) {
        OutputIsBeside(levels, c, smallest, outs, level, f, inputs, o);
      }
    }
  }

  lemma OutputIsBeside(levels: seq<set<Table>>, c: Compaction, smallest: nat, outs: set<Table>, level: nat, f: Table,
                       inputs: seq<Table>, o: Table)
    requires Chosen(levels, c) && Replaces(levels, c, true, smallest, outs) && FlushLevelOk(levels, f, level)
    requires level == c.level + 1 && o in outs
    requires inputs != [] && FileSet(inputs) == c.in0 + c.in1 && NoGap(inputs)
    ensures !Spans(o, f)
  {
    hide Replaces, Outside, LoOf, HiOf;
    var a := OutputSource(levels, c, smallest, outs, level, f, o, o.Smallest());
    var z := OutputSource(levels, c, smallest, outs, level, f, o, o.Largest());
    Levels.InRange(a, o.Smallest());
    Levels.InRange(z, o.Largest());
    Selections.InRange(inputs, a);
    Selections.InRange(inputs, z);
    EndsOrdered(f);
    forall g | g in inputs ensures !Covers(g, f.Lo()) {
      assert g in FileSet(inputs);
      assert g in levels[c.level] || g in levels[level];
      assert Apart(f, g);
    }
    assert !CoveredAt(inputs, f.Lo());
  }

  // Whatever one picked file leads to, grown or not and in level 0 too, the levels stay in
  // order when a memtable is flushed meanwhile.
  lemma PickedKeepsLevels(hist: seq<Write>, floor: nat, flushed: nat, upto: nat, v: Version, next: nat,
                          l: nat, file: Table, r0: seq<Table>, r1: seq<Table>, smallest: nat, outs: set<Table>, level: nat, f: Table)
    requires v.Valid() && LevelsInv(hist, floor, flushed, v.Levels()) && Numbered(v.Levels(), next)
    requires floor <= smallest <= |hist|
    requires PickedFor(v, l, file, r0, r1) && Chosen(v.Levels(), Compaction(l, FileSet(r0), FileSet(r1)))
    requires var c := Compaction(l, FileSet(r0), FileSet(r1));
             Replaces(v.Levels(), c, true, smallest, outs) && Safe(hist, v.Levels(), c, true, smallest)
    requires Flushable(hist, flushed, upto, v.Levels(), next, level, f) && f !in outs
    ensures var c := Compaction(l, FileSet(r0), FileSet(r1));
            && !Straddled(c, outs, level, f)
            && LevelsInv(hist, smallest, upto, Compacted(AddFile(v.Levels(), level, f), c, outs))
  {
    hide LevelsInv, Numbered, Safe, Chosen, Replaces, PickedFor, NoGap, Straddled, Compacted, Span;
    var c := Compaction(l, FileSet(r0), FileSet(r1));
    PickedHaveNoGap(v, l, file, r0, r1);
    assert FileSet(r0 + r1) == c.in0 + c.in1;
    NoGapIsNotStraddled(v.Levels(), c, smallest, outs, level, f, r0 + r1);
    FlushInMergeKeepsLevelsIff(hist, floor, flushed, upto, v.Levels(), next, c, smallest, outs, level, f);
  }

  // ---------- a read that is lost

  const A2: Table := File(5, 1, [Entry(0.0, 1, Put([1]))])
  const A1: Table := File(7, 1, [Entry(0.0, 2, Put([2]))])
  const Z2: Table := File(9, 1, [Entry(2.0, 3, Put([3]))])
  const Z1: Table := File(11, 1, [Entry(2.0, 4, Put([4]))])
  const MID: Table := File(13, 1, [Entry(1.0, 5, Put([5]))])
  const OUT: Table := File(14, 2, [Entry(0.0, 2, Put([2])), Entry(2.0, 4, Put([4]))])
  const JOB: Compaction := Compaction(1, {A1, Z1}, {A2, Z2})

  lemma TwoKeys() returns (ss: seq<State>, acts: seq<Action>)
    ensures |ss| == |acts| + 1 && Run(ss, acts)
    ensures var s := ss[|acts|];
            && |s.hist| == 4 && s.last == 4 && s.pending == [] && s.mem == {} && s.imm == None
            && s.snapshots == [] && s.nextFile == 12 && s.target == MIN_FILE_SIZE
            && s.levels == seq(NUM_LEVELS, i => if i == 1 then {A1, Z1} else if i == 2 then {A2, Z2} else {})
  {
    hide Run, After, Allowed;
    ss, acts := [Initial(MIN_FILE_SIZE)], [];
    StartsRun();
    ss, acts := PutAndFlush(ss, acts, Write(0.0, Put([1])), 2, A2);
    PickedAboveOne(ss[|acts|].levels, MIN_FILE_SIZE, A1, A2);
    ss, acts := PutAndFlush(ss, acts, Write(0.0, Put([2])), 1, A1);
    ss, acts := PutAndFlush(ss, acts, Write(2.0, Put([3])), 2, Z2);
    PickedAboveOne(ss[|acts|].levels, MIN_FILE_SIZE, Z1, Z2);
    ss, acts := PutAndFlush(ss, acts, Write(2.0, Put([4])), 1, Z1);
    var levels := ss[|acts|].levels;
    assert levels[1] == {A1, Z1} && levels[2] == {A2, Z2};
    assert forall i | 0 <= i < NUM_LEVELS && i != 1 && i != 2 :: levels[i] == {};
  }

  lemma JobIsAllowed(s: State)
    requires s.levels == seq(NUM_LEVELS, i => if i == 1 then {A1, Z1} else if i == 2 then {A2, Z2} else {})
    requires s.snapshots == [] && s.last == 4 && s.nextFile == 12
    ensures Allowed(s, Merge(JOB, {OUT}, 15))
  {
    hide Survivors, BaseLevel;
    JobKeeps(s.levels);
  }

  lemma JobKeeps(levels: seq<set<Table>>)
    ensures FilesContent({OUT}) == Survivors(levels, JOB, 4)
  {
    hide BaseLevel;
    var a1, a2, z1, z2 := A1.entries[0], A2.entries[0], Z1.entries[0], Z2.entries[0];
    assert OUT.entries[0] == a1 && OUT.entries[1] == z1;
    forall e ensures e in FilesContent({OUT}) <==> e == a1 || e == z1 {
      if e in FilesContent({OUT}) {
        assert e in OUT.entries;
      }
      assert a1 in OUT.entries && z1 in OUT.entries && OUT in {OUT};
    }
    forall e ensures e in Inputs(JOB) <==> e in {a1, a2, z1, z2} {
      if e in Inputs(JOB) {
        assert e in A1.entries || e in A2.entries || e in Z1.entries || e in Z2.entries;
      }
      assert A1 in JOB.in0 + JOB.in1 && A2 in JOB.in0 + JOB.in1 && Z1 in JOB.in0 + JOB.in1 && Z2 in JOB.in0 + JOB.in1;
      assert a1 in A1.entries && a2 in A2.entries && z1 in Z1.entries && z2 in Z2.entries;
    }
  }

  // It is what a compaction of the whole range of level 1 takes.
  lemma JobIsRanged(v: Version)
    requires |v.files| == NUM_LEVELS && v.files[1] == [A1, Z1] && v.files[2] == [A2, Z2] && v.targetFileSize == MIN_FILE_SIZE
    ensures JOB == Compaction(1, FileSet([A1, Z1]), FileSet([A2, Z2]))
    ensures Ranged(v, 1, None, None, MIN_FILE_SIZE, [A1, Z1], [A2, Z2])
  {
    hide Requested, LoOf, HiOf, Selected, Ranged, SetUp, Grows, UpTo;
    var in0, in1 := [A1, Z1], [A2, Z2];
    TwoRequested(A1, Z1, None, None);
    JobIsSetUp(v);
    BothUpTo();
    RangedBy(v, 1, None, None, MIN_FILE_SIZE, in0, None, None, in0, in0, in1);
  }

  lemma JobIsSetUp(v: Version)
    requires |v.files| == NUM_LEVELS && v.files[1] == [A1, Z1] && v.files[2] == [A2, Z2]
    ensures SetUp(v, 1, [A1, Z1], [A1, Z1], [A2, Z2])
  {
    hide Requested, LoOf, HiOf, Selected, SetUp, Grows;
    var in0, in1 := [A1, Z1], [A2, Z2];
    RangeOf(in0, A1, Z1);
    RangeOf(in0 + in1, A1, Z1);
    TwoRequested(A2, Z2, Some(0.0), Some(2.0));
    TwoRequested(A1, Z1, Some(0.0), Some(2.0));
    NotGrown(v, 1, in0, in1, in0);
    SetUpBy(v, 1, in0, in1, in0, Some(0.0), Some(2.0), in0, in1);
  }

  lemma BothUpTo()
    ensures UpTo([A1, Z1], MIN_FILE_SIZE, [A1, Z1])
  {
    assert [A1, Z1][..1] == [A1] && [A1][..0] == [];
  }

  // Two keys are merged a level down.  Meanwhile a key between them is written, and its
  // memtable flushed to the level the merge goes to, where no file was in its way.  When both
  // are committed, the merge's one output comes first in that level and covers the key, so
  // the lookup goes there and does not find it: no level holds it as far as reads can tell.
  lemma NestedFlushIsLost() returns (ss: seq<State>, acts: seq<Action>, k: nat)
    ensures |ss| == |acts| + 1 && Run(ss, acts) && k <= |acts|
    ensures var s, t := ss[k], ss[|acts|];
            && Allowed(s, Merge(JOB, {OUT}, 15)) && s.snapshots == []
            && t.hist == s.hist + [Write(1.0, Put([5]))] && t.mem == {} && t.imm == None
            && PickedLevel(s.levels, s.target, MID, 2) && t.levels == AddFile(s.levels, 2, MID)
            && |t.levels| == NUM_LEVELS && t.last == |t.hist|
            && var after := Compacted(t.levels, JOB, {OUT});
            && (forall l | 0 <= l < NUM_LEVELS && l != 2 :: after[l] == {})
            && after[2] == FileSet([OUT, MID]) && SortedFiles([OUT, MID])
            && SortedGet([OUT, MID], 1.0, t.last) == None
            && RefGet(t.hist, 1.0, t.last) == Some([5])
  {
    hide Run, After, Allowed;
    ss, acts := TwoKeys();
    k := |acts|;
    var s := ss[k];
    JobIsAllowed(s);
    ss, acts := PutAndFlush(ss, acts, Write(1.0, Put([5])), 2, MID);
    assert ss[k] == s;
    var t := ss[|acts|];
    CompactedAt(t.levels, JOB, {OUT});
    assert t.levels[2] - JOB.in1 + {OUT} == FileSet([OUT, MID]);
    LooksInOutput();
    assert t.hist[4] == Write(1.0, Put([5]));
  }

  lemma LooksInOutput()
    ensures SortedFiles([OUT, MID]) && SortedGet([OUT, MID], 1.0, 5) == None
  {
    var files, key := [OUT, MID], LookupKey(1.0, 5);
    assert Search(files, key, 0, 2) == Search(files, key, 0, 1) == Search(files, key, 0, 0) == 0;
    assert SeekIndex(OUT.entries, key) == 1;
  }
}
