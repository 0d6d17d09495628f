/**
 The compactions of the run that returns a stale value are those a request for the whole range
 of a level makes (db/version_set).
 */
module StaleJobs {
  import opened Coding
  import opened Entries
  import opened Levels
  import opened Store
  import opened Runs
  import opened Versions
  import opened Selections
  import opened Compactions
  import opened Builders

  lemma FilesAre(v: Version, l: nat, files: seq<Table>)
    requires l < |v.files| && v.Levels()[l] == FileSet(files) && SortedFiles(v.files[l]) && SortedFiles(files)
    ensures v.files[l] == files
  {
    SortedFilesAreUnique(v.files[l], files);
  }

  // The first one takes the file of level 0 and the one below it.
  lemma FirstIsRanged(v: Version)
    requires |v.files| == NUM_LEVELS && v.Levels() == StaleBefore()
    requires forall l | 0 <= l < NUM_LEVELS :: SortedFiles(v.files[l])
    ensures FIRST.c == Compaction(0, FileSet([T3]), FileSet([T2]))
    ensures Ranged(v, 0, None, None, MIN_FILE_SIZE, [T3], [T2])
  {
    hide Requested, LoOf, HiOf, Selected, Ranged, SetUp, Grows;
    FilesAre(v, 0, [T3]);
    FilesAre(v, 1, [T2]);
    var in0, in1 := [T3], [T2];
    RangeOf(in0, T3, T3);
    RangeOf(in0 + in1, T3, T3);
    OneRequested(0, T3, None, None);
    OneRequested(1, T2, Some(0.0), Some(0.0));
    OneRequested(0, T3, Some(0.0), Some(0.0));
    NotGrown(v, 0, in0, in1, in0);
    SetUpBy(v, 0, in0, in1, in0, Some(0.0), Some(0.0), in0, in1);
    RangedBy(v, 0, None, None, MIN_FILE_SIZE, in0, None, None, in0, in0, in1);
  }

  // The second one takes the head alone, which reaches the limit; growing it by the tail would
  // be too much.
  lemma SecondIsRanged(v: Version)
    requires |v.files| == NUM_LEVELS && v.Levels() == StaleBetween() && v.targetFileSize == MIN_FILE_SIZE
    requires forall l | 0 <= l < NUM_LEVELS :: SortedFiles(v.files[l])
    ensures SECOND.c == Compaction(1, FileSet([HEAD]), FileSet([T1]))
    ensures Ranged(v, 1, None, None, MIN_FILE_SIZE, [HEAD], [T1])
  {
    hide Requested, LoOf, HiOf, Selected, Ranged, SetUp, Grows, UpTo;
    assert BySmallest(HEAD, TAIL);
    FilesAre(v, 1, [HEAD, TAIL]);
    FilesAre(v, 2, [T1]);
    var both, in0, in1 := [HEAD, TAIL], [HEAD], [T1];
    RangeOf(in0, HEAD, HEAD);
    RangeOf(in0 + in1, HEAD, HEAD);
    TwoRequested(HEAD, TAIL, None, None);
    OneRequested(2, T1, Some(0.0), Some(0.0));
    TwoRequested(HEAD, TAIL, Some(0.0), Some(0.0));
    TooMuchToGrow(v);
    SetUpBy(v, 1, in0, in1, both, Some(0.0), Some(0.0), in0, in1);
    RangedBy(v, 1, None, None, MIN_FILE_SIZE, both, None, None, in0, in0, in1);
  }

  lemma TooMuchToGrow(v: Version)
    requires |v.files| == NUM_LEVELS && v.targetFileSize == MIN_FILE_SIZE
    ensures !Grows(v, 1, [HEAD], [T1], [HEAD, TAIL]) && UpTo([HEAD, TAIL], MIN_FILE_SIZE, [HEAD])
  {
    hide LoOf, HiOf, Selected;
    assert [HEAD, TAIL][..1] == [HEAD] && [HEAD][..0] == [] && [T1][..0] == [];
  }

  // A run, step by step as the code takes it, whose latest write reads as the one before it:
  // flushes go to the levels that are picked for them, outputs are cut where the code cuts
  // them, and both compactions are what a request for the whole range of their level gives.
  lemma StaleReadIsMade(first: Version, second: Version) returns (ss: seq<State>, acts: seq<Action>, r: Option<Entry>)
    requires |first.files| == |second.files| == NUM_LEVELS && second.targetFileSize == MIN_FILE_SIZE
    requires first.Levels() == StaleBefore() && second.Levels() == StaleBetween()
    requires forall l | 0 <= l < NUM_LEVELS :: SortedFiles(first.files[l]) && SortedFiles(second.files[l])
    ensures |ss| == |acts| + 1 && |acts| >= 2 && Run(ss, acts)
    ensures ss[|acts| - 2].levels == first.Levels() && ss[|acts| - 1].levels == second.Levels()
    ensures acts[|acts| - 2].Merge? && acts[|acts| - 1].Merge?
    ensures forall r0, r1 | Ranged(first, 0, None, None, MIN_FILE_SIZE, r0, r1) ::
              acts[|acts| - 2].c == Compaction(0, FileSet(r0), FileSet(r1))
    ensures forall r0, r1 | Ranged(second, 1, None, None, MIN_FILE_SIZE, r0, r1) ::
              acts[|acts| - 1].c == Compaction(1, FileSet(r0), FileSet(r1))
    ensures var s := ss[|acts|];
            && s.last == |s.hist| && StoreRead(s, 0.0, s.last, r)
            && Visible(r) == Some(seq(BIGGEST, _ => 2)) && RefGet(s.hist, 0.0, s.last) == Some(BIG)
  {
    hide Ranged, Run, StaleBefore, StaleBetween;
    ss, acts, r := StaleRead();
    FirstIsRanged(first);
    SecondIsRanged(second);
    forall r0, r1 | Ranged(first, 0, None, None, MIN_FILE_SIZE, r0, r1) ensures FIRST.c == Compaction(0, FileSet(r0), FileSet(r1)) {
      RangedIsUnique(first, 0, None, None, MIN_FILE_SIZE, r0, r1, [T3], [T2]);
    }
    forall r0, r1 | Ranged(second, 1, None, None, MIN_FILE_SIZE, r0, r1) ensures SECOND.c == Compaction(1, FileSet(r0), FileSet(r1)) {
      RangedIsUnique(second, 1, None, None, MIN_FILE_SIZE, r0, r1, [HEAD], [T1]);
    }
  }
}
