/**
 Choosing the inputs of a compaction and merging them (db/version_set, db/db_impl).
 */
module Compactions {
  import opened Coding
  import opened Entries
  import opened Levels
  import opened Versions
  import opened Selections

  // The smallest and largest internal keys of a set of files.
  method GetRange(inputs: seq<Table>) returns (smallest: Entry, largest: Entry)
    requires inputs != []
    ensures exists f | f in inputs :: smallest == f.Smallest()
    ensures exists f | f in inputs :: largest == f.Largest()
    ensures forall f | f in inputs :: !Before(f.Smallest(), smallest) && !Before(largest, f.Largest())
  {
    smallest, largest := inputs[0].Smallest(), inputs[0].Largest();
    assert inputs[0] in inputs;
    for i := 1 to |inputs|
      invariant exists f | f in inputs :: smallest == f.Smallest()
      invariant exists f | f in inputs :: largest == f.Largest()
      invariant forall j | 0 <= j < i ::
                  !Before(inputs[j].Smallest(), smallest) && !Before(largest, inputs[j].Largest())
    {
      var f := inputs[i];
      assert f in inputs;
      if Before(f.Smallest(), smallest) {
        smallest := f.Smallest();
      }
      if Before(largest, f.Largest()) {
        largest := f.Largest();
      }
    }
  }

  // A file misses a non-empty set of files exactly when it misses their user-key range.
  lemma OutsideIsOutOfRange(f: Table, S: set<Table>, lo: UserKey, hi: UserKey)
    requires exists g | g in S :: g.Lo() == lo
    requires exists g | g in S :: g.Hi() == hi
    requires forall g | g in S :: lo <= g.Lo() && g.Hi() <= hi
    ensures Outside(f, S) <==> !Meets(f, Some(lo), Some(hi))
  {
  }

  class CompactionJob {
    const level: nat
    const version: Version
    const levelPtrs: array<nat>
    var inputs0: seq<Table>
    var inputs1: seq<Table>
    var grandparents: seq<Table>
    var grandparentIndex: nat
    var seenKey: bool
    var overlappedBytes: nat

    ghost predicate Valid()
      reads this
    {
      Startable(version, level, inputs0) && levelPtrs.Length == NUM_LEVELS && Grandparents()
    }

    ghost predicate Grandparents()
      reads this
    {
      && InOrder(grandparents)
      && forall f | f in grandparents :: level + 2 < |version.files| && f in version.files[level + 2]
    }

    // No key was asked about yet.
    ghost predicate AtStart()
      reads this, levelPtrs
    {
      && grandparentIndex == 0 && !seenKey && overlappedBytes == 0
      && forall l | 0 <= l < levelPtrs.Length :: levelPtrs[l] == 0
    }

    ghost function Spec(): Compaction
      reads this
    {
      Compaction(level, FileSet(inputs0), FileSet(inputs1))
    }

    constructor (version: Version, level: nat, inputs0: seq<Table>)
      requires Startable(version, level, inputs0)
      ensures Valid() && this.version == version && this.level == level && this.inputs0 == inputs0
      ensures fresh(levelPtrs) && AtStart() && grandparents == []
    {
      this.version := version;
      this.level := level;
      this.inputs0 := inputs0;
      this.inputs1 := [];
      this.grandparents := [];
      this.grandparentIndex, this.seenKey, this.overlappedBytes := 0, false, 0;
      this.levelPtrs := new nat[NUM_LEVELS](_ => 0);
    }

    // Picks the next level's inputs, and more of this level's when that adds none there.  In
    // both cases no file left behind in the next level meets the range of the chosen files.
    method SetupOtherInputs()
      requires Valid()
      modifies `inputs0, `inputs1, `grandparents
      ensures Valid()
      ensures Chosen(version.Levels(), Spec())
      ensures forall f | f in old(inputs0) :: f in inputs0
      ensures SetUp(version, level, old(inputs0), inputs0, inputs1)
      ensures Sublist(version.files[level + 1], inputs1)
      ensures inputs0 != [] && (old(grandparents) == [] ==> grandparents == Below(version, level, inputs0 + inputs1))
    {
      hide Chosen, Outside, TotalFileSize, Selected, LoOf, HiOf, Startable, InOrder, Sublist, SetUp;
      InLevels(version, level, inputs0);
      var lo, hi := GetRange(inputs0);
      RangeIs(inputs0, lo, hi);
      var picked, _, _ := GetOverlappingInputs(level + 1, version.files[level + 1], Some(lo.key), Some(hi.key));
      ChosenByRange(version, level, inputs0, lo, hi);
      SelectedIsSublist(version.files[level + 1], Some(lo.key), Some(hi.key));
      inputs1 := picked;
      if inputs1 != [] {
        inputs0, inputs1 := Expand(version, level, inputs0, inputs1);
      } else {
        SetUpAlone(version, level, inputs0);
      }
      PickGrandparents();
    }

    method PickGrandparents()
      requires Valid()
      modifies `grandparents
      ensures Valid()
      ensures level + 2 < NUM_LEVELS ==> grandparents == MeetingAll(version.files[level + 2], inputs0 + inputs1)
      ensures level + 2 >= NUM_LEVELS ==> grandparents == old(grandparents)
    {
      hide Outside, TotalFileSize, LoOf, HiOf;
      if level + 2 < NUM_LEVELS {
        var lo, hi := GetRange(inputs0 + inputs1);
        RangeIs(inputs0 + inputs1, lo, hi);
        var meeting, _, _ := GetOverlappingInputs(level + 2, version.files[level + 2], Some(lo.key), Some(hi.key));
        SelectedInOrder(version.files[level + 2], Some(lo.key), Some(hi.key));
        grandparents := meeting;
      }
    }

    // The pointers have only passed files that end before u.
    ghost predicate PointersBelow(u: UserKey)
      reads levelPtrs
      requires |version.files| == NUM_LEVELS && levelPtrs.Length == NUM_LEVELS
    {
      forall l | level + 2 <= l < NUM_LEVELS ::
        && levelPtrs[l] <= |version.files[l]|
        && forall i | 0 <= i < levelPtrs[l] :: version.files[l][i].Hi() < u
    }

    // Asked for keys in nondecreasing order, the pointers that only move forward give the
    // same answer as a search of all deeper levels from the start.
    method IsBaseLevelForKey(u: UserKey) returns (base: bool)
      requires Valid() && PointersBelow(u)
      modifies levelPtrs
      ensures Valid() && PointersBelow(u)
      ensures base <==> BaseLevel(version.Levels(), level, u)
      ensures base <==> forall l, f | level + 2 <= l < NUM_LEVELS && f in version.files[l] :: u < f.Lo() || f.Hi() < u
    {
      hide Sublist, FileBefore, Outside, Sequenced;
      for lvl := level + 2 to NUM_LEVELS
        invariant PointersBelow(u)
        invariant forall l, f | level + 2 <= l < lvl && f in version.files[l] :: !Covers(f, u)
      {
        var files := version.files[lvl];
        while levelPtrs[lvl] < |files|
          invariant PointersBelow(u)
          decreases |files| - levelPtrs[lvl]
        {
          var f := files[levelPtrs[lvl]];
          if u <= f.Hi() {
            if u >= f.Lo() {
              assert f in version.Levels()[lvl] && Covers(f, u);
              assert !BaseLevel(version.Levels(), level, u);
              return false;
            }
            break;
          }
          levelPtrs[lvl] := levelPtrs[lvl] + 1;
        }
        NoFileCovers(files, levelPtrs[lvl], u);
      }
      forall l, f | level + 2 <= l < NUM_LEVELS && f in version.files[l] ensures u < f.Lo() || f.Hi() < u {
        assert !Covers(f, u);
      }
      return true;
    }

    // The two drop rules, from the entry before and the snapshot bound.
    method ShouldDrop(input: seq<Entry>, i: nat, lastSequenceForKey: nat, smallest: nat) returns (drop: bool)
      requires Valid() && Mergeable(input) && Content(input) == Inputs(Spec())
      requires i < |input| && smallest < MAX_SEQUENCE
      requires lastSequenceForKey ==
        if i > 0 && input[i - 1].key == input[i].key then input[i - 1].seqno else MAX_SEQUENCE
      requires PointersBelow(input[i].key)
      modifies levelPtrs
      ensures Valid() && PointersBelow(input[i].key)
      ensures drop <==> Dropped(version.Levels(), Spec(), smallest, input[i])
      ensures drop <==>
                || (exists d | d in input :: d.key == input[i].key && input[i].seqno < d.seqno <= smallest)
                || (&& input[i].op.Delete? && input[i].seqno <= smallest
                    && forall l, f | level + 2 <= l < NUM_LEVELS && f in version.files[l] :: input[i].key < f.Lo() || f.Hi() < input[i].key)
    {
      DroppedIff(version, Spec(), input, smallest, input[i]);
      hide Startable, Inputs;
      HiddenByPrevious(input, i, smallest);
      if lastSequenceForKey <= smallest {
        drop := true;
      } else if input[i].op.Delete? && input[i].seqno <= smallest {
        drop := IsBaseLevelForKey(input[i].key);
      } else {
        drop := false;
      }
    }

    lemma HasAllLevels()
      requires Valid()
      ensures |version.files| == NUM_LEVELS && levelPtrs.Length == NUM_LEVELS
    {
    }

    lemma ListsInOrder()
      requires Ready(this, version)
      ensures level + 1 < NUM_LEVELS == |version.files|
      ensures (level > 0 ==> InOrder(inputs0)) && InOrder(inputs1)
      ensures Distinct(version.files[level]) ==> Distinct(inputs0)
      ensures Distinct(version.files[level + 1]) ==> Distinct(inputs1)
    {
      hide Chosen;
    }

    lemma HasInputs()
      requires Valid()
      ensures level + 1 < NUM_LEVELS && inputs0 != []
    {
    }

    // A lone file that does not overlap too much two levels down.
    predicate IsTrivialMove()
      reads this
    {
      |inputs0| == 1 && |inputs1| == 0 && TotalFileSize(grandparents) <= 10 * version.targetFileSize
    }

    // Where the scan of the grandparents stands for keys from e on.
    ghost predicate Scanned(e: Entry)
      reads this
    {
      && grandparentIndex <= |grandparents|
      && overlappedBytes <= TotalFileSize(grandparents[..grandparentIndex])
      && forall i | 0 <= i < grandparentIndex :: Before(grandparents[i].Largest(), e)
    }

    // True when the output so far overlaps too much of the level after the next.
    method ShouldStopBefore(e: Entry) returns (stop: bool)
      requires Valid() && Scanned(e)
      modifies `grandparentIndex, `seenKey, `overlappedBytes
      ensures Valid() && Scanned(e)
      ensures stop ==> exists passed | Passed(version.Levels(), Spec(), passed, e) ::
                TotalFileSize(passed) > 10 * version.targetFileSize
      ensures old(grandparentIndex) <= grandparentIndex <= |grandparents| && seenKey
      ensures forall i | old(grandparentIndex) <= i < grandparentIndex :: Before(grandparents[i].Largest(), e)
      ensures grandparentIndex < |grandparents| ==> !Before(grandparents[grandparentIndex].Largest(), e)
      ensures var newly := TotalFileSize(grandparents[..grandparentIndex]) - TotalFileSize(grandparents[..old(grandparentIndex)]);
              var bytes := old(overlappedBytes) + if old(seenKey) then newly else 0;
              && (stop <==> bytes > 10 * version.targetFileSize)
              && overlappedBytes == if stop then 0 else bytes
    {
      hide Startable, InOrder, Passed, TotalFileSize;
      while grandparentIndex < |grandparents| && Before(grandparents[grandparentIndex].Largest(), e)
        invariant Valid() && Scanned(e) && old(grandparentIndex) <= grandparentIndex && seenKey == old(seenKey)
        invariant forall i | old(grandparentIndex) <= i < grandparentIndex :: Before(grandparents[i].Largest(), e)
        invariant var newly := TotalFileSize(grandparents[..grandparentIndex]) - TotalFileSize(grandparents[..old(grandparentIndex)]);
                  overlappedBytes == old(overlappedBytes) + if seenKey then newly else 0
        decreases |grandparents| - grandparentIndex
      {
        OneMore(grandparents, grandparentIndex);
        if seenKey {
          overlappedBytes := overlappedBytes + grandparents[grandparentIndex].size;
        }
        grandparentIndex := grandparentIndex + 1;
      }
      seenKey := true;
      stop := overlappedBytes > 10 * version.targetFileSize;
      if stop {
        NoneSoFar(grandparents);
        PassedHere(e);
        overlappedBytes := 0;
      }
    }

    lemma NoneSoFar(files: seq<Table>)
      ensures TotalFileSize(files[..0]) == 0
    {
    }

    lemma OneMore(files: seq<Table>, i: nat)
      requires i < |files|
      ensures TotalFileSize(files[..i + 1]) == TotalFileSize(files[..i]) + files[i].size
    {
      assert files[..i + 1][..i] == files[..i];
    }

    lemma PassedHere(e: Entry)
      requires Valid() && Scanned(e) && grandparentIndex > 0
      ensures Passed(version.Levels(), Spec(), grandparents[..grandparentIndex], e)
    {
      assert grandparents[0] in grandparents;
      forall h | h in grandparents[..grandparentIndex] ensures h in version.Levels()[level + 2] && Before(h.Largest(), e) {
        assert h in grandparents;
      }
    }

    lemma NothingPassed(e: Entry)
      requires Valid() && AtStart()
      ensures Scanned(e) && PointersBelow(e.key)
    {
    }

    lemma PointersGoOn(u: UserKey, w: UserKey)
      requires |version.files| == NUM_LEVELS && levelPtrs.Length == NUM_LEVELS && PointersBelow(u) && u <= w
      ensures PointersBelow(w)
    {
    }

    lemma SpanningStays(es: seq<Entry>, rest: seq<Entry>)
      requires rest != [] ==> Spanning(es) && es != [] && es[0] == rest[0]
      ensures Spanning(rest)
    {
    }

    lemma ScanGoesOn(e: Entry, d: Entry)
      requires Scanned(e) && Before(e, d)
      ensures Scanned(d)
    {
    }

    // All grandparents that end within the current output were counted.
    ghost predicate Spanning(builder: seq<Entry>)
      reads this
    {
      builder != [] ==>
        && seenKey && grandparentIndex <= |grandparents| && overlappedBytes <= 10 * version.targetFileSize
        && exists a: nat :: Counted(a, builder[0])
    }

    ghost predicate Counted(a: nat, first: Entry)
      reads this
      requires grandparentIndex <= |grandparents|
    {
      && a <= grandparentIndex && (forall i | 0 <= i < a :: Before(grandparents[i].Largest(), first))
      && TotalFileSize(grandparents[a..grandparentIndex]) <= overlappedBytes
    }

    lemma SpanningIsNarrow(es: seq<Entry>)
      requires Valid() && es != [] && Spanning(es) && grandparentIndex <= |grandparents|
      requires grandparentIndex < |grandparents| ==> !Before(grandparents[grandparentIndex].Largest(), es[|es| - 1])
      ensures Narrow(grandparents, version.targetFileSize, es)
    {
      hide TotalFileSize, Startable;
      var from: nat :| Counted(from, es[0]);
      forall a, b | 0 <= a <= b <= |grandparents| && EndWithin(grandparents, a, b, es)
        ensures TotalFileSize(grandparents[a..b]) <= 10 * version.targetFileSize {
        if a == b {
          NoneSoFar(grandparents[a..b]);
          assert grandparents[a..b][..0] == grandparents[a..b];
        } else {
          assert !Before(grandparents[a].Largest(), es[0]) && Before(grandparents[b - 1].Largest(), es[|es| - 1]);
          if b > grandparentIndex && grandparentIndex < b - 1 {
            LargestInOrder(grandparents, grandparentIndex, b - 1);
          }
          SizesAdd(grandparents, from, a);
          SizesAdd(grandparents, a, b);
          SizesAdd(grandparents, b, grandparentIndex);
          SizesAdd(grandparents, from, grandparentIndex);
        }
      }
    }

    // Asks for the key behind builder.
    method AskToStop(e: Entry, builder: seq<Entry>) returns (stop: bool)
      requires Valid() && Scanned(e) && Spanning(builder)
      modifies `grandparentIndex, `seenKey, `overlappedBytes
      ensures Valid() && Scanned(e) && grandparentIndex <= |grandparents|
      ensures stop ==> exists passed | Passed(version.Levels(), Spec(), passed, e) ::
                TotalFileSize(passed) > 10 * version.targetFileSize
      ensures grandparentIndex < |grandparents| ==> !Before(grandparents[grandparentIndex].Largest(), e)
      ensures Spanning(if stop then [e] else builder + [e])
    {
      hide Startable, TotalFileSize, Passed, InOrder;
      ghost var from: nat := 0;
      if builder != [] {
        from :| Counted(from, builder[0]);
      }
      ghost var before := grandparentIndex;
      stop := ShouldStopBefore(e);
      NoneSoFar(grandparents[grandparentIndex..]);
      assert grandparents[grandparentIndex..][..0] == grandparents[grandparentIndex..grandparentIndex];
      if !stop && builder != [] {
        SizesAdd(grandparents, from, before);
        SizesAdd(grandparents, from, grandparentIndex);
        assert (builder + [e])[0] == builder[0];
        assert Counted(from, builder[0]);
        assert Spanning(builder + [e]);
      } else {
        assert [e][0] == e;
        assert Counted(grandparentIndex, [e][0]);
        assert Spanning([e]);
        assert builder == [] ==> builder + [e] == [e];
      }
    }

    // Closes the current output when the next key would overlap too much.
    method StopIfDue(outputs: seq<Table>, builder: seq<Entry>, input: seq<Entry>, i: nat, firstNumber: nat,
                     sizeOf: seq<Entry> -> nat)
      returns (r: seq<Table>, b: seq<Entry>)
      requires Valid() && Mergeable(input) && i < |input| && Scanned(input[i])
      requires Building(outputs, builder, input[..i], firstNumber)
      requires CutSoFar(version.Levels(), Spec(), version.targetFileSize, outputs, builder, input, i)
      requires CutInTime(grandparents, version.targetFileSize, sizeOf, outputs, builder) && Spanning(builder)
      modifies `grandparentIndex, `seenKey, `overlappedBytes
      ensures Valid() && Scanned(input[i]) && Building(r, b, input[..i], firstNumber)
      ensures CutSoFar(version.Levels(), Spec(), version.targetFileSize, r, b, input, i)
      ensures CutInTime(grandparents, version.targetFileSize, sizeOf, r, b) && Spanning(b + [input[i]])
      ensures Narrow(grandparents, version.targetFileSize, b + [input[i]])
      ensures FilesContent(FileSet(r)) + Content(b) == FilesContent(FileSet(outputs)) + Content(builder)
    {
      hide Startable, Building, FilesContent, Mergeable, InOrder, CutSoFar, CutInTime, TotalFileSize, Narrow;
      hide Scanned, Spanning, Counted;
      r, b := outputs, builder;
      var stop := AskToStop(input[i], builder);
      if stop && builder != [] {
        r := FinishCompactionOutputFile(outputs, builder, input[..i], firstNumber, sizeOf(builder));
        ClosedInTime(grandparents, version.targetFileSize, sizeOf, outputs, builder, firstNumber);
        CutAtStop(version.Levels(), Spec(), version.targetFileSize, outputs, builder, input, i, firstNumber, sizeOf(builder));
        b := [];
      }
      assert b == [] ==> b + [input[i]] == [input[i]];
      SpanningIsNarrow(b + [input[i]]);
    }

    // One pass over the merged inputs, dropping by the two rules and cutting the output where
    // it overlaps too much below or is large enough.
    method DoCompactionWork(input: seq<Entry>, smallest: nat, sizeOf: seq<Entry> -> nat, firstNumber: nat)
      returns (outputs: seq<Table>)
      requires Valid() && AtStart()
      requires Mergeable(input) && Content(input) == Inputs(Spec())
      requires smallest < MAX_SEQUENCE
      modifies levelPtrs, `grandparentIndex, `seenKey, `overlappedBytes
      ensures Valid() && InOrder(outputs)
      ensures FilesContent(FileSet(outputs)) == Survivors(version.Levels(), Spec(), smallest)
      ensures forall e | e in FilesContent(FileSet(outputs)) :: e in input
      ensures forall e, d | e in FilesContent(FileSet(outputs)) && d in input && d.key == e.key && d.seqno <= smallest ::
                d.seqno <= e.seqno
      ensures forall e | e in FilesContent(FileSet(outputs)) && e.op.Delete? && e.seqno <= smallest ::
                exists l, f :: level + 2 <= l < NUM_LEVELS && f in version.files[l] && f.Lo() <= e.key <= f.Hi()
      ensures forall e | e in input && e !in FilesContent(FileSet(outputs)) ::
                || (exists d | d in input :: d.key == e.key && e.seqno < d.seqno <= smallest)
                || (&& e.op.Delete? && e.seqno <= smallest
                    && forall l, f | level + 2 <= l < NUM_LEVELS && f in version.files[l] :: e.key < f.Lo() || f.Hi() < e.key)
      ensures Cuts(version.Levels(), Spec(), version.targetFileSize, FileSet(outputs))
      ensures forall f | f in outputs :: Sized(f, version.targetFileSize, sizeOf) && Narrow(grandparents, version.targetFileSize, f.entries)
      ensures forall i | 0 <= i < |outputs| :: outputs[i].number == firstNumber + i
    {
      hide Startable, Survivors, Inputs, Dropped, Building, FilesContent, Mergeable, Kept, InOrder, CutSoFar, Cuts;
      hide Narrow, Sized, CutInTime, Spanning, Scanned, AtStart, PointersBelow;
      HasAllLevels();
      ghost var levels, c := version.Levels(), Spec();
      outputs := [];
      var builder: seq<Entry> := [];
      var currentUserKey: Option<UserKey> := None;
      var lastSequenceForKey := MAX_SEQUENCE;
      SpanningStays([], []);
      StartBuilding(levels, c, smallest, version.targetFileSize, input, firstNumber);
      for i := 0 to |input|
        invariant Valid()
        invariant currentUserKey == if i > 0 then Some(input[i - 1].key) else None
        invariant i > 0 ==> lastSequenceForKey == input[i - 1].seqno
        invariant i > 0 ==> PointersBelow(input[i - 1].key)
        invariant if i == 0 then AtStart() else Scanned(input[i - 1])
        invariant Building(outputs, builder, input[..i], firstNumber)
        invariant CutSoFar(levels, c, version.targetFileSize, outputs, builder, input, i)
        invariant CutInTime(grandparents, version.targetFileSize, sizeOf, outputs, builder) && Spanning(builder)
        invariant FilesContent(FileSet(outputs)) + Content(builder) == Kept(levels, c, smallest, input[..i])
      {
        KeysGrow(input, i);
        if i > 0 {
          ScanGoesOn(input[i - 1], input[i]);
          PointersGoOn(input[i - 1].key, input[i].key);
        } else {
          NothingPassed(input[i]);
        }
        outputs, builder := StopIfDue(outputs, builder, input, i, firstNumber, sizeOf);
        if currentUserKey != Some(input[i].key) {
          currentUserKey := Some(input[i].key);
          lastSequenceForKey := MAX_SEQUENCE;
        }
        var drop := ShouldDrop(input, i, lastSequenceForKey, smallest);
        lastSequenceForKey := input[i].seqno;
        KeptStep(levels, c, smallest, input, i);
        if drop {
          SpanningStays(builder + [input[i]], builder);
          SkipStep(outputs, builder, input, i, firstNumber);
          CutSkips(levels, c, version.targetFileSize, outputs, builder, input, i);
        } else {
          ghost var b := builder + [input[i]];
          outputs, builder := AddToOutput(levels, c, grandparents, version.targetFileSize, outputs, builder, input, i, firstNumber, sizeOf);
          SpanningStays(b, builder);
        }
      }
      assert input[..|input|] == input;
      ghost var rest: seq<Entry> := [];
      if builder != [] {
        var closed := FinishCompactionOutputFile(outputs, builder, input, firstNumber, sizeOf(builder));
        CutLast(levels, c, version.targetFileSize, outputs, builder, input, firstNumber, sizeOf(builder));
        ClosedInTime(grandparents, version.targetFileSize, sizeOf, outputs, builder, firstNumber);
        outputs := closed;
      }
      KeptIsSurvivors(levels, c, smallest, input);
      SurvivorsIff(version, c, input, smallest, FilesContent(FileSet(outputs)));
      OutputsInTime(grandparents, version.targetFileSize, sizeOf, outputs, rest);
      BuildingIsOrdered(outputs, [], input, firstNumber);
      CutsAreOk(levels, c, version.targetFileSize, outputs, input);
    }
  }

  // The drop rules, with the files of the version spelled out.
  lemma DroppedIff(v: Version, c: Compaction, input: seq<Entry>, smallest: nat, e: Entry)
    requires |v.files| == NUM_LEVELS && Content(input) == Inputs(c)
    ensures Dropped(v.Levels(), c, smallest, e) <==>
              || (exists d | d in input :: d.key == e.key && e.seqno < d.seqno <= smallest)
              || (&& e.op.Delete? && e.seqno <= smallest
                  && forall l, f | c.level + 2 <= l < NUM_LEVELS && f in v.files[l] :: e.key < f.Lo() || f.Hi() < e.key)
  {
    hide Inputs;
    forall d ensures d in input <==> d in Inputs(c) {
      assert d in input <==> d in Content(input);
    }
    BaseLevelIff(v, c.level, e.key);
  }

  lemma BaseLevelIff(v: Version, level: nat, u: UserKey)
    requires |v.files| == NUM_LEVELS
    ensures BaseLevel(v.Levels(), level, u) <==>
            forall l, f | level + 2 <= l < NUM_LEVELS && f in v.files[l] :: u < f.Lo() || f.Hi() < u
  {
    if BaseLevel(v.Levels(), level, u) {
      forall l, f | level + 2 <= l < NUM_LEVELS && f in v.files[l] ensures u < f.Lo() || f.Hi() < u {
        assert f in v.Levels()[l];
        assert !Covers(f, u);
      }
    }
  }

  lemma SurvivorsIff(v: Version, c: Compaction, input: seq<Entry>, smallest: nat, outs: set<Entry>)
    requires |v.files| == NUM_LEVELS && Content(input) == Inputs(c) && outs == Survivors(v.Levels(), c, smallest)
    ensures forall e | e in outs :: e in input
    ensures forall e, d | e in outs && d in input && d.key == e.key && d.seqno <= smallest :: d.seqno <= e.seqno
    ensures forall e | e in outs && e.op.Delete? && e.seqno <= smallest ::
              exists l, f :: c.level + 2 <= l < NUM_LEVELS && f in v.files[l] && f.Lo() <= e.key <= f.Hi()
    ensures forall e | e in input && e !in outs ::
              || (exists d | d in input :: d.key == e.key && e.seqno < d.seqno <= smallest)
              || (&& e.op.Delete? && e.seqno <= smallest
                  && forall l, f | c.level + 2 <= l < NUM_LEVELS && f in v.files[l] :: e.key < f.Lo() || f.Hi() < e.key)
  {
    hide Inputs, Dropped;
    forall d ensures d in input <==> d in Inputs(c) {
      assert d in input <==> d in Content(input);
    }
    forall e ensures e in outs <==> e in input && !Dropped(v.Levels(), c, smallest, e) {
    }
    forall e {
      DroppedIff(v, c, input, smallest, e);
    }
  }

  // ---------- where the outputs are cut

  // Grandparents a .. b - 1 end between the first and the last of the entries.
  ghost predicate EndWithin(grandparents: seq<Table>, a: nat, b: nat, es: seq<Entry>)
    requires a <= b <= |grandparents|
  {
    es != [] && forall i | a <= i < b ::
      !Before(grandparents[i].Largest(), es[0]) && Before(grandparents[i].Largest(), es[|es| - 1])
  }

  // The entries do not reach over too much of the level after the next.
  ghost predicate Narrow(grandparents: seq<Table>, target: nat, es: seq<Entry>) {
    forall a, b | 0 <= a <= b <= |grandparents| && EndWithin(grandparents, a, b, es) ::
      TotalFileSize(grandparents[a..b]) <= 10 * target
  }

  // The file was not full before its last entry.
  ghost predicate Sized(f: Table, target: nat, sizeOf: seq<Entry> -> nat) {
    f.size == sizeOf(f.entries) && forall n | 0 < n < |f.entries| :: sizeOf(f.entries[..n]) < target
  }

  // No output went on longer than it may.
  ghost predicate CutInTime(grandparents: seq<Table>, target: nat, sizeOf: seq<Entry> -> nat, outputs: seq<Table>,
                            builder: seq<Entry>) {
    && (forall f | f in outputs :: Sized(f, target, sizeOf) && Narrow(grandparents, target, f.entries))
    && (forall n | 0 < n <= |builder| :: sizeOf(builder[..n]) < target)
    && Narrow(grandparents, target, builder)
  }

  lemma ClosedInTime(grandparents: seq<Table>, target: nat, sizeOf: seq<Entry> -> nat, outputs: seq<Table>,
                     builder: seq<Entry>, firstNumber: nat)
    requires CutInTime(grandparents, target, sizeOf, outputs, builder) && builder != [] && Sorted(builder)
    ensures CutInTime(grandparents, target, sizeOf, outputs + [File(firstNumber + |outputs|, sizeOf(builder), builder)], [])
  {
    hide Narrow;
    NothingIsNarrow(grandparents, target);
  }

  lemma OutputsInTime(grandparents: seq<Table>, target: nat, sizeOf: seq<Entry> -> nat, outputs: seq<Table>,
                      builder: seq<Entry>)
    requires CutInTime(grandparents, target, sizeOf, outputs, builder)
    ensures forall f | f in outputs :: Sized(f, target, sizeOf) && Narrow(grandparents, target, f.entries)
  {
  }

  lemma NothingIsNarrow(grandparents: seq<Table>, target: nat)
    ensures Narrow(grandparents, target, [])
  {
  }

  // One more entry, after which the file is closed if it is full.
  lemma AddedInTime(grandparents: seq<Table>, target: nat, sizeOf: seq<Entry> -> nat, outputs: seq<Table>,
                    builder: seq<Entry>, e: Entry, firstNumber: nat)
    requires CutInTime(grandparents, target, sizeOf, outputs, builder) && Narrow(grandparents, target, builder + [e])
    requires Sorted(builder + [e])
    ensures var b := builder + [e];
            if sizeOf(b) >= target then
              CutInTime(grandparents, target, sizeOf, outputs + [File(firstNumber + |outputs|, sizeOf(b), b)], [])
            else CutInTime(grandparents, target, sizeOf, outputs, b)
  {
    hide Narrow;
    NothingIsNarrow(grandparents, target);
    var b := builder + [e];
    forall n | 0 < n < |b| ensures sizeOf(b[..n]) < target {
      assert b[..n] == builder[..n];
    }
    assert b[..|b|] == b;
  }

  lemma {:induction false} SizesAdd(files: seq<Table>, a: nat, b: nat)
    requires a <= b <= |files|
    ensures TotalFileSize(files[..b]) == TotalFileSize(files[..a]) + TotalFileSize(files[a..b])
  {
    if a < b {
      SizesAdd(files, a, b - 1);
      assert files[..b][..b - 1] == files[..b - 1];
      assert files[a..b][..b - 1 - a] == files[a..b - 1];
    } else {
      assert files[a..b] == [];
    }
  }

  // Every output was closed for a reason that holds of the key after it.
  ghost predicate CutSoFar(levels: seq<set<Table>>, c: Compaction, target: nat, outputs: seq<Table>,
                           builder: seq<Entry>, input: seq<Entry>, i: nat) {
    && (forall k | 0 <= k < |outputs| - 1 :: CutOk(levels, c, target, outputs[k], outputs[k + 1].Smallest()))
    && (outputs != [] ==>
          var f := outputs[|outputs| - 1];
          if builder != [] then CutOk(levels, c, target, f, builder[0])
          else forall j | i <= j < |input| :: CutOk(levels, c, target, f, input[j]))
  }

  lemma CutLater(levels: seq<set<Table>>, c: Compaction, target: nat, f: Table, e: Entry, d: Entry)
    requires CutOk(levels, c, target, f, e) && (e == d || Before(e, d))
    ensures CutOk(levels, c, target, f, d)
  {
    if f.size < target {
      var passed :| Passed(levels, c, passed, e) && TotalFileSize(passed) > 10 * target;
      assert Passed(levels, c, passed, d);
    }
  }

  // Closing the output behind builder, which the next keys justify.
  lemma CutCloses(levels: seq<set<Table>>, c: Compaction, target: nat, outputs: seq<Table>, builder: seq<Entry>,
                  input: seq<Entry>, i: nat, n: nat, f: Table)
    requires CutSoFar(levels, c, target, outputs, builder, input, i) && builder != [] && f.entries == builder
    requires forall j | n <= j < |input| :: CutOk(levels, c, target, f, input[j])
    ensures CutSoFar(levels, c, target, outputs + [f], [], input, n)
  {
    hide CutOk;
    var all := outputs + [f];
    forall k | 0 <= k < |all| - 1 ensures CutOk(levels, c, target, all[k], all[k + 1].Smallest()) {
      if k < |outputs| - 1 {
        assert all[k] == outputs[k] && all[k + 1] == outputs[k + 1];
      }
    }
  }

  lemma CutAtStop(levels: seq<set<Table>>, c: Compaction, target: nat, outputs: seq<Table>, builder: seq<Entry>,
                  input: seq<Entry>, i: nat, firstNumber: nat, size: nat)
    requires CutSoFar(levels, c, target, outputs, builder, input, i) && builder != [] && Sorted(builder)
    requires Mergeable(input) && i < |input|
    requires exists passed | Passed(levels, c, passed, input[i]) :: TotalFileSize(passed) > 10 * target
    ensures CutSoFar(levels, c, target, outputs + [File(firstNumber + |outputs|, size, builder)], [], input, i)
  {
    var f: Table := File(firstNumber + |outputs|, size, builder);
    forall j | i <= j < |input| ensures CutOk(levels, c, target, f, input[j]) {
      CutLater(levels, c, target, f, input[i], input[j]);
    }
    CutCloses(levels, c, target, outputs, builder, input, i, i, f);
  }

  lemma CutLast(levels: seq<set<Table>>, c: Compaction, target: nat, outputs: seq<Table>, builder: seq<Entry>,
                input: seq<Entry>, firstNumber: nat, size: nat)
    requires CutSoFar(levels, c, target, outputs, builder, input, |input|) && builder != [] && Sorted(builder)
    ensures CutSoFar(levels, c, target, outputs + [File(firstNumber + |outputs|, size, builder)], [], input, |input|)
  {
    CutCloses(levels, c, target, outputs, builder, input, |input|, |input|, File(firstNumber + |outputs|, size, builder));
  }

  lemma CutSkips(levels: seq<set<Table>>, c: Compaction, target: nat, outputs: seq<Table>, builder: seq<Entry>,
                 input: seq<Entry>, i: nat)
    requires CutSoFar(levels, c, target, outputs, builder, input, i) && i < |input|
    ensures CutSoFar(levels, c, target, outputs, builder, input, i + 1)
  {
  }

  // The entry at i goes to the output.
  lemma CutAdds(levels: seq<set<Table>>, c: Compaction, target: nat, outputs: seq<Table>, builder: seq<Entry>,
                input: seq<Entry>, i: nat)
    requires CutSoFar(levels, c, target, outputs, builder, input, i) && i < |input|
    ensures CutSoFar(levels, c, target, outputs, builder + [input[i]], input, i + 1)
  {
    hide CutOk;
    assert (builder + [input[i]])[0] == if builder == [] then input[i] else builder[0];
  }

  lemma CutWhenFull(levels: seq<set<Table>>, c: Compaction, target: nat, outputs: seq<Table>, builder: seq<Entry>,
                    input: seq<Entry>, i: nat, firstNumber: nat, size: nat)
    requires CutSoFar(levels, c, target, outputs, builder, input, i) && builder != [] && Sorted(builder) && size >= target
    ensures CutSoFar(levels, c, target, outputs + [File(firstNumber + |outputs|, size, builder)], [], input, i)
  {
    CutCloses(levels, c, target, outputs, builder, input, i, i, File(firstNumber + |outputs|, size, builder));
  }

  lemma NotBothBefore(f: Table, g: Table)
    requires FileBefore(f, g)
    ensures !FileBefore(g, f) && f != g
  {
    SmallestToLargest(f);
    SmallestToLargest(g);
  }

  lemma CutsAreOk(levels: seq<set<Table>>, c: Compaction, target: nat, outputs: seq<Table>, input: seq<Entry>)
    requires InOrder(outputs) && CutSoFar(levels, c, target, outputs, [], input, |input|)
    ensures Cuts(levels, c, target, FileSet(outputs))
  {
    hide CutOk, FileBefore;
    forall f, g | f in FileSet(outputs) && g in FileSet(outputs) && FileBefore(f, g)
        && (forall h | h in FileSet(outputs) :: h == f || h == g || FileBefore(h, f) || FileBefore(g, h))
      ensures CutOk(levels, c, target, f, g.Smallest())
    {
      var a :| 0 <= a < |outputs| && outputs[a] == f;
      var b :| 0 <= b < |outputs| && outputs[b] == g;
      NotBothBefore(f, g);
      assert a < b;
      if a + 1 < b {
        var h := outputs[a + 1];
        assert h in FileSet(outputs) && FileBefore(f, h) && FileBefore(h, g);
        NotBothBefore(f, h);
        NotBothBefore(h, g);
      }
    }
  }

  lemma KeysGrow(input: seq<Entry>, i: nat)
    requires Mergeable(input) && i < |input|
    ensures i > 0 ==> input[i - 1].key <= input[i].key && Before(input[i - 1], input[i])
  {
    assert i > 0 ==> Before(input[i - 1], input[i]);
  }

  // Closes the current output under the next file number.
  method FinishCompactionOutputFile(outputs: seq<Table>, builder: seq<Entry>, ghost done: seq<Entry>,
                                    firstNumber: nat, size: nat) returns (r: seq<Table>)
    requires Building(outputs, builder, done, firstNumber) && builder != []
    ensures Building(r, [], done, firstNumber)
    ensures FilesContent(FileSet(r)) == FilesContent(FileSet(outputs)) + Content(builder)
    ensures Sorted(builder) && r == outputs + [File(firstNumber + |outputs|, size, builder)]
  {
    FinishStep(outputs, builder, done, firstNumber, size);
    r := outputs + [File(firstNumber + |outputs|, size, builder)];
  }

  // Adds an entry to the current output and closes it when it is big enough.
  method AddToOutput(ghost levels: seq<set<Table>>, ghost c: Compaction, ghost grandparents: seq<Table>, target: nat, outputs: seq<Table>,
                     builder: seq<Entry>, input: seq<Entry>, i: nat, firstNumber: nat, sizeOf: seq<Entry> -> nat)
    returns (r: seq<Table>, b: seq<Entry>)
    requires Mergeable(input) && i < |input| && Building(outputs, builder, input[..i], firstNumber)
    requires CutSoFar(levels, c, target, outputs, builder, input, i)
    requires CutInTime(grandparents, target, sizeOf, outputs, builder) && Narrow(grandparents, target, builder + [input[i]])
    ensures Building(r, b, input[..i + 1], firstNumber) && CutSoFar(levels, c, target, r, b, input, i + 1)
    ensures CutInTime(grandparents, target, sizeOf, r, b) && (b != [] ==> b[0] == (builder + [input[i]])[0])
    ensures FilesContent(FileSet(r)) + Content(b)
         == FilesContent(FileSet(outputs)) + Content(builder) + {input[i]}
  {
    hide Building, FilesContent, CutSoFar, CutInTime, Narrow;
    AddStep(outputs, builder, input, i, firstNumber);
    BuilderIsSorted(outputs, builder + [input[i]], input[..i + 1], firstNumber);
    AddedInTime(grandparents, target, sizeOf, outputs, builder, input[i], firstNumber);
    CutAdds(levels, c, target, outputs, builder, input, i);
    r, b := outputs, builder + [input[i]];
    if sizeOf(b) >= target {
      r := FinishCompactionOutputFile(outputs, b, input[..i + 1], firstNumber, sizeOf(b));
      CutWhenFull(levels, c, target, outputs, b, input, i + 1, firstNumber, sizeOf(b));
      b := [];
    }
  }

  lemma StartBuilding(levels: seq<set<Table>>, c: Compaction, smallest: nat, target: nat, input: seq<Entry>,
                      firstNumber: nat)
    ensures CutSoFar(levels, c, target, [], [], input, 0)
    ensures forall grandparents, sizeOf :: CutInTime(grandparents, target, sizeOf, [], [])
    ensures Building([], [], input[..0], firstNumber)
    ensures FilesContent(FileSet([])) + Content([]) == Kept(levels, c, smallest, input[..0])
  {
  }

  lemma BuilderIsSorted(outputs: seq<Table>, builder: seq<Entry>, done: seq<Entry>, firstNumber: nat)
    requires Building(outputs, builder, done, firstNumber)
    ensures Sorted(builder)
  {
  }

  lemma BuildingIsOrdered(outputs: seq<Table>, builder: seq<Entry>, done: seq<Entry>, firstNumber: nat)
    requires Building(outputs, builder, done, firstNumber)
    ensures InOrder(outputs) && forall i | 0 <= i < |outputs| :: outputs[i].number == firstNumber + i
  {
  }

  // Sorted, with distinct sequence numbers for each user key.
  ghost predicate Mergeable(input: seq<Entry>) {
    && Sorted(input)
    && forall i, j | 0 <= i < j < |input| && input[i].key == input[j].key :: input[i].seqno != input[j].seqno
  }

  ghost function Kept(levels: seq<set<Table>>, c: Compaction, smallest: nat, es: seq<Entry>): set<Entry> {
    set e | e in es && !Dropped(levels, c, smallest, e)
  }

  lemma KeptIsSurvivors(levels: seq<set<Table>>, c: Compaction, smallest: nat, input: seq<Entry>)
    requires Content(input) == Inputs(c)
    ensures Kept(levels, c, smallest, input) == Survivors(levels, c, smallest)
  {
    forall e ensures e in input <==> e in Inputs(c) {
      assert e in input <==> e in Content(input);
    }
  }

  lemma KeptStep(levels: seq<set<Table>>, c: Compaction, smallest: nat, input: seq<Entry>, i: nat)
    requires i < |input|
    ensures Kept(levels, c, smallest, input[..i + 1])
         == Kept(levels, c, smallest, input[..i]) + (if Dropped(levels, c, smallest, input[i]) then {} else {input[i]})
  {
    hide Dropped;
    assert input[..i + 1] == input[..i] + [input[i]];
  }

  // The sequence number of the entry just before tells whether an entry is hidden.
  lemma HiddenByPrevious(input: seq<Entry>, i: nat, smallest: nat)
    requires Mergeable(input) && i < |input|
    ensures Hidden(Content(input), smallest, input[i])
       <==> i > 0 && input[i - 1].key == input[i].key && input[i - 1].seqno <= smallest
  {
    if Hidden(Content(input), smallest, input[i]) {
      var d :| d in Content(input) && d.key == input[i].key && input[i].seqno < d.seqno <= smallest;
      var j :| 0 <= j < |input| && input[j] == d;
      assert i != j ==> Before(input[if i < j then i else j], input[if i < j then j else i]);
      assert j < i - 1 ==> Before(input[j], input[i - 1]);
      assert Before(input[i - 1], input[i]);
    } else if i > 0 {
      assert Before(input[i - 1], input[i]);
      assert input[i - 1] in Content(input);
    }
  }

  // outputs and then builder hold entries of done in order.
  ghost predicate Building(outputs: seq<Table>, builder: seq<Entry>, done: seq<Entry>, firstNumber: nat) {
    && InOrder(outputs)
    && Sorted(builder)
    && (forall e | e in builder :: e in done)
    && (forall f | f in outputs :: f.Largest() in done && (builder != [] ==> Before(f.Largest(), builder[0])))
    && (forall i | 0 <= i < |outputs| :: outputs[i].number == firstNumber + i)
  }

  lemma FinishStep(outputs: seq<Table>, builder: seq<Entry>, done: seq<Entry>, firstNumber: nat, size: nat)
    requires Building(outputs, builder, done, firstNumber) && builder != []
    ensures var f := File(firstNumber + |outputs|, size, builder);
            && f.WF()
            && Building(outputs + [f], [], done, firstNumber)
            && FilesContent(FileSet(outputs + [f])) == FilesContent(FileSet(outputs)) + Content(builder)
  {
    var f := File(firstNumber + |outputs|, size, builder);
    assert builder[|builder| - 1] in builder;
    assert f in outputs + [f];
    forall g | g in outputs ensures g in outputs + [f] {
    }
  }

  lemma SkipStep(outputs: seq<Table>, builder: seq<Entry>, input: seq<Entry>, i: nat, firstNumber: nat)
    requires i < |input| && Building(outputs, builder, input[..i], firstNumber)
    ensures Building(outputs, builder, input[..i + 1], firstNumber)
  {
    assert input[..i + 1] == input[..i] + [input[i]];
  }

  lemma AddStep(outputs: seq<Table>, builder: seq<Entry>, input: seq<Entry>, i: nat, firstNumber: nat)
    requires Mergeable(input) && i < |input| && Building(outputs, builder, input[..i], firstNumber)
    ensures Building(outputs, builder + [input[i]], input[..i + 1], firstNumber)
    ensures Content(builder + [input[i]]) == Content(builder) + {input[i]}
  {
    forall e | e in input[..i] ensures Before(e, input[i]) && e in input[..i + 1] {
      var j :| 0 <= j < i && input[j] == e;
      assert input[..i + 1][j] == e;
    }
    assert input[..i + 1][i] == input[i];
    var b := builder + [input[i]];
    forall j, k | 0 <= j < k < |b| ensures Before(b[j], b[k]) {
      if k == |builder| {
        assert b[j] in builder;
      }
    }
  }

  lemma NoFileCovers(files: seq<Table>, p: nat, u: UserKey)
    requires InOrder(files) && p <= |files|
    requires forall i | 0 <= i < p :: files[i].Hi() < u
    requires p < |files| ==> u < files[p].Lo()
    ensures forall f | f in files :: !Covers(f, u)
  {
    forall i | p < i < |files| ensures u < files[i].Lo() {
      assert FileBefore(files[p], files[i]);
      SmallestToLargest(files[p]);
    }
  }

  // What a job's first inputs must satisfy.
  ghost predicate Startable(v: Version, level: nat, inputs0: seq<Table>) {
    && v.Valid() && level + 1 < NUM_LEVELS && inputs0 != []
    && Sublist(v.files[level], inputs0)
    && (level == 0 ==> forall f | f in v.files[0] && !Outside(f, FileSet(inputs0)) :: f in inputs0)
  }

  // Grows the inputs of the level if the next level then needs no further file.
  method Expand(v: Version, level: nat, inputs0: seq<Table>, inputs1: seq<Table>)
    returns (r0: seq<Table>, r1: seq<Table>)
    requires Startable(v, level, inputs0)
    requires Chosen(v.Levels(), Compaction(level, FileSet(inputs0), FileSet(inputs1)))
    requires inputs1 == MeetingAll(v.files[level + 1], inputs0) != []
    ensures Startable(v, level, r0)
    ensures SetUp(v, level, inputs0, r0, r1) && Sublist(v.files[level + 1], r1)
    ensures Chosen(v.Levels(), Compaction(level, FileSet(r0), FileSet(r1)))
    ensures forall f | f in inputs0 :: f in r0
    ensures |r0| >= |inputs0| && |r1| == |inputs1|
  {
    hide Chosen, Outside, TotalFileSize, LoOf, HiOf, Selected, Requested, SetUp, Startable, Grows, Sublist;
    InLevels(v, level, inputs0);
    SelectedIsSublist(v.files[level + 1], Some(LoOf(inputs0)), Some(HiOf(inputs0)));
    var allLo, allHi := GetRange(inputs0 + inputs1);
    RangeIs(inputs0 + inputs1, allLo, allHi);
    var expanded0, b, e := RequestInputs(level, v.files[level], allLo.key, allHi.key);
    forall f | f in inputs0 ensures f in expanded0 {
      assert f in inputs0 + inputs1;
      RangeMeets(f, allLo, allHi);
      MeetsWider(f, Some(allLo.key), Some(allHi.key), b, e);
    }
    r0, r1 := inputs0, inputs1;
    if |expanded0| > |inputs0|
       && TotalFileSize(inputs1) + TotalFileSize(expanded0) < 25 * v.targetFileSize {
      var newLo, newHi := GetRange(expanded0);
      RangeIs(expanded0, newLo, newHi);
      var expanded1, _, _ := GetOverlappingInputs(level + 1, v.files[level + 1], Some(newLo.key), Some(newHi.key));
      if |expanded1| == |inputs1| {
        if level == 0 {
          ClosedHullIsComplete(v.files[0], b, e, expanded0);
        }
        GrownIsStartable(v, level, inputs0, expanded0);
        ChosenByRange(v, level, expanded0, newLo, newHi);
        SelectedIsSublist(v.files[level + 1], Some(newLo.key), Some(newHi.key));
        r0, r1 := expanded0, expanded1;
      }
    }
    GrowsWhen(v, level, inputs0, inputs1, expanded0);
    SetUpBy(v, level, inputs0, inputs1, expanded0, b, e, r0, r1);
  }

  // The files of a level for a range.
  method RequestInputs(level: nat, files: seq<Table>, lo: UserKey, hi: UserKey)
    returns (inputs: seq<Table>, b: Option<UserKey>, e: Option<UserKey>)
    ensures Requested(level, files, Some(lo), Some(hi), inputs, b, e) && Sublist(files, inputs)
    ensures inputs == Selected(files, b, e) && Contains(b, e, Some(lo), Some(hi))
    ensures level == 0 ==> ClosedUnderOverlap(files, b, e)
  {
    hide ClosedUnderOverlap, WithinClosed, Selected, Bridged;
    inputs, b, e := GetOverlappingInputs(level, files, Some(lo), Some(hi));
    WithinClosedMeans(files, Some(lo), Some(hi), b, e);
    SelectedIsSublist(files, b, e);
  }

  lemma InLevels(v: Version, level: nat, inputs0: seq<Table>)
    requires Startable(v, level, inputs0)
    ensures |v.files| == NUM_LEVELS && level + 1 < NUM_LEVELS && inputs0 != []
    ensures forall f | f in inputs0 :: f in v.files[level]
  {
  }

  lemma GrownIsStartable(v: Version, level: nat, inputs0: seq<Table>, grown: seq<Table>)
    requires Startable(v, level, inputs0) && grown != [] && Sublist(v.files[level], grown)
    requires level == 0 ==> forall f | f in v.files[0] && !Outside(f, FileSet(grown)) :: f in grown
    ensures Startable(v, level, grown)
  {
    hide Outside;
  }

  lemma MeetsWider(f: Table, begin: Option<UserKey>, end: Option<UserKey>, b: Option<UserKey>, e: Option<UserKey>)
    requires Meets(f, begin, end) && Contains(b, e, begin, end)
    ensures Meets(f, b, e)
  {
  }

  lemma RangeMeets(f: Table, lo: Entry, hi: Entry)
    requires !Before(f.Smallest(), lo) && !Before(hi, f.Largest())
    ensures Meets(f, Some(lo.key), Some(hi.key))
  {
    SmallestToLargest(f);
  }

  // Files selected by a closed range of level 0 leave out no file meeting their hull.
  lemma ClosedHullIsComplete(files: seq<Table>, b: Option<UserKey>, e: Option<UserKey>, picked: seq<Table>)
    requires ClosedUnderOverlap(files, b, e)
    requires picked == Selected(files, b, e) && picked != []
    ensures forall f | f in files && !Outside(f, FileSet(picked)) :: f in picked
  {
    assert picked[0] in FileSet(picked);
    forall f | f in files && f !in picked ensures Outside(f, FileSet(picked)) {
    }
  }

  // Selecting the next level's files by the range of inputs0 is what Chosen asks for.
  lemma ChosenByRange(v: Version, level: nat, inputs0: seq<Table>, lo: Entry, hi: Entry)
    requires Startable(v, level, inputs0)
    requires exists f | f in inputs0 :: lo == f.Smallest()
    requires exists f | f in inputs0 :: hi == f.Largest()
    requires forall f | f in inputs0 :: !Before(f.Smallest(), lo) && !Before(hi, f.Largest())
    ensures Chosen(v.Levels(), Compaction(level, FileSet(inputs0),
                   FileSet(Selected(v.files[level + 1], Some(lo.key), Some(hi.key)))))
  {
    hide InOrder, Outside, Meets;
    var S := FileSet(inputs0);
    assert inputs0[0] in S;
    var a :| a in inputs0 && lo == a.Smallest();
    var z :| z in inputs0 && hi == z.Largest();
    assert a in S && z in S;
    forall f | f in v.files[level + 1] ensures Outside(f, S) <==> !Meets(f, Some(lo.key), Some(hi.key)) {
      OutsideIsOutOfRange(f, S, lo.key, hi.key);
    }
  }

  // ---------- picking a compaction

  // The file after the compaction pointer of its level, or the first one when there is none.
  ghost predicate IsNextAfter(files: seq<Table>, pointer: Option<IKey>, i: nat) {
    && i < |files|
    && (pointer.Some? && Less(pointer.value, LargestKey(files[i])) ==>
          forall j | 0 <= j < i :: !Less(pointer.value, LargestKey(files[j])))
    && (pointer.None? || !Less(pointer.value, LargestKey(files[i])) ==> i == 0)
    && (pointer.Some? && !Less(pointer.value, LargestKey(files[i])) ==>
          forall j | 0 <= j < |files| :: !Less(pointer.value, LargestKey(files[j])))
  }

  // The pointer left by a pick stands on the last of its files, so the next pick of a sorted
  // level goes on with the file after that one, and after the last file with the first.
  lemma PickingGoesRound(files: seq<Table>, last: nat, i: nat)
    requires InOrder(files) && last < |files| && IsNextAfter(files, Some(LargestKey(files[last])), i)
    ensures i == if last + 1 < |files| then last + 1 else 0
  {
    if last + 1 < |files| {
      LargestInOrder(files, last, last + 1);
    }
    if i < last {
      LargestInOrder(files, i, last);
    }
  }

  // A job for v whose inputs are picked and whose pointers stand at the start.
  ghost predicate Ready(job: CompactionJob, v: Version)
    reads job, job.levelPtrs
  {
    && job.Valid() && job.version == v && Sublist(v.files[job.level + 1], job.inputs1)
    && Chosen(v.Levels(), job.Spec()) && job.AtStart()
    && job.grandparents == Below(v, job.level, job.inputs0 + job.inputs1)
  }

  // The files two levels down that meet the range of the inputs.
  function Below(v: Version, level: nat, inputs: seq<Table>): seq<Table>
    requires inputs != []
  {
    if level + 2 < |v.files| then MeetingAll(v.files[level + 2], inputs) else []
  }

  // Only the pointer of the level changed: it is the last key of the inputs.
  ghost predicate PointerMoved(was: seq<Option<IKey>>, now: seq<Option<IKey>>, level: nat, inputs0: seq<Table>) {
    && level < |was| && level < |now| && now[level].Some? && now == was[level := now[level]]
    && (exists f | f in inputs0 :: LargestKey(f) == now[level].value)
    && forall f | f in inputs0 :: !Less(now[level].value, LargestKey(f))
  }

  method FirstAfter(files: seq<Table>, pointer: Option<IKey>) returns (i: nat)
    requires files != []
    ensures IsNextAfter(files, pointer, i)
  {
    i := 0;
    while i < |files|
      invariant i <= |files| && (i > 0 ==> pointer.Some?)
      invariant forall j | 0 <= j < i :: !Less(pointer.value, LargestKey(files[j]))
    {
      if pointer.None? || Less(pointer.value, LargestKey(files[i])) {
        return;
      }
      i := i + 1;
    }
    // wrap around to the beginning of the key space
    i := 0;
  }

  // Every file of level 0 that meets this one, or one that meets it, and so on.
  method WithOverlapping(v: Version, file: Table) returns (inputs: seq<Table>)
    requires v.Valid() && file in v.files[0]
    ensures Startable(v, 0, inputs) && file in inputs && NoGap(inputs)
    ensures exists b, e :: Requested(0, v.files[0], Some(file.Lo()), Some(file.Hi()), inputs, b, e)
  {
    hide LoOf, HiOf, NoGap, Requested, ClosedUnderOverlap;
    var lo, hi := GetRange([file]);
    assert file in [file];
    var b, e;
    inputs, b, e := RequestInputs(0, v.files[0], lo.key, hi.key);
    RangeMeets(file, lo, hi);
    MeetsWider(file, Some(lo.key), Some(hi.key), b, e);
    ClosedHullIsComplete(v.files[0], b, e, inputs);
    RangeIs([file], lo, hi);
    OneHasNoGap(file);
    RequestedHasNoGap(0, v.files[0], inputs, b, e, [file]);
    SameGap(inputs + [file], inputs);
  }

  method UpToSize(files: seq<Table>, limit: nat) returns (r: seq<Table>)
    requires files != []
    ensures UpTo(files, limit, r)
  {
    var total, i := 0, 0;
    while i < |files|
      invariant i <= |files| && total == TotalFileSize(files[..i])
      invariant i > 0 ==> total < limit
    {
      total := total + files[i].size;
      assert files[..i + 1][..i] == files[..i];
      i := i + 1;
      if total >= limit {
        return files[..i];
      }
    }
    assert files[..|files|] == files;
    assert files[..|files|][..|files| - 1] == files[..|files| - 1];
    r := files;
  }

  // The inputs for one picked file: itself, or in level 0 the files it leads to.
  ghost predicate PickedFor(v: Version, level: nat, file: Table, r0: seq<Table>, r1: seq<Table>) {
    level < |v.files| && exists in0: seq<Table> ::
      && file in in0 && SetUp(v, level, in0, r0, r1) && NoGap(in0) && (forall f | f in in0 :: f in v.files[level])
      && if level > 0 then in0 == [file]
         else exists b, e :: Requested(0, v.files[0], Some(file.Lo()), Some(file.Hi()), in0, b, e)
  }

  lemma PickedBy(v: Version, level: nat, file: Table, in0: seq<Table>, r0: seq<Table>, r1: seq<Table>)
    requires level < |v.files| && file in in0 && SetUp(v, level, in0, r0, r1) && NoGap(in0) && forall f | f in in0 :: f in v.files[level]
    requires if level > 0 then in0 == [file]
             else exists b, e :: Requested(0, v.files[0], Some(file.Lo()), Some(file.Hi()), in0, b, e)
    ensures PickedFor(v, level, file, r0, r1)
  {
    hide SetUp, Requested, NoGap;
  }

  // Picked inputs have no gap between them.
  lemma PickedHaveNoGap(v: Version, level: nat, file: Table, r0: seq<Table>, r1: seq<Table>)
    requires PickedFor(v, level, file, r0, r1)
    ensures r0 != [] && NoGap(r0 + r1)
  {
    hide SetUp, NoGap, Requested;
    var in0: seq<Table> :| file in in0 && SetUp(v, level, in0, r0, r1) && NoGap(in0) && forall f | f in in0 :: f in v.files[level];
    SetUpHasNoGap(v, level, in0, r0, r1);
  }

  // The inputs for a range of keys.
  ghost predicate Ranged(v: Version, level: nat, begin: Option<UserKey>, end: Option<UserKey>, limit: nat,
                         r0: seq<Table>, r1: seq<Table>)
    requires level < |v.files|
  {
    exists asked, b, e, in0 ::
      && Requested(level, v.files[level], begin, end, asked, b, e) && asked != []
      && (if level == 0 then in0 == asked else UpTo(asked, limit, in0))
      && SetUp(v, level, in0, r0, r1)
  }

  // The inputs for a range are determined.
  lemma RangedIsUnique(v: Version, level: nat, begin: Option<UserKey>, end: Option<UserKey>, limit: nat,
                       r0: seq<Table>, r1: seq<Table>, s0: seq<Table>, s1: seq<Table>)
    requires level < |v.files|
    requires Ranged(v, level, begin, end, limit, r0, r1) && Ranged(v, level, begin, end, limit, s0, s1)
    ensures r0 == s0 && r1 == s1
  {
    hide Requested, UpTo, SetUp;
    var x, b, e, in0 :| Requested(level, v.files[level], begin, end, x, b, e) && x != []
      && (if level == 0 then in0 == x else UpTo(x, limit, in0)) && SetUp(v, level, in0, r0, r1);
    var y, c, d, jn0 :| Requested(level, v.files[level], begin, end, y, c, d) && y != []
      && (if level == 0 then jn0 == y else UpTo(y, limit, jn0)) && SetUp(v, level, jn0, s0, s1);
    RequestedIsUnique(level, v.files[level], begin, end, x, b, e, y, c, d);
    if level > 0 {
      UpToIsUnique(x, limit, in0, jn0);
    }
    SetUpIsUnique(v, level, in0, r0, r1, s0, s1);
  }

  lemma RangedBy(v: Version, level: nat, begin: Option<UserKey>, end: Option<UserKey>, limit: nat,
                 asked: seq<Table>, b: Option<UserKey>, e: Option<UserKey>, in0: seq<Table>, r0: seq<Table>, r1: seq<Table>)
    requires level < |v.files| && Requested(level, v.files[level], begin, end, asked, b, e) && asked != []
    requires if level == 0 then in0 == asked else UpTo(asked, limit, in0)
    requires SetUp(v, level, in0, r0, r1)
    ensures Ranged(v, level, begin, end, limit, r0, r1)
  {
    hide Requested, UpTo, SetUp;
  }

  lemma ClosedHasRequested(files: seq<Table>, begin: Option<UserKey>, end: Option<UserKey>,
                           b: Option<UserKey>, e: Option<UserKey>, inputs: seq<Table>)
    requires inputs == Selected(files, b, e) && inputs != []
    requires forall lo, hi | Contains(lo, hi, begin, end) && ClosedUnderOverlap(files, lo, hi) :: Contains(lo, hi, b, e)
    ensures exists f | f in files :: Meets(f, begin, end)
  {
    assert inputs[0] in inputs;
    if forall f | f in files :: !Meets(f, begin, end) {
      assert Contains(begin, end, begin, end) && ClosedUnderOverlap(files, begin, end);
      MeetsWider(inputs[0], b, e, begin, end);
      assert false;
    }
  }

  class CompactionPicker {
    var compactPointer: seq<Option<IKey>>

    ghost predicate Valid()
      reads this
    {
      |compactPointer| == NUM_LEVELS
    }

    constructor ()
      ensures Valid() && forall l | 0 <= l < NUM_LEVELS :: compactPointer[l] == None
    {
      compactPointer := seq(NUM_LEVELS, _ => None);
    }

    // A level that is too big goes on from its pointer; otherwise a file that was searched in
    // vain too often is taken.  Both yield inputs that leave out no file they must not.
    method PickCompaction(v: Version, tooBig: Option<nat>, fileToCompact: Option<(nat, Table)>)
      returns (job: CompactionJob?)
      requires Valid() && v.Valid()
      requires tooBig.Some? ==> tooBig.value + 1 < NUM_LEVELS && v.files[tooBig.value] != []
      requires fileToCompact.Some? ==>
                 fileToCompact.value.0 + 1 < NUM_LEVELS && fileToCompact.value.1 in v.files[fileToCompact.value.0]
      modifies this
      ensures Valid() && (job == null <==> tooBig.None? && fileToCompact.None?)
      ensures job == null ==> compactPointer == old(compactPointer)
      ensures job != null ==>
                && fresh(job) && fresh(job.levelPtrs) && Ready(job, v)
                && job.level == (if tooBig.Some? then tooBig.value else fileToCompact.value.0)
                && PointerMoved(old(compactPointer), compactPointer, job.level, job.inputs0)
      ensures tooBig.Some? ==>
                exists i: nat :: IsNextAfter(v.files[tooBig.value], old(compactPointer)[tooBig.value], i)
                            && PickedFor(v, tooBig.value, v.files[tooBig.value][i], job.inputs0, job.inputs1)
      ensures tooBig.None? && fileToCompact.Some? ==>
                PickedFor(v, fileToCompact.value.0, fileToCompact.value.1, job.inputs0, job.inputs1)
    {
      hide SetUp, Requested, NoGap, Chosen, PickedFor, IsNextAfter, PointerMoved;
      var level: nat, file: Table;
      ghost var picked: nat := 0;
      if tooBig.Some? {
        level := tooBig.value;
        var i := FirstAfter(v.files[level], compactPointer[level]);
        file, picked := v.files[level][i], i;
      } else if fileToCompact.Some? {
        level, file := fileToCompact.value.0, fileToCompact.value.1;
      } else {
        return null;
      }
      var inputs0 := [file];
      assert file in inputs0;
      OneHasNoGap(file);
      OneIsSublist(v.files[level], file);
      if level == 0 {
        inputs0 := WithOverlapping(v, file);
      }
      job := Setup(v, level, inputs0);
      PickedBy(v, level, file, inputs0, job.inputs0, job.inputs1);
      assert tooBig.Some? ==> IsNextAfter(v.files[tooBig.value], old(compactPointer)[tooBig.value], picked);
    }

    // The files of a level that meet a range; above level 0 only as many as reach a size.
    method CompactRange(v: Version, level: nat, begin: Option<UserKey>, end: Option<UserKey>, limit: nat)
      returns (job: CompactionJob?)
      requires Valid() && v.Valid() && level + 1 < NUM_LEVELS
      modifies this
      ensures Valid() && (job == null <==> forall f | f in v.files[level] :: !Meets(f, begin, end))
      ensures job == null ==> compactPointer == old(compactPointer)
      ensures job != null ==>
                && fresh(job) && fresh(job.levelPtrs) && Ready(job, v) && job.level == level
                && PointerMoved(old(compactPointer), compactPointer, level, job.inputs0)
                && (level == 0 ==> forall f | f in v.files[0] && Meets(f, begin, end) :: f in job.inputs0)
                && Ranged(v, level, begin, end, limit, job.inputs0, job.inputs1)
    {
      hide WithinClosed, Chosen;
      var inputs, b, e := GetOverlappingInputs(level, v.files[level], begin, end);
      WithinClosedMeans(v.files[level], begin, end, b, e);
      ghost var asked := inputs;
      assert Requested(level, v.files[level], begin, end, asked, b, e);
      SelectedIsSublist(v.files[level], b, e);
      if inputs == [] {
        if level == 0 {
          forall f | f in v.files[0] && Meets(f, begin, end) ensures f in inputs {
            MeetsWider(f, begin, end, b, e);
          }
        }
        return null;
      }
      if level == 0 {
        ClosedHullIsComplete(v.files[0], b, e, inputs);
        forall f | f in v.files[0] && Meets(f, begin, end) ensures f in inputs {
          MeetsWider(f, begin, end, b, e);
        }
        ClosedHasRequested(v.files[0], begin, end, b, e, inputs);
      } else {
        assert inputs[0] in inputs;
        inputs := UpToSize(inputs, limit);
        PrefixIsSublist(v.files[level], asked, inputs);
      }
      job := Setup(v, level, inputs);
      RangedBy(v, level, begin, end, limit, asked, b, e, inputs, job.inputs0, job.inputs1);
    }

    method Setup(v: Version, level: nat, inputs0: seq<Table>) returns (job: CompactionJob)
      requires Valid() && Startable(v, level, inputs0)
      modifies this
      ensures Valid() && fresh(job) && fresh(job.levelPtrs) && Ready(job, v) && job.level == level
      ensures PointerMoved(old(compactPointer), compactPointer, level, job.inputs0)
      ensures forall f | f in inputs0 :: f in job.inputs0
      ensures SetUp(v, level, inputs0, job.inputs0, job.inputs1)
    {
      hide Chosen, Startable, SetUp, Below, Sublist, InOrder;
      job := new CompactionJob(v, level, inputs0);
      job.SetupOtherInputs();
      job.HasInputs();
      var _, largest := GetRange(job.inputs0);
      compactPointer := compactPointer[level := Some(InternalKey(largest))];
    }
  }
}
