/**
 What the inputs of a compaction are (db/version_set): the files a range asks for, those of
 the next level, and those the level may be grown by.  Picked inputs have no gap between them.
 */
module Selections {
  import opened Coding
  import opened Entries
  import opened Levels
  import opened Versions

  // ---------- ranges

  // The smallest and the largest user key of some files.
  function LoOf(files: seq<Table>): (lo: UserKey)
    requires files != []
    ensures exists f | f in files :: lo == f.Lo()
    ensures forall f | f in files :: lo <= f.Lo()
  {
    var last := files[|files| - 1];
    assert last in files;
    if |files| == 1 then last.Lo()
    else
      var lo := LoOf(files[..|files| - 1]);
      if last.Lo() < lo then last.Lo() else lo
  }

  function HiOf(files: seq<Table>): (hi: UserKey)
    requires files != []
    ensures exists f | f in files :: hi == f.Hi()
    ensures forall f | f in files :: f.Hi() <= hi
  {
    var last := files[|files| - 1];
    assert last in files;
    if |files| == 1 then last.Hi()
    else
      var hi := HiOf(files[..|files| - 1]);
      if hi < last.Hi() then last.Hi() else hi
  }

  lemma RangeIs(files: seq<Table>, smallest: Entry, largest: Entry)
    requires files != []
    requires exists f | f in files :: smallest == f.Smallest()
    requires exists f | f in files :: largest == f.Largest()
    requires forall f | f in files :: !Before(f.Smallest(), smallest) && !Before(largest, f.Largest())
    ensures smallest.key == LoOf(files) && largest.key == HiOf(files)
  {
  }

  // The files of one level that meet the range of others.
  function MeetingAll(files: seq<Table>, others: seq<Table>): seq<Table>
    requires others != []
  {
    Selected(files, Some(LoOf(others)), Some(HiOf(others)))
  }

  // ---------- what a range asks for

  // The files of a level for a request: those meeting it, and in level 0 those meeting the
  // least range that holds it and is closed under overlap.
  ghost predicate Requested(level: nat, files: seq<Table>, begin: Option<UserKey>, end: Option<UserKey>,
                            inputs: seq<Table>, b: Option<UserKey>, e: Option<UserKey>) {
    && inputs == Selected(files, b, e)
    && b.Some? == begin.Some? && e.Some? == end.Some?
    && (level > 0 ==> b == begin && e == end)
    && (level == 0 ==>
          && ClosedUnderOverlap(files, b, e) && Contains(b, e, begin, end)
          && WithinClosed(files, begin, end, b, e))
  }

  lemma RequestedIsUnique(level: nat, files: seq<Table>, begin: Option<UserKey>, end: Option<UserKey>,
                          x: seq<Table>, b: Option<UserKey>, e: Option<UserKey>,
                          y: seq<Table>, c: Option<UserKey>, d: Option<UserKey>)
    requires Requested(level, files, begin, end, x, b, e) && Requested(level, files, begin, end, y, c, d)
    ensures x == y
  {
    if level == 0 {
      assert Contains(b, e, c, d) && Contains(c, d, b, e);
    }
  }

  // The first files, as many as it takes to reach the limit.
  predicate UpTo(files: seq<Table>, limit: nat, r: seq<Table>) {
    && r != [] && r <= files
    && (|r| < |files| ==> TotalFileSize(r) >= limit)
    && (|r| > 1 ==> TotalFileSize(r[..|r| - 1]) < limit)
  }

  // ---------- the inputs of both levels

  // Whether the inputs of the level are grown to ex: the next level needs no further file, and
  // all of it is not too much.
  predicate Grows(v: Version, level: nat, in0: seq<Table>, in1: seq<Table>, ex: seq<Table>)
    requires |v.files| == NUM_LEVELS && level + 1 < NUM_LEVELS
  {
    && |ex| > |in0|
    && TotalFileSize(in1) + TotalFileSize(ex) < 25 * v.targetFileSize
    && |MeetingAll(v.files[level + 1], ex)| == |in1|
  }

  // SetupOtherInputs makes inputs r0 and r1 of in0.
  ghost predicate SetUp(v: Version, level: nat, in0: seq<Table>, r0: seq<Table>, r1: seq<Table>) {
    && |v.files| == NUM_LEVELS && level + 1 < NUM_LEVELS && in0 != []
    && var in1 := MeetingAll(v.files[level + 1], in0);
    if in1 == [] then r0 == in0 && r1 == []
    else exists ex, b, e ::
      && Requested(level, v.files[level], Some(LoOf(in0 + in1)), Some(HiOf(in0 + in1)), ex, b, e)
      && if Grows(v, level, in0, in1, ex) then r0 == ex && r1 == MeetingAll(v.files[level + 1], ex)
         else r0 == in0 && r1 == in1
  }

  // From what the level and the next one select.
  lemma SetUpBy(v: Version, level: nat, in0: seq<Table>, in1: seq<Table>, ex: seq<Table>, b: Option<UserKey>, e: Option<UserKey>,
                r0: seq<Table>, r1: seq<Table>)
    requires |v.files| == NUM_LEVELS && level + 1 < NUM_LEVELS && in0 != []
    requires in1 == MeetingAll(v.files[level + 1], in0) != []
    requires Requested(level, v.files[level], Some(LoOf(in0 + in1)), Some(HiOf(in0 + in1)), ex, b, e)
    requires if Grows(v, level, in0, in1, ex) then r0 == ex && r1 == MeetingAll(v.files[level + 1], ex) else r0 == in0 && r1 == in1
    ensures SetUp(v, level, in0, r0, r1)
  {
    hide Requested, LoOf, HiOf, TotalFileSize, MeetingAll;
  }

  lemma SetUpAlone(v: Version, level: nat, in0: seq<Table>)
    requires |v.files| == NUM_LEVELS && level + 1 < NUM_LEVELS && in0 != [] && MeetingAll(v.files[level + 1], in0) == []
    ensures SetUp(v, level, in0, in0, [])
  {
    hide MeetingAll, Requested;
  }

  lemma SetUpIsUnique(v: Version, level: nat, in0: seq<Table>, r0: seq<Table>, r1: seq<Table>, s0: seq<Table>, s1: seq<Table>)
    requires SetUp(v, level, in0, r0, r1) && SetUp(v, level, in0, s0, s1)
    ensures r0 == s0 && r1 == s1
  {
    hide Requested, Grows;
    var in1 := MeetingAll(v.files[level + 1], in0);
    if in1 != [] {
      var lo, hi := LoOf(in0 + in1), HiOf(in0 + in1);
      var x, b, e :| Requested(level, v.files[level], Some(lo), Some(hi), x, b, e)
        && if Grows(v, level, in0, in1, x) then r0 == x && r1 == MeetingAll(v.files[level + 1], x) else r0 == in0 && r1 == in1;
      var y, c, d :| Requested(level, v.files[level], Some(lo), Some(hi), y, c, d)
        && if Grows(v, level, in0, in1, y) then s0 == y && s1 == MeetingAll(v.files[level + 1], y) else s0 == in0 && s1 == in1;
      RequestedIsUnique(level, v.files[level], Some(lo), Some(hi), x, b, e, y, c, d);
    }
  }

  // Above level 0: the chosen files are grown, to all that meet the range of both levels' inputs,
  // exactly when that adds some, needs no more of the next level, and comes to less than 25
  // times the target size.
  lemma GrownIff(v: Version, level: nat, in0: seq<Table>, in1: seq<Table>, ex: seq<Table>, r0: seq<Table>, r1: seq<Table>)
    requires level > 0 && SetUp(v, level, in0, r0, r1)
    requires in1 == Selected(v.files[level + 1], Some(LoOf(in0)), Some(HiOf(in0))) && in1 != []
    requires ex == Selected(v.files[level], Some(LoOf(in0 + in1)), Some(HiOf(in0 + in1)))
    ensures if && |ex| > |in0| && TotalFileSize(in1) + TotalFileSize(ex) < 25 * v.targetFileSize
               && |Selected(v.files[level + 1], Some(LoOf(ex)), Some(HiOf(ex)))| == |in1|
            then r0 == ex else r0 == in0 && r1 == in1
  {
    hide TotalFileSize, LoOf, HiOf, Selected, Requested, Grows;
    assert in1 == MeetingAll(v.files[level + 1], in0);
    var x, b, e :| Requested(level, v.files[level], Some(LoOf(in0 + in1)), Some(HiOf(in0 + in1)), x, b, e)
      && if Grows(v, level, in0, in1, x) then r0 == x && r1 == MeetingAll(v.files[level + 1], x) else r0 == in0 && r1 == in1;
    RequestedAbove(level, v.files[level], Some(LoOf(in0 + in1)), Some(HiOf(in0 + in1)), x, b, e);
    GrowsWhen(v, level, in0, in1, ex);
  }

  lemma RequestedAbove(level: nat, files: seq<Table>, begin: Option<UserKey>, end: Option<UserKey>,
                       inputs: seq<Table>, b: Option<UserKey>, e: Option<UserKey>)
    requires level > 0 && Requested(level, files, begin, end, inputs, b, e)
    ensures inputs == Selected(files, begin, end)
  {
  }

  lemma GrowsWhen(v: Version, level: nat, in0: seq<Table>, in1: seq<Table>, ex: seq<Table>)
    requires |v.files| == NUM_LEVELS && level + 1 < NUM_LEVELS && in0 != []
    ensures Grows(v, level, in0, in1, ex) <==>
            && |ex| > |in0| && TotalFileSize(in1) + TotalFileSize(ex) < 25 * v.targetFileSize
            && |Selected(v.files[level + 1], Some(LoOf(ex)), Some(HiOf(ex)))| == |in1|
  {
    hide TotalFileSize, LoOf, HiOf, Selected;
  }

  // The next level's inputs are its files that meet the range of those chosen.
  lemma SetUpMeets(v: Version, level: nat, in0: seq<Table>, r0: seq<Table>, r1: seq<Table>)
    requires SetUp(v, level, in0, r0, r1)
    ensures r0 != [] && level + 1 < |v.files|
    ensures forall f :: f in r1 <==> f in v.files[level + 1] && LoOf(r0) <= f.Hi() && f.Lo() <= HiOf(r0)
  {
    hide TotalFileSize, LoOf, HiOf, Selected, Requested;
  }

  // ---------- no gap

  predicate Inside(files: seq<Table>, u: UserKey)
    requires files != []
  {
    LoOf(files) <= u <= HiOf(files)
  }

  ghost predicate CoveredAt(files: seq<Table>, u: UserKey) {
    exists f | f in files :: Covers(f, u)
  }

  // Every user key between the ends of the files is in the range of one of them.
  ghost predicate NoGap(files: seq<Table>)
    requires files != []
  {
    forall u | Inside(files, u) :: CoveredAt(files, u)
  }

  lemma OneHasNoGap(f: Table)
    ensures NoGap([f])
  {
    SmallestToLargest(f);
    forall u | Inside([f], u) ensures CoveredAt([f], u) {
      assert f in [f] && Covers(f, u);
    }
  }

  lemma CoveredToo(some: seq<Table>, all: seq<Table>, u: UserKey)
    requires CoveredAt(some, u) && forall f | f in some :: f in all
    ensures CoveredAt(all, u)
  {
    var f :| f in some && Covers(f, u);
    assert f in all;
  }

  // The files at the ends of a range.
  lemma Ends(files: seq<Table>) returns (g: Table, h: Table)
    requires files != []
    ensures g in files && g.Lo() == LoOf(files) && h in files && h.Hi() == HiOf(files)
  {
    var lo, hi := LoOf(files), HiOf(files);
    g :| g in files && lo == g.Lo();
    h :| h in files && hi == h.Hi();
  }

  lemma InRange(files: seq<Table>, f: Table)
    requires f in files
    ensures LoOf(files) <= f.Lo() <= f.Hi() <= HiOf(files)
  {
    SmallestToLargest(f);
  }

  // There is a least closed range around a request, and what lies between is bridged.
  lemma LeastClosed(files: seq<Table>, begin: Option<UserKey>, end: Option<UserKey>, b0: Option<UserKey>, e0: Option<UserKey>)
    returns (b: Option<UserKey>, e: Option<UserKey>)
    requires Contains(b0, e0, begin, end) && b0.Some? == begin.Some? && e0.Some? == end.Some?
    requires WithinClosed(files, begin, end, b0, e0) && Bridged(files, begin, end, b0, e0)
    ensures Contains(b, e, begin, end) && b.Some? == begin.Some? && e.Some? == end.Some?
    ensures ClosedUnderOverlap(files, b, e) && WithinClosed(files, begin, end, b, e) && Bridged(files, begin, end, b, e)
    decreases LowEnds(files, b0), HighEnds(files, e0)
  {
    hide WithinClosed, Bridged, LowEnds, HighEnds;
    if ClosedUnderOverlap(files, b0, e0) {
      return b0, e0;
    }
    var f :| f in files && Meets(f, b0, e0) && !((b0.Some? ==> b0.value <= f.Lo()) && (e0.Some? ==> f.Hi() <= e0.value));
    NoneSelected(files, f, b0, e0);
    StillWithin(files, begin, end, b0, e0, f);
    StillBridged(files, begin, end, b0, e0, f);
    if b0.Some? && f.Lo() < b0.value {
      b, e := LeastClosed(files, begin, end, Some(f.Lo()), e0);
    } else {
      b, e := LeastClosed(files, begin, end, b0, Some(f.Hi()));
    }
  }

  lemma RequestedIsBridged(level: nat, files: seq<Table>, begin: Option<UserKey>, end: Option<UserKey>,
                           inputs: seq<Table>, b: Option<UserKey>, e: Option<UserKey>)
    requires Requested(level, files, begin, end, inputs, b, e)
    ensures Bridged(files, begin, end, b, e)
  {
    StartsWithin(files, begin, end);
    if level == 0 {
      var c, d := LeastClosed(files, begin, end, begin, end);
      assert Contains(b, e, c, d) && Contains(c, d, b, e);
    }
  }

  // What the request does not cover itself, the files that widened it do.
  lemma RequestedHasNoGap(level: nat, files: seq<Table>, inputs: seq<Table>, b: Option<UserKey>, e: Option<UserKey>,
                          asked: seq<Table>)
    requires asked != [] && Requested(level, files, Some(LoOf(asked)), Some(HiOf(asked)), inputs, b, e) && NoGap(asked)
    ensures NoGap(inputs + asked)
  {
    hide Requested, Inside, CoveredAt;
    forall u | Inside(inputs + asked, u) ensures CoveredAt(inputs + asked, u) {
      AskedCovers(level, files, inputs, b, e, asked, u);
    }
  }

  lemma AskedCovers(level: nat, files: seq<Table>, inputs: seq<Table>, b: Option<UserKey>, e: Option<UserKey>,
                    asked: seq<Table>, u: UserKey)
    requires asked != [] && Requested(level, files, Some(LoOf(asked)), Some(HiOf(asked)), inputs, b, e) && NoGap(asked)
    requires Inside(inputs + asked, u)
    ensures CoveredAt(inputs + asked, u)
  {
    hide LoOf, HiOf, WithinClosed, Bridged, Selected;
    var lo, hi := LoOf(asked), HiOf(asked);
    if lo <= u <= hi {
      CoveredToo(asked, inputs + asked, u);
    } else {
      var g, h := Ends(inputs + asked);
      assert g in asked ==> g.Lo() >= lo;
      assert h in asked ==> h.Hi() <= hi;
      if level > 0 {
        assert Covers(if u < lo then g else h, u);
      } else {
        InRange(asked, asked[0]);
        RequestedIsBridged(level, files, Some(lo), Some(hi), inputs, b, e);
        assert Between(u, b, e);
        BridgeCovers(files, Some(lo), Some(hi), b, e, u);
        CoveredToo(inputs, inputs + asked, u);
      }
    }
  }

  lemma BridgeCovers(files: seq<Table>, begin: Option<UserKey>, end: Option<UserKey>, b: Option<UserKey>, e: Option<UserKey>,
                     u: UserKey)
    requires Bridged(files, begin, end, b, e) && Between(u, b, e) && !Between(u, begin, end)
    ensures CoveredAt(Selected(files, b, e), u)
  {
    var f :| f in files && Meets(f, b, e) && Covers(f, u);
    assert f in Selected(files, b, e);
  }

  // The next level's files join up with inputs that have no gap.
  lemma NextHasNoGap(files: seq<Table>, in0: seq<Table>)
    requires in0 != [] && NoGap(in0)
    ensures NoGap(in0 + MeetingAll(files, in0))
  {
    hide LoOf, HiOf, Selected;
    var all := in0 + MeetingAll(files, in0);
    forall u | Inside(all, u) ensures CoveredAt(all, u) {
      if Inside(in0, u) {
        CoveredToo(in0, all, u);
      } else {
        var g, h := Ends(all);
        assert g in in0 ==> g.Lo() >= LoOf(in0);
        assert h in in0 ==> h.Hi() <= HiOf(in0);
        assert Covers(if u < LoOf(in0) then g else h, u);
      }
    }
  }

  // The same number of files for a wider request is the same files.
  lemma {:induction false} SelectedSameSize(files: seq<Table>, b: Option<UserKey>, e: Option<UserKey>,
                                            c: Option<UserKey>, d: Option<UserKey>)
    requires Contains(c, d, b, e)
    ensures |Selected(files, b, e)| <= |Selected(files, c, d)|
    ensures |Selected(files, b, e)| == |Selected(files, c, d)| ==> Selected(files, b, e) == Selected(files, c, d)
  {
    if files != [] {
      SelectedSameSize(files[..|files| - 1], b, e, c, d);
    }
  }

  // Setting up the other inputs opens no gap.
  lemma SetUpHasNoGap(v: Version, level: nat, in0: seq<Table>, r0: seq<Table>, r1: seq<Table>)
    requires SetUp(v, level, in0, r0, r1) && NoGap(in0) && forall f | f in in0 :: f in v.files[level]
    ensures r0 != [] && NoGap(r0 + r1)
  {
    hide Requested, NoGap, MeetingAll, TotalFileSize;
    var in1 := MeetingAll(v.files[level + 1], in0);
    NextHasNoGap(v.files[level + 1], in0);
    if in1 != [] {
      var all := in0 + in1;
      var ex, b, e :| Requested(level, v.files[level], Some(LoOf(all)), Some(HiOf(all)), ex, b, e)
        && if Grows(v, level, in0, in1, ex) then r0 == ex && r1 == MeetingAll(v.files[level + 1], ex) else r0 == in0 && r1 == in1;
      if Grows(v, level, in0, in1, ex) {
        RequestedHasNoGap(level, v.files[level], ex, b, e, all);
        GrownIsMore(v, level, in0, in1, ex, b, e);
        SameGap(ex + all, ex + in1);
      }
    }
  }

  // Growing adds files of the level to the inputs, and changes nothing in the next level.
  lemma GrownIsMore(v: Version, level: nat, in0: seq<Table>, in1: seq<Table>, ex: seq<Table>, b: Option<UserKey>, e: Option<UserKey>)
    requires |v.files| == NUM_LEVELS && level + 1 < NUM_LEVELS && in0 != []
    requires in1 == MeetingAll(v.files[level + 1], in0) && forall f | f in in0 :: f in v.files[level]
    requires Requested(level, v.files[level], Some(LoOf(in0 + in1)), Some(HiOf(in0 + in1)), ex, b, e)
    requires Grows(v, level, in0, in1, ex)
    ensures MeetingAll(v.files[level + 1], ex) == in1 && forall f | f in in0 :: f in ex
  {
    hide LoOf, HiOf, WithinClosed, ClosedUnderOverlap, TotalFileSize;
    var all := in0 + in1;
    forall f | f in in0 ensures f in ex {
      assert f in all;
      InRange(all, f);
    }
    var g, h := Ends(in0);
    InRange(ex, g);
    InRange(ex, h);
    SelectedSameSize(v.files[level + 1], Some(LoOf(in0)), Some(HiOf(in0)), Some(LoOf(ex)), Some(HiOf(ex)));
  }

  // Gaps depend on which files there are.
  lemma SameGap(a: seq<Table>, b: seq<Table>)
    requires a != [] && NoGap(a) && b != [] && forall f :: f in a <==> f in b
    ensures NoGap(b)
  {
    hide LoOf, HiOf, CoveredAt;
    var g, h := Ends(a);
    var i, j := Ends(b);
    InRange(a, i);
    InRange(a, j);
    InRange(b, g);
    InRange(b, h);
    forall u | Inside(b, u) ensures CoveredAt(b, u) {
      CoveredToo(a, b, u);
    }
  }

  // ---------- lists of files

  ghost predicate Distinct(files: seq<Table>) {
    forall i, j | 0 <= i < j < |files| :: files[i] != files[j]
  }

  // Some of the files, in their order.
  ghost predicate Sublist(files: seq<Table>, some: seq<Table>) {
    && (forall f | f in some :: f in files)
    && (InOrder(files) ==> InOrder(some))
    && (Distinct(files) ==> Distinct(some))
  }

  lemma {:induction false} SelectedIsSublist(files: seq<Table>, b: Option<UserKey>, e: Option<UserKey>)
    ensures Sublist(files, Selected(files, b, e))
  {
    hide FileBefore, Meets;
    if InOrder(files) {
      SelectedInOrder(files, b, e);
    }
    if files != [] {
      var most, last := files[..|files| - 1], files[|files| - 1];
      SelectedIsSublist(most, b, e);
      if Distinct(files) {
        forall f | f in most ensures f != last {
          var i :| 0 <= i < |most| && most[i] == f;
          assert files[i] == f;
        }
      }
    }
  }

  lemma PrefixIsSublist(files: seq<Table>, some: seq<Table>, prefix: seq<Table>)
    requires Sublist(files, some) && prefix <= some
    ensures Sublist(files, prefix)
  {
    forall f | f in prefix ensures f in some {
    }
  }

  lemma OneIsSublist(files: seq<Table>, f: Table)
    requires f in files
    ensures Sublist(files, [f])
  {
  }

  // ---------- small cases

  lemma RangeOf(files: seq<Table>, g: Table, h: Table)
    requires g in files && h in files && forall f | f in files :: g.Lo() <= f.Lo() && f.Hi() <= h.Hi()
    ensures LoOf(files) == g.Lo() && HiOf(files) == h.Hi()
  {
    var a, z := Ends(files);
  }


  lemma NotGrown(v: Version, level: nat, in0: seq<Table>, in1: seq<Table>, ex: seq<Table>)
    requires |v.files| == NUM_LEVELS && level + 1 < NUM_LEVELS && |ex| <= |in0|
    ensures !Grows(v, level, in0, in1, ex)
  {
  }


  lemma TwoRequested(f: Table, g: Table, b: Option<UserKey>, e: Option<UserKey>)
    requires Meets(f, b, e) && Meets(g, b, e)
    ensures Selected([f, g], b, e) == [f, g] && Requested(1, [f, g], b, e, [f, g], b, e)
  {
    assert [f, g][..1] == [f] && [f][..0] == [];
  }


  lemma OneRequested(level: nat, f: Table, b: Option<UserKey>, e: Option<UserKey>)
    requires Meets(f, b, e) && (level == 0 ==> (b.Some? ==> b.value <= f.Lo()) && (e.Some? ==> f.Hi() <= e.value))
    ensures Selected([f], b, e) == [f] && Requested(level, [f], b, e, [f], b, e)
  {
    assert [f][..0] == [];
  }

  lemma {:induction false} PrefixIsSmaller(files: seq<Table>, n: nat)
    requires n <= |files|
    ensures TotalFileSize(files[..n]) <= TotalFileSize(files)
  {
    if n < |files| {
      PrefixIsSmaller(files[..|files| - 1], n);
      assert files[..|files| - 1][..n] == files[..n];
    } else {
      assert files[..n] == files;
    }
  }

  lemma UpToIsUnique(files: seq<Table>, limit: nat, a: seq<Table>, b: seq<Table>)
    requires UpTo(files, limit, a) && UpTo(files, limit, b)
    ensures a == b
  {
    hide TotalFileSize;
    assert a == files[..|a|] && b == files[..|b|];
    assert a[..|a| - 1] == files[..|a| - 1] && b[..|b| - 1] == files[..|b| - 1];
    if |a| < |b| {
      PrefixesGrow(files, |a|, |b| - 1);
    } else if |b| < |a| {
      PrefixesGrow(files, |b|, |a| - 1);
    }
  }

  lemma PrefixesGrow(files: seq<Table>, m: nat, n: nat)
    requires m <= n <= |files|
    ensures TotalFileSize(files[..m]) <= TotalFileSize(files[..n])
  {
    PrefixIsSmaller(files[..n], m);
    assert files[..n][..m] == files[..m];
  }
}
