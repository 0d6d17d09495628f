/**
 A version's sorted files and the searches over them (db/version_set): binary search, range
 overlap, the level a flushed memtable goes to, and point lookups.
 */
module Versions {
  import opened Coding
  import opened Entries
  import opened Levels
  import opened Runs

  ghost predicate Sequenced(files: seq<Table>) {
    forall f | f in files :: f.Largest().seqno <= MAX_SEQUENCE
  }

  ghost function FileSet(files: seq<Table>): set<Table> {
    set f | f in files
  }

  function LargestKey(f: Table): IKey {
    InternalKey(f.Largest())
  }

  // Where halving the files between left and right ends, in order or not.
  function Search(files: seq<Table>, key: IKey, left: nat, right: nat): (i: nat)
    requires left <= right <= |files|
    ensures left <= i <= right
    decreases right - left
  {
    if left == right then left
    else
      var mid := (left + right) / 2;
      if Less(LargestKey(files[mid]), key) then Search(files, key, mid + 1, right) else Search(files, key, left, mid)
  }

  // In order, that is the first file whose largest key is at or after key.
  lemma {:induction false} SearchFinds(files: seq<Table>, key: IKey, left: nat, right: nat)
    requires InOrder(files) && left <= right <= |files|
    requires forall i | 0 <= i < left :: Less(LargestKey(files[i]), key)
    requires forall i | right <= i < |files| :: !Less(LargestKey(files[i]), key)
    ensures var found := Search(files, key, left, right);
            && (forall i | 0 <= i < found :: Less(LargestKey(files[i]), key))
            && forall i | found <= i < |files| :: !Less(LargestKey(files[i]), key)
    decreases right - left
  {
    if left < right {
      var mid := (left + right) / 2;
      forall i | 0 <= i < |files| && i != mid
        ensures i < mid ==> Less(LargestKey(files[i]), LargestKey(files[mid]))
        ensures i > mid ==> Less(LargestKey(files[mid]), LargestKey(files[i])) {
        LargestInOrder(files, if i < mid then i else mid, if i < mid then mid else i);
      }
      hide LargestKey, InOrder;
      if Less(LargestKey(files[mid]), key) {
        SearchFinds(files, key, mid + 1, right);
      } else {
        SearchFinds(files, key, left, mid);
      }
    }
  }

  method FindFile(files: seq<Table>, key: IKey) returns (right: nat)
    ensures right <= |files| && right == Search(files, key, 0, |files|)
    ensures InOrder(files) ==> forall i | 0 <= i < right :: Less(LargestKey(files[i]), key)
    ensures InOrder(files) ==> forall i | right <= i < |files| :: !Less(LargestKey(files[i]), key)
  {
    hide InOrder, LargestKey, Less;
    var left := 0;
    right := |files|;
    while left < right
      invariant left <= right <= |files|
      invariant Search(files, key, left, right) == Search(files, key, 0, |files|)
    {
      var mid := (left + right) / 2;
      if Less(LargestKey(files[mid]), key) {
        left := mid + 1;
      } else {
        right := mid;
      }
    }
    if InOrder(files) {
      SearchFinds(files, key, 0, |files|);
    }
  }

  lemma SmallestToLargest(f: Table)
    ensures f.Smallest() == f.Largest() || Before(f.Smallest(), f.Largest())
  {
  }

  lemma LargestInOrder(files: seq<Table>, i: nat, j: nat)
    requires InOrder(files) && i < j < |files|
    ensures Less(LargestKey(files[i]), LargestKey(files[j]))
  {
    SmallestToLargest(files[j]);
    assert FileBefore(files[i], files[j]);
  }

  // A bound of None stands before, or after, all keys.
  predicate AfterFile(key: Option<UserKey>, f: Table) {
    key.Some? && key.value > f.Hi()
  }

  predicate BeforeFile(key: Option<UserKey>, f: Table) {
    key.Some? && key.value < f.Lo()
  }

  predicate Meets(f: Table, begin: Option<UserKey>, end: Option<UserKey>) {
    !AfterFile(begin, f) && !BeforeFile(end, f)
  }

  // On sorted files the binary search gives the same answer as the linear scan.
  method SomeFileOverlapsRange(disjoint: bool, files: seq<Table>,
                               smallest: Option<UserKey>, largest: Option<UserKey>) returns (b: bool)
    requires disjoint ==> InOrder(files) && Sequenced(files)
    ensures b <==> exists f | f in files :: Meets(f, smallest, largest)
  {
    if !disjoint {
      for i := 0 to |files|
        invariant forall j | 0 <= j < i :: !Meets(files[j], smallest, largest)
      {
        var f := files[i];
        if AfterFile(smallest, f) || BeforeFile(largest, f) {
        } else {
          assert f in files;
          return true;
        }
      }
      return false;
    }
    var index := 0;
    if smallest.Some? {
      index := FindFile(files, LookupKey(smallest.value, MAX_SEQUENCE));
    }
    assert forall i | 0 <= i < index :: AfterFile(smallest, files[i]);
    if index >= |files| {
      return false;
    }
    b := !BeforeFile(largest, files[index]);
    assert files[index] in files;
    assert !AfterFile(smallest, files[index]);
    forall j | index < j < |files| ensures files[index].Lo() <= files[j].Lo() {
      assert FileBefore(files[index], files[j]);
      SmallestToLargest(files[index]);
    }
  }

  // ---------- GetOverlappingInputs

  // A range that every file meeting it lies inside.
  ghost predicate ClosedUnderOverlap(files: seq<Table>, begin: Option<UserKey>, end: Option<UserKey>) {
    forall f | f in files && Meets(f, begin, end) ::
      && (begin.Some? ==> begin.value <= f.Lo())
      && (end.Some? ==> f.Hi() <= end.value)
  }

  // [b, e] contains [begin, end]; None is unbounded.
  predicate Contains(b: Option<UserKey>, e: Option<UserKey>, begin: Option<UserKey>, end: Option<UserKey>) {
    && (b.Some? ==> begin.Some? && b.value <= begin.value)
    && (e.Some? ==> end.Some? && end.value <= e.value)
  }

  function Selected(files: seq<Table>, begin: Option<UserKey>, end: Option<UserKey>): (r: seq<Table>)
    ensures forall f :: f in r <==> f in files && Meets(f, begin, end)
    ensures |r| <= |files|
  {
    if files == [] then []
    else
      var rest := Selected(files[..|files| - 1], begin, end);
      if Meets(files[|files| - 1], begin, end) then rest + [files[|files| - 1]] else rest
  }

  ghost function LowEnds(files: seq<Table>, begin: Option<UserKey>): set<UserKey> {
    set f | f in files && begin.Some? && f.Lo() < begin.value :: f.Lo()
  }

  ghost function HighEnds(files: seq<Table>, end: Option<UserKey>): set<UserKey> {
    set f | f in files && end.Some? && f.Hi() > end.value :: f.Hi()
  }

  predicate Between(u: UserKey, b: Option<UserKey>, e: Option<UserKey>) {
    (b.Some? ==> b.value <= u) && (e.Some? ==> u <= e.value)
  }

  // Every user key that a range was widened by lies in a file that meets the wider range.
  ghost predicate Bridged(files: seq<Table>, begin: Option<UserKey>, end: Option<UserKey>,
                          b: Option<UserKey>, e: Option<UserKey>) {
    forall u | Between(u, b, e) && !Between(u, begin, end) :: exists f | f in files && Meets(f, b, e) :: Covers(f, u)
  }

  // Above level 0, the files meeting the request; in level 0, the files meeting the least
  // range that contains the request and is closed under overlap.  The restarts end because
  // each one moves a bound outwards to the end of some file.
  method GetOverlappingInputs(level: nat, files: seq<Table>, begin: Option<UserKey>, end: Option<UserKey>)
    returns (inputs: seq<Table>, b: Option<UserKey>, e: Option<UserKey>)
    ensures inputs == Selected(files, b, e)
    ensures level > 0 ==> b == begin && e == end
    ensures level == 0 ==> ClosedUnderOverlap(files, b, e) && Contains(b, e, begin, end)
    ensures level == 0 ==> forall lo, hi | Contains(lo, hi, begin, end) && ClosedUnderOverlap(files, lo, hi) ::
              Contains(lo, hi, b, e)
    ensures b.Some? == begin.Some? && e.Some? == end.Some?
    ensures Bridged(files, begin, end, b, e)
  {
    hide ClosedUnderOverlap, WithinClosed, LowEnds, HighEnds, Selected, Bridged;
    inputs := [];
    b, e := begin, end;
    StartsWithin(files, begin, end);
    var i := 0;
    while i < |files|
      invariant i <= |files|
      invariant inputs == Selected(files[..i], b, e)
      invariant level > 0 ==> b == begin && e == end
      invariant b.Some? == begin.Some? && e.Some? == end.Some?
      invariant Contains(b, e, begin, end) && Bridged(files, begin, end, b, e)
      invariant level == 0 ==> ClosedUnderOverlap(files[..i], b, e)
      invariant level == 0 ==> WithinClosed(files, begin, end, b, e)
      decreases LowEnds(files, b), HighEnds(files, e), |files| - i
    {
      var f := files[i];
      SelectStep(files, i, b, e);
      NoneSelected(files, f, b, e);
      i := i + 1;
      if AfterFile(b, f) {
      } else if BeforeFile(e, f) {
      } else {
        inputs := inputs + [f];
        if level == 0 {
          StillWithin(files, begin, end, b, e, f);
          StillBridged(files, begin, end, b, e, f);
          if b.Some? && f.Lo() < b.value {
            b, inputs, i := Some(f.Lo()), [], 0;
          } else if e.Some? && f.Hi() > e.value {
            e, inputs, i := Some(f.Hi()), [], 0;
          }
        }
      }
    }
    assert files[..|files|] == files;
    WithinClosedMeans(files, begin, end, b, e);
  }

  // No range that contains the request and is closed under overlap is smaller than [b, e].
  ghost predicate WithinClosed(files: seq<Table>, begin: Option<UserKey>, end: Option<UserKey>,
                               b: Option<UserKey>, e: Option<UserKey>) {
    forall lo, hi | Contains(lo, hi, begin, end) && ClosedUnderOverlap(files, lo, hi) :: Contains(lo, hi, b, e)
  }

  lemma WithinClosedMeans(files: seq<Table>, begin: Option<UserKey>, end: Option<UserKey>,
                          b: Option<UserKey>, e: Option<UserKey>)
    ensures WithinClosed(files, begin, end, b, e) <==>
              forall lo, hi | Contains(lo, hi, begin, end) && ClosedUnderOverlap(files, lo, hi) :: Contains(lo, hi, b, e)
  {
  }

  lemma StartsWithin(files: seq<Table>, begin: Option<UserKey>, end: Option<UserKey>)
    ensures WithinClosed(files, begin, end, begin, end)
    ensures Selected([], begin, end) == [] && ClosedUnderOverlap([], begin, end)
    ensures Bridged(files, begin, end, begin, end)
  {
  }

  // A file that moves a bound out lies where the bound moves.
  lemma StillBridged(files: seq<Table>, begin: Option<UserKey>, end: Option<UserKey>,
                     b: Option<UserKey>, e: Option<UserKey>, f: Table)
    requires Bridged(files, begin, end, b, e) && f in files && Meets(f, b, e)
    ensures b.Some? && f.Lo() < b.value ==> Bridged(files, begin, end, Some(f.Lo()), e)
    ensures e.Some? && f.Hi() > e.value ==> Bridged(files, begin, end, b, Some(f.Hi()))
  {
    if b.Some? && f.Lo() < b.value {
      WidenedBridge(files, begin, end, b, e, f, Some(f.Lo()), e);
    }
    if e.Some? && f.Hi() > e.value {
      WidenedBridge(files, begin, end, b, e, f, b, Some(f.Hi()));
    }
  }

  lemma WidenedBridge(files: seq<Table>, begin: Option<UserKey>, end: Option<UserKey>,
                      b: Option<UserKey>, e: Option<UserKey>, f: Table, c: Option<UserKey>, d: Option<UserKey>)
    requires Bridged(files, begin, end, b, e) && f in files && Meets(f, b, e) && Contains(c, d, b, e)
    requires forall u | Between(u, c, d) :: Between(u, b, e) || Covers(f, u)
    ensures Bridged(files, begin, end, c, d)
  {
    forall u | Between(u, c, d) && !Between(u, begin, end) ensures exists g | g in files && Meets(g, c, d) :: Covers(g, u) {
      if Between(u, b, e) {
        var g :| g in files && Meets(g, b, e) && Covers(g, u);
        assert Meets(g, c, d);
      } else {
        assert Meets(f, c, d);
      }
    }
  }

  // One more file is looked at.
  lemma SelectStep(files: seq<Table>, i: nat, b: Option<UserKey>, e: Option<UserKey>)
    requires i < |files|
    ensures files[i] in files
    ensures Selected(files[..i + 1], b, e) ==
            if Meets(files[i], b, e) then Selected(files[..i], b, e) + [files[i]] else Selected(files[..i], b, e)
    ensures ClosedUnderOverlap(files[..i + 1], b, e) <==>
            ClosedUnderOverlap(files[..i], b, e)
            && (Meets(files[i], b, e) ==>
                  (b.Some? ==> b.value <= files[i].Lo()) && (e.Some? ==> files[i].Hi() <= e.value))
  {
    assert files[..i + 1][..i] == files[..i];
    assert files[..i + 1] == files[..i] + [files[i]];
  }

  // Starting over: nothing is selected yet, and a bound has moved out to the end of a file.
  lemma NoneSelected(files: seq<Table>, f: Table, b: Option<UserKey>, e: Option<UserKey>)
    requires f in files
    ensures forall x, y :: Selected(files[..0], x, y) == [] && ClosedUnderOverlap(files[..0], x, y)
    ensures b.Some? && f.Lo() < b.value ==> LowEnds(files, Some(f.Lo())) < LowEnds(files, b)
    ensures e.Some? && f.Hi() > e.value ==> HighEnds(files, Some(f.Hi())) < HighEnds(files, e)
  {
    if b.Some? && f.Lo() < b.value {
      assert f.Lo() in LowEnds(files, b) && f.Lo() !in LowEnds(files, Some(f.Lo()));
    }
    if e.Some? && f.Hi() > e.value {
      assert f.Hi() in HighEnds(files, e) && f.Hi() !in HighEnds(files, Some(f.Hi()));
    }
  }

  // A closed range that holds [b, e] holds every file meeting it.
  lemma StillWithin(files: seq<Table>, begin: Option<UserKey>, end: Option<UserKey>,
                    b: Option<UserKey>, e: Option<UserKey>, f: Table)
    requires WithinClosed(files, begin, end, b, e) && f in files && Meets(f, b, e)
    ensures b.Some? && f.Lo() < b.value ==> WithinClosed(files, begin, end, Some(f.Lo()), e)
    ensures e.Some? && f.Hi() > e.value ==> WithinClosed(files, begin, end, b, Some(f.Hi()))
  {
    forall lo, hi | Contains(lo, hi, begin, end) && ClosedUnderOverlap(files, lo, hi)
      ensures (lo.Some? ==> lo.value <= f.Lo()) && (hi.Some? ==> f.Hi() <= hi.value)
    {
      assert Contains(lo, hi, b, e);
      assert Meets(f, lo, hi);
    }
  }

  // ---------- point lookups

  function InsertByNumber(f: Table, files: seq<Table>): (r: seq<Table>)
    ensures forall g :: g in r <==> g == f || g in files
  {
    if files == [] || f.number > files[0].number then [f] + files
    else [files[0]] + InsertByNumber(f, files[1..])
  }

  // std::sort with NewestFirst
  function NewestFirst(files: seq<Table>): (r: seq<Table>)
    ensures forall g :: g in r <==> g in files
  {
    if files == [] then [] else InsertByNumber(files[0], NewestFirst(files[1..]))
  }

  ghost predicate Descending(files: seq<Table>) {
    forall i, j | 0 <= i < j < |files| :: files[i].number >= files[j].number
  }

  lemma {:induction false} InsertDescends(f: Table, files: seq<Table>)
    requires Descending(files)
    ensures Descending(InsertByNumber(f, files))
  {
    if files != [] && f.number <= files[0].number {
      InsertDescends(f, files[1..]);
      var rest := InsertByNumber(f, files[1..]);
      forall j | 0 <= j < |rest| ensures files[0].number >= rest[j].number {
        assert rest[j] in rest;
      }
    }
  }

  lemma {:induction false} NewestFirstDescends(files: seq<Table>)
    ensures Descending(NewestFirst(files))
  {
    if files != [] {
      NewestFirstDescends(files[1..]);
      InsertDescends(files[0], NewestFirst(files[1..]));
    }
  }

  lemma NotCovered(f: Table, u: UserKey, s: nat)
    requires !Covers(f, u)
    ensures IsNewest(Content(f.entries), u, s, None)
  {
    forall e | e in f.entries ensures e.key != u {
      InRange(f, e);
    }
  }

  function Covering(files: seq<Table>, u: UserKey): (r: seq<Table>)
    ensures forall f :: f in r <==> f in files && Covers(f, u)
  {
    if files == [] then []
    else
      var rest := Covering(files[..|files| - 1], u);
      if Covers(files[|files| - 1], u) then rest + [files[|files| - 1]] else rest
  }

  // Level 0: every file covering the key, newest first, until one has an entry for it.
  // Every newer file was looked at before, or does not cover the key.
  lemma NewerLooked(files: seq<Table>, tmp: seq<Table>, i: nat, u: UserKey, s: nat)
    requires i < |tmp| && (forall a, b | 0 <= a < b < |tmp| :: tmp[a].number >= tmp[b].number)
    requires forall g | g in files && g !in tmp :: IsNewest(Content(g.entries), u, s, None)
    requires forall j | 0 <= j < i :: IsNewest(Content(tmp[j].entries), u, s, None)
    ensures forall g | g in files && g.number > tmp[i].number :: IsNewest(Content(g.entries), u, s, None)
  {
    hide IsNewest;
    forall g | g in files && g.number > tmp[i].number ensures IsNewest(Content(g.entries), u, s, None) {
      if g in tmp {
        var j :| 0 <= j < |tmp| && tmp[j] == g;
        assert j < i;
      }
    }
  }

  method GetUnsorted(files: seq<Table>, u: UserKey, s: nat) returns (r: Option<Entry>)
    ensures r.None? ==> forall g | g in files :: IsNewest(Content(g.entries), u, s, None)
    ensures r.Some? ==> exists f | f in files && IsNewest(Content(f.entries), u, s, r) ::
              forall g | g in files && g.number > f.number :: IsNewest(Content(g.entries), u, s, None)
  {
    hide IsNewest, Covering;
    var tmp := NewestFirst(Covering(files, u));
    NewestFirstDescends(Covering(files, u));
    forall g | g in files && g !in tmp ensures IsNewest(Content(g.entries), u, s, None) {
      NotCovered(g, u, s);
    }
    for i := 0 to |tmp|
      invariant forall j | 0 <= j < i :: IsNewest(Content(tmp[j].entries), u, s, None)
    {
      RunGetIsNewest(tmp[i].entries, u, s);
      r := RunGet(tmp[i].entries, u, s);
      if r.Some? {
        NewerLooked(files, tmp, i, u, s);
        return;
      }
    }
    r := None;
  }

  lemma EntriesBefore(files: seq<Table>, i: nat, k: IKey, e: Entry)
    requires i < |files| && Less(LargestKey(files[i]), k) && e in files[i].entries
    ensures Less(InternalKey(e), k)
  {
    var f := files[i];
    var j :| 0 <= j < |f.entries| && f.entries[j] == e;
    assert j < |f.entries| - 1 ==> Before(f.entries[j], f.entries[|f.entries| - 1]);
  }

  lemma EntriesAfter(files: seq<Table>, i: nat, j: nat, e: Entry)
    requires InOrder(files) && i < j < |files| && e in files[j].entries
    ensures Before(files[i].Largest(), e)
  {
    var f := files[j];
    var k :| 0 <= k < |f.entries| && f.entries[k] == e;
    assert FileBefore(files[i], files[j]);
    assert k > 0 ==> Before(f.entries[0], f.entries[k]);
  }

  // What the one file a binary search leads to has for the key.
  function SortedGet(files: seq<Table>, u: UserKey, s: nat): Option<Entry> {
    var index := Search(files, LookupKey(u, s), 0, |files|);
    if index == |files| || u < files[index].Lo() then None else RunGet(files[index].entries, u, s)
  }

  // Levels above 0: the one file that can hold the key, found by binary search.
  method GetSorted(files: seq<Table>, u: UserKey, s: nat) returns (r: Option<Entry>)
    ensures r == SortedGet(files, u, s)
    ensures InOrder(files) ==> IsNewest(FilesContent(FileSet(files)), u, s, r)
  {
    var index := FindFile(files, LookupKey(u, s));
    if index >= |files| {
      r := None;
    } else {
      var f := files[index];
      r := if u < f.Lo() then None else RunGet(f.entries, u, s);
    }
    if InOrder(files) {
      SortedGetIsNewest(files, u, s, index);
    }
  }

  lemma SortedGetIsNewest(files: seq<Table>, u: UserKey, s: nat, index: nat)
    requires InOrder(files) && index == Search(files, LookupKey(u, s), 0, |files|)
    requires forall i | 0 <= i < index :: Less(LargestKey(files[i]), LookupKey(u, s))
    requires forall i | index <= i < |files| :: !Less(LargestKey(files[i]), LookupKey(u, s))
    ensures IsNewest(FilesContent(FileSet(files)), u, s, SortedGet(files, u, s))
  {
    hide Search;
    var k, r := LookupKey(u, s), SortedGet(files, u, s);
    forall i, e | 0 <= i < index && e in files[i].entries ensures !(e.key == u && e.seqno <= s) {
      EntriesBefore(files, i, k, e);
    }
    if index < |files| {
      var f := files[index];
      RunGetIsNewest(f.entries, u, s);
      if u < f.Lo() {
        NotCovered(f, u, s);
      }
      assert IsNewest(Content(f.entries), u, s, r);
      forall j, e | index < j < |files| && e in files[j].entries && e.key == u && e.seqno <= s
        ensures r.Some? && e.seqno <= r.value.seqno {
        EntriesAfter(files, index, j, e);
        assert Before(f.Largest(), e) && !Less(LargestKey(f), k);
      }
    }
  }

  // ---------- a version

  class Version {
    const files: seq<seq<Table>>
    const targetFileSize: nat

    ghost predicate Valid() {
      && |files| == NUM_LEVELS
      && (forall l | 1 <= l < NUM_LEVELS :: InOrder(files[l]))
      && (forall l | 0 <= l < NUM_LEVELS :: Sequenced(files[l]))
    }

    ghost function Levels(): (r: seq<set<Table>>)
      ensures |r| == |files|
      ensures forall l | 0 <= l < |files| :: r[l] == FileSet(files[l])
    {
      seq(|files|, l requires 0 <= l < |files| => FileSet(files[l]))
    }

    constructor (files: seq<seq<Table>>, targetFileSize: nat)
      ensures this.files == files && this.targetFileSize == targetFileSize
    {
      this.files := files;
      this.targetFileSize := targetFileSize;
    }

    ghost predicate OverlapsLevel(level: nat, smallest: Option<UserKey>, largest: Option<UserKey>)
      requires level < |files|
    {
      exists f | f in files[level] :: Meets(f, smallest, largest)
    }

    method OverlapInLevel(level: nat, smallest: Option<UserKey>, largest: Option<UserKey>) returns (b: bool)
      requires Valid() && level < NUM_LEVELS
      ensures b <==> OverlapsLevel(level, smallest, largest)
    {
      b := SomeFileOverlapsRange(level > 0, files[level], smallest, largest);
    }

    predicate TooManyGrandparents(level: nat, lo: UserKey, hi: UserKey)
      requires |files| == NUM_LEVELS
    {
      level + 2 < NUM_LEVELS
      && TotalFileSize(Selected(files[level + 2], Some(lo), Some(hi))) > 10 * targetFileSize
    }

    // The output level is pushed down while the next level has no overlap and the level after
    // it not too much; it stops for one of these reasons and nothing above it overlaps.
    method PickLevelForMemTableOutput(lo: UserKey, hi: UserKey) returns (level: nat)
      requires Valid()
      ensures level <= MAX_MEM_COMPACT_LEVEL
      ensures level > 0 ==> forall l | 0 <= l <= level :: !OverlapsLevel(l, Some(lo), Some(hi))
      ensures forall l | 0 <= l < level :: !TooManyGrandparents(l, lo, hi)
      ensures level < MAX_MEM_COMPACT_LEVEL ==>
                || TooManyGrandparents(level, lo, hi)
                || OverlapsLevel(0, Some(lo), Some(hi))
                || OverlapsLevel(level + 1, Some(lo), Some(hi))
    {
      hide OverlapsLevel, TotalFileSize, InOrder, Sequenced, Selected, Bridged, ClosedUnderOverlap, Contains;
      level := 0;
      var overlap := OverlapInLevel(0, Some(lo), Some(hi));
      if !overlap {
        while level < MAX_MEM_COMPACT_LEVEL
          invariant level <= MAX_MEM_COMPACT_LEVEL
          invariant forall l | 0 <= l <= level :: !OverlapsLevel(l, Some(lo), Some(hi))
          invariant forall l | 0 <= l < level :: !TooManyGrandparents(l, lo, hi)
        {
          overlap := OverlapInLevel(level + 1, Some(lo), Some(hi));
          if overlap {
            break;
          }
          if level + 2 < NUM_LEVELS {
            var overlaps, _, _ := GetOverlappingInputs(level + 2, files[level + 2], Some(lo), Some(hi));
            if TotalFileSize(overlaps) > 10 * targetFileSize {
              break;
            }
          }
          level := level + 1;
        }
      }
    }

    // Searches level by level and stops at the first entry found for the key.
    method Get(u: UserKey, s: nat) returns (r: Option<Entry>)
      requires Valid()
      ensures LevelsRead(Levels(), u, s, r)
    {
      hide IsNewest, InOrder, Sequenced;
      for level := 0 to NUM_LEVELS
        invariant forall m | 0 <= m < level :: IsNewest(FilesContent(Levels()[m]), u, s, None)
      {
        if level == 0 {
          r := GetUnsorted(files[0], u, s);
          Level0Found(files[0], u, s, r);
        } else {
          r := GetSorted(files[level], u, s);
        }
        if r.Some? {
          assert LevelRead(Levels(), level, u, s, r.value);
          return;
        }
      }
      r := None;
    }
  }

  lemma Level0Found(files: seq<Table>, u: UserKey, s: nat, r: Option<Entry>)
    requires r.None? ==> forall g | g in files :: IsNewest(Content(g.entries), u, s, None)
    ensures r.None? ==> IsNewest(FilesContent(FileSet(files)), u, s, None)
  {
    if r.None? {
      forall g, e | g in files && e in g.entries ensures !(e.key == u && e.seqno <= s) {
        assert e in Content(g.entries);
      }
    }
  }

  lemma {:induction false} SelectedInOrder(files: seq<Table>, begin: Option<UserKey>, end: Option<UserKey>)
    requires InOrder(files)
    ensures InOrder(Selected(files, begin, end))
  {
    if files != [] {
      var most, last := files[..|files| - 1], files[|files| - 1];
      SelectedInOrder(most, begin, end);
      forall f | f in Selected(most, begin, end) ensures FileBefore(f, last) {
        var i :| 0 <= i < |most| && most[i] == f;
        assert FileBefore(files[i], files[|files| - 1]);
      }
    }
  }

  // Files that follow one another are counted once each.
  lemma {:induction false} SizeOfFiles(files: seq<Table>)
    requires InOrder(files)
    ensures TotalFileSize(files) == TotalSize(FileSet(files))
  {
    if files == [] {
      assert FileSet(files) == {};
    } else {
      var most, last := files[..|files| - 1], files[|files| - 1];
      SizeOfFiles(most);
      assert last !in most by {
        forall f | f in most ensures f != last {
          var i :| 0 <= i < |most| && most[i] == f;
          assert FileBefore(files[i], last);
          SmallestToLargest(last);
        }
      }
      assert files == most + [last];
      assert FileSet(files) - {last} == FileSet(most);
      TotalSizeWithout(FileSet(files), last);
    }
  }

  lemma BytesBelow(v: Version, f: Table, l: nat)
    requires v.Valid()
    ensures v.TooManyGrandparents(l, f.Lo(), f.Hi()) <==> TooMuchBelow(v.Levels(), v.targetFileSize, l, f)
  {
    hide Selected, TotalFileSize, TotalSize, Sequenced, FileBefore;
    if l + 2 < NUM_LEVELS {
      var files := v.files[l + 2];
      SelectedInOrder(files, Some(f.Lo()), Some(f.Hi()));
      SizeOfFiles(Selected(files, Some(f.Lo()), Some(f.Hi())));
      SelectedIsMet(files, f);
      assert v.Levels()[l + 2] == FileSet(files);
    }
  }

  lemma SelectedIsMet(files: seq<Table>, f: Table)
    ensures FileSet(Selected(files, Some(f.Lo()), Some(f.Hi()))) == set g | g in FileSet(files) && !Apart(f, g)
  {
  }

  lemma MeetingLevel(v: Version, f: Table, l: nat)
    requires v.Valid() && l < NUM_LEVELS
    ensures v.OverlapsLevel(l, Some(f.Lo()), Some(f.Hi())) <==> Meeting(v.Levels(), l, f)
  {
    forall g | g in v.files[l] ensures Meets(g, Some(f.Lo()), Some(f.Hi())) <==> !Apart(f, g) {
    }
    assert forall g :: g in v.files[l] <==> g in v.Levels()[l];
  }

  // The level picked for a table's key range is the one the set of rules gives.
  lemma PickedLevelIsOk(v: Version, f: Table, level: nat)
    requires v.Valid() && level <= MAX_MEM_COMPACT_LEVEL
    requires level > 0 ==> forall l | 0 <= l <= level :: !v.OverlapsLevel(l, Some(f.Lo()), Some(f.Hi()))
    requires forall l | 0 <= l < level :: !v.TooManyGrandparents(l, f.Lo(), f.Hi())
    requires level < MAX_MEM_COMPACT_LEVEL ==>
               || v.TooManyGrandparents(level, f.Lo(), f.Hi())
               || v.OverlapsLevel(0, Some(f.Lo()), Some(f.Hi()))
               || v.OverlapsLevel(level + 1, Some(f.Lo()), Some(f.Hi()))
    ensures PickedLevel(v.Levels(), v.targetFileSize, f, level)
  {
    hide TooMuchBelow, InOrder, Sequenced;
    forall l | 0 <= l < NUM_LEVELS
      ensures v.OverlapsLevel(l, Some(f.Lo()), Some(f.Hi())) <==> Meeting(v.Levels(), l, f) {
      MeetingLevel(v, f, l);
    }
    forall l | 0 <= l <= level
      ensures v.TooManyGrandparents(l, f.Lo(), f.Hi()) <==> TooMuchBelow(v.Levels(), v.targetFileSize, l, f) {
      BytesBelow(v, f, l);
    }
    if level > 0 {
      forall l, g | 0 <= l <= level && g in v.Levels()[l] ensures Apart(f, g) {
        assert !Meeting(v.Levels(), l, f);
      }
    }
  }
}
