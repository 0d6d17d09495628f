/**
 Scans: what the user-facing iterator shows over the merged iterators of the memtables and of
 the levels is exactly what the list of writes says, key by key (db/db_impl, db/version_set).
 */
module Scans {
  import opened Coding
  import opened Entries
  import opened Levels
  import opened Store
  import opened Runs
  import opened Versions
  import opened Builders
  import opened EntryLists
  import opened Database
  import opened DbIters
  import Cursors
  import Mergers
  import TwoLevels

  // ---------- the child iterators

  // The levels from 1 up to n.
  function Deeper(files: seq<seq<Table>>, n: nat): seq<seq<Entry>>
    requires n < |files|
  {
    if n == 0 then [] else Deeper(files, n - 1) + (if files[n] == [] then [] else [Concat(files[n])])
  }

  // DBImpl::NewInternalIterator and Version::AddIterators
  function Children(mem: seq<Entry>, imm: Option<seq<Entry>>, files: seq<seq<Table>>): seq<seq<Entry>>
    requires files != []
  {
    [mem] + (if imm.Some? then [imm.value] else []) + (LevelZero(files[0]) + Deeper(files, |files| - 1))
  }

  // ---------- each level

  // The entries of levels 1 to n.
  ghost function Below(files: seq<seq<Table>>, n: nat): set<Entry>
    requires n < |files|
  {
    set l, f, e | 1 <= l <= n && f in files[l] && e in f.entries :: e
  }

  // No entry is in two files, and the files of a level above 0 follow one another.
  ghost predicate Tidy(files: seq<seq<Table>>) {
    && (forall l, m, i, j, e | 0 <= l < |files| && 0 <= m < |files| && 0 <= i < |files[l]| && 0 <= j < |files[m]|
          && e in files[l][i].entries && e in files[m][j].entries :: l == m && i == j)
    && forall l | 1 <= l < |files| :: InOrder(files[l])
  }

  lemma {:induction false} DeeperIsSeparate(files: seq<seq<Table>>, n: nat)
    requires n < |files| && Tidy(files)
    ensures Separate(Deeper(files, n)) && Union(Deeper(files, n)) == Below(files, n)
  {
    if n == 0 {
      assert Below(files, 0) == {};
    } else {
      DeeperIsSeparate(files, n - 1);
      ConcatIsSorted(files[n]);
      BelowStep(files, n);
      if files[n] == [] {
        assert FilesContent(FileSet(files[n])) == {} && Deeper(files, n) == Deeper(files, n - 1);
      } else {
        One(Concat(files[n]));
        Joined(Deeper(files, n - 1), [Concat(files[n])]);
      }
    }
  }

  lemma BelowStep(files: seq<seq<Table>>, n: nat)
    requires 0 < n < |files| && Tidy(files)
    ensures Below(files, n) == Below(files, n - 1) + FilesContent(FileSet(files[n]))
    ensures Below(files, n - 1) !! FilesContent(FileSet(files[n]))
  {
    forall e | e in Below(files, n - 1) ensures e !in FilesContent(FileSet(files[n])) {
      var l, f :| 1 <= l <= n - 1 && f in files[l] && e in f.entries;
      var i :| 0 <= i < |files[l]| && files[l][i] == f;
      forall g | g in files[n] ensures e !in g.entries {
        var j :| 0 <= j < |files[n]| && files[n][j] == g;
      }
    }
  }

  lemma LevelZeroIsSeparate(files: seq<seq<Table>>)
    requires files != [] && Tidy(files)
    ensures Separate(LevelZero(files[0])) && Union(LevelZero(files[0])) == FilesContent(FileSet(files[0]))
    ensures FilesContent(FileSet(files[0])) !! Below(files, |files| - 1)
  {
    var lists := LevelZero(files[0]);
    forall e ensures e in Union(lists) <==> e in FilesContent(FileSet(files[0])) {
      if e in FilesContent(FileSet(files[0])) {
        var f :| f in files[0] && e in f.entries;
        var i :| 0 <= i < |files[0]| && files[0][i] == f;
        assert e in lists[i];
      }
    }
    forall e | e in Below(files, |files| - 1) ensures e !in FilesContent(FileSet(files[0])) {
      var l, f :| 1 <= l < |files| && f in files[l] && e in f.entries;
      var i :| 0 <= i < |files[l]| && files[l][i] == f;
      forall g | g in files[0] ensures e !in g.entries {
        var j :| 0 <= j < |files[0]| && files[0][j] == g;
      }
    }
  }

  // ---------- the store's iterators

  lemma ChildrenHoldAll(db: DBImpl)
    requires db.Valid()
    ensures db.version.files != []
    ensures var lists := Children(db.mem, db.imm, db.version.files);
            Separate(lists) && Union(lists) == All(db.Abs())
  {
    hide Inv, Tidy, Sorted, Separate, Union;
    var s, files := db.Abs(), db.version.files;
    FilesAreTidy(db);
    LevelZeroIsSeparate(files);
    DeeperIsSeparate(files, |files| - 1);
    Joined(LevelZero(files[0]), Deeper(files, |files| - 1));
    LevelsAreUnion(db);
    One(db.mem);
    MemApart(s);
    var tables := LevelZero(files[0]) + Deeper(files, |files| - 1);
    if db.imm.Some? {
      One(db.imm.value);
      Joined([db.mem], [db.imm.value]);
      Joined([db.mem] + [db.imm.value], tables);
    } else {
      assert [db.mem] + [] == [db.mem];
      Joined([db.mem], tables);
    }
  }

  lemma MemApart(s: State)
    requires Inv(s)
    ensures s.mem !! ImmSet(s) && s.mem + ImmSet(s) !! LevelsContent(s.levels)
  {
    hide LevelsInv, LogInv, SnapshotInv, Span;
    forall e | e in s.mem ensures e !in ImmSet(s) && e !in LevelsContent(s.levels) {
      AllFromHist(s, e);
    }
    forall e | e in ImmSet(s) ensures e !in LevelsContent(s.levels) {
      AllFromHist(s, e);
    }
  }

  lemma LevelsAreUnion(db: DBImpl)
    requires db.Valid()
    ensures var files := db.version.files;
            |files| > 0 && LevelsContent(db.Abs().levels) == FilesContent(FileSet(files[0])) + Below(files, |files| - 1)
  {
    hide Inv;
    var files: seq<seq<Table>>, levels: seq<set<Table>> := db.version.files, db.version.Levels();
    forall e ensures e in LevelsContent(levels) <==> e in FilesContent(FileSet(files[0])) + Below(files, |files| - 1) {
      if e in LevelsContent(levels) {
        var l, f :| 0 <= l < |levels| && f in levels[l] && e in f.entries;
        assert f in files[l];
      }
      if e in FilesContent(FileSet(files[0])) {
        var f :| f in files[0] && e in f.entries;
        assert f in levels[0];
      }
      if e in Below(files, |files| - 1) {
        var l, f :| 1 <= l < |files| && f in files[l] && e in f.entries;
        assert f in levels[l];
      }
    }
  }

  lemma FilesAreTidy(db: DBImpl)
    requires db.Valid()
    ensures db.version.files != [] && Tidy(db.version.files)
  {
    hide Inv;
    var files: seq<seq<Table>>, levels: seq<set<Table>> := db.version.files, db.version.Levels();
    HomesOf(db.Abs());
    db.VersionIsValid();
    forall l, m, i, j, e | 0 <= l < |files| && 0 <= m < |files| && 0 <= i < |files[l]| && 0 <= j < |files[m]|
        && e in files[l][i].entries && e in files[m][j].entries ensures l == m && i == j {
      assert files[l][i] in levels[l] && files[m][j] in levels[m];
      NoTwice(files[l]);
    }
  }

  lemma NoTwice(files: seq<Table>)
    requires SortedFiles(files)
    ensures forall i, j | 0 <= i < |files| && 0 <= j < |files| && files[i] == files[j] :: i == j
  {
  }

  // ---------- merging

  // rank orders the internal keys of the entries in S.
  ghost predicate Ranked(rank: Entry -> real, S: set<Entry>) {
    forall e, d | e in S && d in S :: (rank(e) < rank(d) <==> Before(e, d)) && (rank(e) == rank(d) <==> e == d)
  }

  function ItemOf(rank: Entry -> real, e: Entry): Cursors.Item {
    Cursors.Item(rank(e), if e.op.Put? then e.op.value else [])
  }

  function Items(rank: Entry -> real, es: seq<Entry>): (r: seq<Cursors.Item>)
    ensures |r| == |es|
  {
    seq(|es|, i requires 0 <= i < |es| => ItemOf(rank, es[i]))
  }

  function ItemLists(rank: Entry -> real, lists: seq<seq<Entry>>): (r: seq<seq<Cursors.Item>>)
    ensures |r| == |lists|
  {
    seq(|lists|, i requires 0 <= i < |lists| => Items(rank, lists[i]))
  }

  lemma ItemsAreApart(rank: Entry -> real, lists: seq<seq<Entry>>)
    requires Separate(lists) && Ranked(rank, Union(lists))
    ensures Mergers.Apart(ItemLists(rank, lists))
  {
    var all := ItemLists(rank, lists);
    forall i | 0 <= i < |all| ensures Cursors.Sorted(all[i]) {
      forall j, k | 0 <= j < k < |all[i]| ensures all[i][j].key < all[i][k].key {
        InUnion(lists, i, j);
        InUnion(lists, i, k);
      }
    }
    forall i, i', j, j' | 0 <= i < i' < |all| && 0 <= j < |all[i]| && 0 <= j' < |all[i']|
      ensures all[i][j].key != all[i'][j'].key {
      InUnion(lists, i, j);
      InUnion(lists, i', j');
    }
  }

  lemma ItemsSplit(rank: Entry -> real, a: seq<Entry>, b: seq<Entry>)
    ensures Items(rank, a + b) == Items(rank, a) + Items(rank, b)
  {
  }

  // Merging items is merging entries.
  lemma {:induction false} MergeMirrors(rank: Entry -> real, a: seq<Entry>, b: seq<Entry>)
    requires forall e, d | e in a && d in b :: rank(d) < rank(e) <==> Before(d, e)
    ensures Items(rank, Merge2(a, b)) == Mergers.Merge(Items(rank, a), Items(rank, b))
    decreases |a| + |b|
  {
    hide Before;
    if a != [] && b != [] {
      assert a == [a[0]] + a[1..] && b == [b[0]] + b[1..];
      ItemsSplit(rank, [a[0]], a[1..]);
      ItemsSplit(rank, [b[0]], b[1..]);
      if Before(b[0], a[0]) {
        MergeMirrors(rank, a, b[1..]);
        ItemsSplit(rank, [b[0]], Merge2(a, b[1..]));
      } else {
        MergeMirrors(rank, a[1..], b);
        ItemsSplit(rank, [a[0]], Merge2(a[1..], b));
      }
    }
  }

  // The merging iterator's list is the items of the merged entries, which are all of them in
  // internal key order.
  lemma {:induction false} MergedEntries(rank: Entry -> real, lists: seq<seq<Entry>>)
    requires Separate(lists) && Ranked(rank, Union(lists))
    ensures Items(rank, MergeLists(lists)) == Mergers.MergeAll(ItemLists(rank, lists))
    ensures Sorted(MergeLists(lists)) && Content(MergeLists(lists)) == Union(lists)
  {
    hide Separate, Union, Sorted, Content;
    RankedIsKeyed(rank, Union(lists));
    MergeListsIsUnion(lists);
    if lists != [] {
      var rest := lists[1..];
      Rest(lists);
      RankedIsKeyed(rank, Union(rest));
      assert Ranked(rank, Union(rest));
      MergedEntries(rank, rest);
      assert ItemLists(rank, lists)[1..] == ItemLists(rank, rest);
      InContentAll(lists[0]);
      InContentAll(MergeLists(rest));
      MergeMirrors(rank, lists[0], MergeLists(rest));
    }
  }

  lemma RankedIsKeyed(rank: Entry -> real, S: set<Entry>)
    requires Ranked(rank, S)
    ensures Keyed(S)
  {
  }

  // ---------- what a scan shows

  lemma {:induction false} ShownAreListed(es: seq<Entry>, s: nat, n: nat, i: nat)
    requires i < n <= |es| && Shown(es, s, i)
    ensures i in ShownBelow(es, s, n)
  {
    if i < n - 1 {
      ShownAreListed(es, s, n - 1, i);
    }
  }

  ghost predicate KeysIncrease(es: seq<Entry>, ks: seq<nat>) {
    && (forall i | 0 <= i < |ks| :: ks[i] < |es|)
    && forall i, j | 0 <= i < j < |ks| :: es[ks[i]].key < es[ks[j]].key
  }

  lemma {:induction false} ListedInOrder(es: seq<Entry>, s: nat, n: nat)
    requires n <= |es| && Sorted(es)
    ensures KeysIncrease(es, ShownBelow(es, s, n))
  {
    if n > 0 {
      ListedInOrder(es, s, n - 1);
      var before := ShownBelow(es, s, n - 1);
      forall i | 0 <= i < |before| && Shown(es, s, n - 1) ensures es[before[i]].key < es[n - 1].key {
        ShownKeysIncrease(es, s, before[i], n - 1);
      }
    }
  }

  // The shown entries are, in increasing order of the user keys and one for each, the keys that
  // the writes have a value for, with that value.
  ghost predicate ShowsHistory(es: seq<Entry>, hist: seq<Write>, snap: nat)
    requires snap <= |hist|
  {
    var ks := ShownBelow(es, snap, |es|);
    && KeysIncrease(es, ks)
    && forall u, v :: RefGet(hist, u, snap) == Some(v)
         <==> exists i :: 0 <= i < |ks| && es[ks[i]].key == u && es[ks[i]].op == Put(v)
  }

  // Merging the iterators of the memtables and of all levels gives a list whose shown entries
  // are, in increasing order of the user keys and one for each, exactly the keys the list of
  // writes has a value for at the snapshot, with that value.
  lemma ScanShowsHistory(db: DBImpl, rank: Entry -> real, snap: nat)
    requires db.Valid() && db.floor <= snap <= db.lastSequence
    requires Ranked(rank, All(db.Abs()))
    ensures db.version.files != [] && snap <= |db.hist|
    ensures var es := MergeLists(Children(db.mem, db.imm, db.version.files));
            && Items(rank, es) == Mergers.MergeAll(ItemLists(rank, Children(db.mem, db.imm, db.version.files)))
            && Sorted(es) && ShowsHistory(es, db.hist, snap)
  {
    hide Inv, Separate, Union, Ranked, Items, Children, Sorted, Shown, IsNewest;
    ChildrenHoldAll(db);
    var es := MergeLists(Children(db.mem, db.imm, db.version.files));
    MergedEntries(rank, Children(db.mem, db.imm, db.version.files));
    LastIsHist(db.Abs());
    ListedInOrder(es, snap, |es|);
    forall u, v ensures RefGet(db.hist, u, snap) == Some(v)
        <==> exists i :: 0 <= i < |ShownBelow(es, snap, |es|)| && es[ShownBelow(es, snap, |es|)[i]].key == u
                         && es[ShownBelow(es, snap, |es|)[i]].op == Put(v) {
      ScanHasKey(db, es, snap, u, v);
    }
  }

  lemma ScanHasKey(db: DBImpl, es: seq<Entry>, snap: nat, u: UserKey, v: Bytes)
    requires db.Valid() && db.floor <= snap <= db.lastSequence == |db.hist|
    requires Sorted(es) && Content(es) == All(db.Abs())
    ensures var ks := ShownBelow(es, snap, |es|);
            RefGet(db.hist, u, snap) == Some(v) <==>
              exists i :: 0 <= i < |ks| && es[ks[i]].key == u && es[ks[i]].op == Put(v)
  {
    hide Inv, Sorted, Shown, IsNewest;
    var ks := ShownBelow(es, snap, |es|);
    RunGetIsNewest(es, u, snap);
    NewestIsReference(db.Abs(), u, snap, RunGet(es, u, snap));
    ShownIsReadable(es, snap, u, v);
    if i :| 0 <= i < |es| && Shown(es, snap, i) && es[i].key == u && es[i].op == Put(v) {
      ShownAreListed(es, snap, |es|, i);
      var k :| 0 <= k < |ks| && ks[k] == i;
    }
  }

  // ---------- DBImpl::NewIterator

  // Items are parsed as the entries they stand for, and sought keys compare with them.
  ghost predicate Parses(rank: Entry -> real, entryOf: Cursors.Item -> Entry, rankOf: IKey -> real, S: set<Entry>) {
    && Ranked(rank, S)
    && (forall e | e in S :: entryOf(ItemOf(rank, e)) == e)
    && forall e, k | e in S :: rank(e) < rankOf(k) <==> Less(InternalKey(e), k)
  }

  lemma ItemsRepresent(rank: Entry -> real, entryOf: Cursors.Item -> Entry, rankOf: IKey -> real, es: seq<Entry>)
    requires Sorted(es) && Parses(rank, entryOf, rankOf, Content(es))
    ensures Represents(entryOf, rankOf, Items(rank, es), es)
  {
    hide Sorted, Ranked;
    InContentAll(es);
  }

  // A user-facing iterator over the merging iterator of the store's children: moving it goes
  // through the list of what is shown, and that is what the list of writes says.
  method NewIterator(db: DBImpl, rank: Entry -> real, entryOf: Cursors.Item -> Entry, rankOf: IKey -> real, snapshot: Option<nat>)
    returns (it: DBIter)
    requires db.Valid() && (snapshot.Some? ==> db.floor <= snapshot.value <= db.lastSequence)
    requires Parses(rank, entryOf, rankOf, All(db.Abs()))
    ensures fresh(it) && fresh(it.iter.merging) && it.Ok() && !it.valid
    ensures it.sequence == (if snapshot.Some? then snapshot.value else db.lastSequence) <= |db.hist|
    ensures db.version.files != [] && it.iter.es == MergeLists(Children(db.mem, db.imm, db.version.files))
    ensures ShowsHistory(it.iter.es, db.hist, it.sequence)
  {
    hide Inv, Separate, Union, Ranked, Sorted, ShowsHistory, Items, Children, Content, Represents;
    LastIsHist(db.Abs());
    FloorIsBelow(db.Abs());
    ChildrenHoldAll(db);
    var lists := Children(db.mem, db.imm, db.version.files);
    var sequence := if snapshot.Some? then snapshot.value else db.lastSequence;
    ghost var es := MergeLists(lists);
    assert Ranked(rank, All(db.Abs()));
    MergedEntries(rank, lists);
    ItemsAreApart(rank, lists);
    ItemsRepresent(rank, entryOf, rankOf, es);
    ScanShowsHistory(db, rank, sequence);
    var merging := new Mergers.MergingIterator(ItemLists(rank, lists));
    var iter := new InternalIterator(merging, entryOf, rankOf, es);
    it := new DBIter(iter, sequence);
  }

  lemma FloorIsBelow(s: State)
    requires Inv(s)
    ensures s.floor <= s.last
  {
  }

  // ---------- the child of a level

  // The files of a level as the blocks of a two-level iterator, whose index has their largest
  // keys.
  function BlocksOf(rank: Entry -> real, files: seq<Table>): (r: seq<seq<Cursors.Item>>)
    ensures |r| == |files|
  {
    seq(|files|, i requires 0 <= i < |files| => Items(rank, files[i].entries))
  }

  function IndexOf(rank: Entry -> real, handleOf: Table -> Bytes, files: seq<Table>): (r: seq<TwoLevels.IndexEntry>)
    ensures |r| == |files|
  {
    seq(|files|, i requires 0 <= i < |files| => TwoLevels.IndexEntry(rank(files[i].Largest()), handleOf(files[i])))
  }

  lemma {:induction false} BlocksConcat(rank: Entry -> real, files: seq<Table>)
    ensures TwoLevels.Concat(BlocksOf(rank, files)) == Items(rank, Concat(files))
  {
    if files != [] {
      var init, last := files[..|files| - 1], files[|files| - 1];
      BlocksConcat(rank, init);
      assert BlocksOf(rank, files)[..|files| - 1] == BlocksOf(rank, init);
      ItemsSplit(rank, Concat(init), last.entries);
    }
  }

  // A two-level iterator over a level's files goes through the level's child list, and its
  // index separates them.
  lemma LevelIsTwoLevel(rank: Entry -> real, handleOf: Table -> Bytes, files: seq<Table>)
    requires InOrder(files) && Ranked(rank, FilesContent(FileSet(files)))
    ensures TwoLevels.Concat(BlocksOf(rank, files)) == Items(rank, Concat(files))
    ensures TwoLevels.Separates(IndexOf(rank, handleOf, files), BlocksOf(rank, files))
  {
    hide Ranked, InOrder, TwoLevels.Concat, FilesContent, FileSet, Cursors.Sorted;
    BlocksConcat(rank, files);
    forall b | 0 <= b < |files| ensures Cursors.Sorted(BlocksOf(rank, files)[b]) {
      BlockIsSorted(rank, files, b);
    }
    forall b, i | 0 <= b < |files| && 0 <= i < |files[b].entries|
      ensures rank(files[b].entries[i]) <= rank(files[b].Largest()) {
      if i < |files[b].entries| - 1 {
        RanksBefore(rank, files, b, i, b, |files[b].entries| - 1);
      }
    }
    forall b, c, i | 0 <= b < c < |files| && 0 <= i < |files[c].entries|
      ensures rank(files[b].Largest()) < rank(files[c].entries[i]) {
      RanksBefore(rank, files, b, |files[b].entries| - 1, c, i);
    }
    forall b, c | 0 <= b < c < |files| ensures rank(files[b].Largest()) < rank(files[c].Largest()) {
      RanksBefore(rank, files, b, |files[b].entries| - 1, c, |files[c].entries| - 1);
    }
  }

  lemma BlockIsSorted(rank: Entry -> real, files: seq<Table>, b: nat)
    requires InOrder(files) && Ranked(rank, FilesContent(FileSet(files))) && b < |files|
    ensures Cursors.Sorted(Items(rank, files[b].entries))
  {
    hide Ranked, InOrder, FilesContent, FileSet;
    var items := Items(rank, files[b].entries);
    forall i, j | 0 <= i < j < |items| ensures items[i].key < items[j].key {
      RanksBefore(rank, files, b, i, b, j);
    }
  }

  lemma RanksBefore(rank: Entry -> real, files: seq<Table>, b: nat, i: nat, c: nat, j: nat)
    requires InOrder(files) && Ranked(rank, FilesContent(FileSet(files)))
    requires b < |files| && c < |files| && i < |files[b].entries| && j < |files[c].entries|
    requires b < c || (b == c && i < j)
    ensures rank(files[b].entries[i]) < rank(files[c].entries[j])
  {
    var f, g := files[b], files[c];
    assert f in FileSet(files) && g in FileSet(files) && f.entries[i] in f.entries && g.entries[j] in g.entries;
    if b < c {
      assert FileBefore(f, g);
      assert i < |f.entries| - 1 ==> Before(f.entries[i], f.Largest());
      assert j > 0 ==> Before(g.Smallest(), g.entries[j]);
    }
  }
}
