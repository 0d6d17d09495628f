/**
 Applying version edits (VersionSet::Builder): one level's files are the base files and the
 added files without the deleted ones, kept sorted by smallest key.  Recovery applies every
 edit of the manifest and saves once; LogAndApply saves after each edit.
 */
module Builders {
  import opened Coding
  import opened Entries
  import opened Levels
  import opened Versions

  // BySmallestKey
  predicate BySmallest(f: Table, g: Table) {
    || Before(f.Smallest(), g.Smallest())
    || (InternalKey(f.Smallest()) == InternalKey(g.Smallest()) && f.number < g.number)
  }

  // What the order cannot tell apart.
  predicate Same(f: Table, g: Table) {
    f.number == g.number && InternalKey(f.Smallest()) == InternalKey(g.Smallest())
  }

  ghost predicate SortedFiles(files: seq<Table>) {
    forall i, j | 0 <= i < j < |files| :: BySmallest(files[i], files[j])
  }

  lemma FileSetAppend(files: seq<Table>, f: Table)
    ensures FileSet(files + [f]) == FileSet(files) + {f}
  {
    assert f in files + [f];
  }

  // What one edit does to one level.
  datatype LevelEdit = LevelEdit(deleted: set<nat>, added: seq<Table>)

  // The builder's state for one level.
  datatype LevelState = LevelState(deleted: set<nat>, added: set<Table>)

  const FRESH := LevelState({}, {})

  ghost function Numbers(files: seq<Table>): set<nat> {
    set f | f in files :: f.number
  }

  ghost function Edited(b: LevelState, e: LevelEdit): LevelState {
    LevelState(b.deleted + e.deleted - Numbers(e.added), b.added + FileSet(e.added))
  }

  ghost function Saved(base: set<Table>, b: LevelState): set<Table> {
    set f | f in base + b.added && f.number !in b.deleted
  }

  ghost function EditedAll(edits: seq<LevelEdit>): LevelState {
    if edits == [] then FRESH else Edited(EditedAll(edits[..|edits| - 1]), edits[|edits| - 1])
  }

  // Saving once after all edits, as recovery does.
  ghost function SavedOnce(base: set<Table>, edits: seq<LevelEdit>): set<Table> {
    Saved(base, EditedAll(edits))
  }

  // Saving after every edit, as LogAndApply does.
  ghost function SavedEach(base: set<Table>, edits: seq<LevelEdit>): set<Table> {
    if edits == [] then base
    else Saved(SavedEach(base, edits[..|edits| - 1]), Edited(FRESH, edits[|edits| - 1]))
  }

  // A deleted file comes back when an edit adds another file under its number.
  ghost predicate Revives(base: set<Table>, b: LevelState, e: LevelEdit, f: Table) {
    f in base + b.added && f !in e.added && f.number in b.deleted && f.number in Numbers(e.added)
  }

  // One more edit may be applied to the builder instead of to the saved result exactly when
  // it does not add a file under the number of one already deleted.
  lemma EditThenSaveIff(base: set<Table>, b: LevelState, e: LevelEdit)
    ensures Saved(base, Edited(b, e)) == Saved(Saved(base, b), Edited(FRESH, e))
       <==> forall f :: !Revives(base, b, e, f)
  {
    var once, each := Saved(base, Edited(b, e)), Saved(Saved(base, b), Edited(FRESH, e));
    forall f | f !in e.added && !Revives(base, b, e, f) ensures f in once <==> f in each {
    }
    forall f | Revives(base, b, e, f) ensures f in once && f !in each {
    }
    if forall f :: !Revives(base, b, e, f) {
      forall f ensures f in once <==> f in each {
        if f in e.added {
          assert f.number in Numbers(e.added);
        }
      }
    }
  }

  // Every number names one file of the level for ever.
  ghost predicate AddedOnce(base: set<Table>, edits: seq<LevelEdit>) {
    && (forall i, f, g | 0 <= i < |edits| && f in base && g in edits[i].added :: f.number != g.number)
    && (forall i, j, f, g | 0 <= i < j < |edits| && f in edits[i].added && g in edits[j].added ::
          f.number != g.number)
  }

  lemma {:induction false} EditedAllComesFromEdits(edits: seq<LevelEdit>, f: Table)
    requires f in EditedAll(edits).added
    ensures exists i | 0 <= i < |edits| :: f in edits[i].added
  {
    var last := edits[|edits| - 1];
    if f !in last.added {
      EditedAllComesFromEdits(edits[..|edits| - 1], f);
      var i :| 0 <= i < |edits| - 1 && f in edits[..|edits| - 1][i].added;
      assert f in edits[i].added;
    } else {
      assert f in edits[|edits| - 1].added;
    }
  }

  lemma PrefixAddsOnce(base: set<Table>, edits: seq<LevelEdit>)
    requires AddedOnce(base, edits) && edits != []
    ensures AddedOnce(base, edits[..|edits| - 1])
  {
  }

  // When a file number is added at most once per level, recovery rebuilds exactly the files
  // that the edits produced one at a time.
  lemma {:induction false} SavedOnceIsSavedEach(base: set<Table>, edits: seq<LevelEdit>)
    requires AddedOnce(base, edits)
    ensures SavedOnce(base, edits) == SavedEach(base, edits)
  {
    hide AddedOnce, Revives, Saved, Edited;
    if edits == [] {
      NothingSaved(base);
    } else {
      var n := |edits| - 1;
      var b, e := EditedAll(edits[..n]), edits[n];
      PrefixAddsOnce(base, edits);
      SavedOnceIsSavedEach(base, edits[..n]);
      EditThenSaveIff(base, b, e);
      forall f ensures !Revives(base, b, e, f) {
        NothingRevives(base, edits, f);
      }
    }
  }

  lemma NothingSaved(base: set<Table>)
    ensures Saved(base, FRESH) == base
  {
  }

  lemma NothingRevives(base: set<Table>, edits: seq<LevelEdit>, f: Table)
    requires AddedOnce(base, edits) && edits != []
    ensures !Revives(base, EditedAll(edits[..|edits| - 1]), edits[|edits| - 1], f)
  {
    hide EditedAll, AddedOnce;
    forall g | g in edits[|edits| - 1].added && f in base + EditedAll(edits[..|edits| - 1]).added
      ensures f.number != g.number {
      NewNumber(base, edits, f, g);
    }
  }

  lemma NewNumber(base: set<Table>, edits: seq<LevelEdit>, f: Table, g: Table)
    requires AddedOnce(base, edits) && edits != [] && g in edits[|edits| - 1].added
    requires f in base + EditedAll(edits[..|edits| - 1]).added
    ensures f.number != g.number
  {
    hide EditedAll;
    if f !in base {
      EditedAllComesFromEdits(edits[..|edits| - 1], f);
      var i :| 0 <= i < |edits| - 1 && f in edits[..|edits| - 1][i].added;
      assert f in edits[i].added;
    }
  }

  // Two sorted lists of the same files are the same list.
  lemma {:induction false} SortedFilesAreUnique(a: seq<Table>, b: seq<Table>)
    requires SortedFiles(a) && SortedFiles(b) && FileSet(a) == FileSet(b)
    ensures a == b
  {
    assert b != [] ==> b[0] in FileSet(b);
    if a == [] {
      assert FileSet(a) == {};
    } else {
      assert a[0] in FileSet(a);
      var i :| 0 <= i < |b| && b[i] == a[0];
      assert b[0] in FileSet(a);
      var j :| 0 <= j < |a| && a[j] == b[0];
      assert i == 0;
      forall f ensures f in a[1..] <==> f in b[1..] {
        assert f in a <==> f in FileSet(a);
        assert f in b <==> f in FileSet(b);
      }
      SortedFilesAreUnique(a[1..], b[1..]);
    }
  }

  lemma InsertedIsSorted(added: seq<Table>, f: Table, i: nat)
    requires SortedFiles(added) && i <= |added| && f !in added[i..]
    requires forall j | 0 <= j < i :: BySmallest(added[j], f)
    requires i < |added| ==> BySmallest(f, added[i])
    ensures SortedFiles(added[..i] + [f] + added[i..])
  {
  }

  // Builder for one level.
  class LevelBuilder {
    const base: seq<Table>
    var deleted: set<nat>
    var added: seq<Table>

    ghost predicate Valid()
      reads this
    {
      SortedFiles(base) && SortedFiles(added)
    }

    ghost function State(): LevelState
      reads this
    {
      LevelState(deleted, FileSet(added))
    }

    constructor (base: seq<Table>)
      requires SortedFiles(base)
      ensures Valid() && State() == FRESH && this.base == base
    {
      this.base := base;
      deleted := {};
      added := [];
    }

    // std::set::insert
    method Insert(f: Table)
      requires Valid() && forall g | g in added && Same(g, f) :: g == f
      modifies `added
      ensures Valid() && FileSet(added) == old(FileSet(added)) + {f}
    {
      var i := 0;
      while i < |added| && BySmallest(added[i], f)
        invariant 0 <= i <= |added|
        invariant forall j | 0 <= j < i :: BySmallest(added[j], f)
      {
        i := i + 1;
      }
      if i < |added| && added[i] == f {
        assert f in added;
        return;
      }
      assert i < |added| ==> added[i] in added && !Same(added[i], f);
      InsertedIsSorted(added, f, i);
      InsertedSet(added, f, i);
      added := added[..i] + [f] + added[i..];
    }

    method Apply(e: LevelEdit)
      requires Valid()
      requires forall f, g | f in added + e.added && g in e.added && Same(f, g) :: f == g
      modifies this
      ensures Valid() && State() == Edited(old(State()), e)
    {
      deleted := deleted + e.deleted;
      for i := 0 to |e.added|
        invariant Valid()
        invariant forall f | f in added :: f in old(added) + e.added
        invariant deleted == old(deleted) + e.deleted - Numbers(e.added[..i])
        invariant FileSet(added) == old(FileSet(added)) + FileSet(e.added[..i])
      {
        var f := e.added[i];
        assert f in e.added;
        assert e.added[..i + 1] == e.added[..i] + [f];
        forall g | g in added && Same(g, f) ensures g == f {
          assert g in old(added) + e.added;
        }
        deleted := deleted - {f.number};
        Insert(f);
        forall g | g in added ensures g in old(added) + e.added {
          assert g in FileSet(added);
        }
      }
      assert e.added[..|e.added|] == e.added;
    }

    // v holds, sorted, what is kept of the first bi base files and the first ai added files.
    ghost predicate Merged(v: seq<Table>, bi: nat, ai: nat)
      reads this
      requires bi <= |base| && ai <= |added|
    {
      SortedFiles(v) && FileSet(v) == Saved(FileSet(base[..bi]), LevelState(deleted, FileSet(added[..ai])))
    }

    function MaybeAddFile(v: seq<Table>, f: Table): seq<Table>
      reads this
    {
      if f.number in deleted then v else v + [f]
    }

    lemma AddBase(v: seq<Table>, bi: nat, ai: nat)
      requires Valid() && bi < |base| && ai <= |added| && Merged(v, bi, ai)
      requires ai > 0 ==> BySmallest(added[ai - 1], base[bi])
      ensures Merged(MaybeAddFile(v, base[bi]), bi + 1, ai)
    {
      forall g | g in v ensures BySmallest(g, base[bi]) {
        assert g in FileSet(v);
      }
      FileSetAppend(v, base[bi]);
      FileSetAppend(base[..bi], base[bi]);
      assert base[..bi + 1] == base[..bi] + [base[bi]];
    }

    lemma AddAdded(v: seq<Table>, bi: nat, ai: nat)
      requires Valid() && bi <= |base| && ai < |added| && Merged(v, bi, ai)
      requires bi > 0 ==> BySmallest(base[bi - 1], added[ai])
      ensures Merged(MaybeAddFile(v, added[ai]), bi, ai + 1)
    {
      forall g | g in v ensures BySmallest(g, added[ai]) {
        assert g in FileSet(v);
      }
      FileSetAppend(v, added[ai]);
      FileSetAppend(added[..ai], added[ai]);
      assert added[..ai + 1] == added[..ai] + [added[ai]];
    }

    lemma InsertedSet(files: seq<Table>, f: Table, i: nat)
      requires i <= |files|
      ensures FileSet(files[..i] + [f] + files[i..]) == FileSet(files) + {f}
    {
      assert forall g | g in files :: g in files[..i] || g in files[i..];
    }

    // Merges the added files into the base files, leaving out the deleted ones.
    method SaveTo() returns (v: seq<Table>)
      requires Valid() && forall f, g | f in base && g in added :: !Same(f, g)
      ensures SortedFiles(v) && FileSet(v) == Saved(FileSet(base), State())
    {
      hide Merged, Saved, SortedFiles, BySmallest;
      NothingMerged();
      v := [];
      var bi := 0;
      for ai := 0 to |added|
        invariant 0 <= bi <= |base| && Merged(v, bi, ai)
        invariant ai > 0 && bi < |base| ==> BySmallest(added[ai - 1], base[bi])
        invariant bi > 0 && ai < |added| ==> BySmallest(base[bi - 1], added[ai])
      {
        // std::upper_bound over the base files
        while bi < |base| && !BySmallest(added[ai], base[bi])
          invariant 0 <= bi <= |base| && Merged(v, bi, ai)
          invariant ai > 0 && bi < |base| ==> BySmallest(added[ai - 1], base[bi])
          invariant bi > 0 ==> BySmallest(base[bi - 1], added[ai])
        {
          BaseFirst(ai, bi);
          AddBase(v, bi, ai);
          v := MaybeAddFile(v, base[bi]);
          NextBase(ai, bi);
          bi := bi + 1;
        }
        AddAdded(v, bi, ai);
        v := MaybeAddFile(v, added[ai]);
        NextAdded(ai, bi);
      }
      while bi < |base|
        invariant 0 <= bi <= |base| && Merged(v, bi, |added|)
        invariant |added| > 0 && bi < |base| ==> BySmallest(added[|added| - 1], base[bi])
      {
        AddBase(v, bi, |added|);
        v := MaybeAddFile(v, base[bi]);
        NextBase(|added|, bi);
        bi := bi + 1;
      }
      AllMerged(v);
    }

    lemma BaseFirst(ai: nat, bi: nat)
      requires ai < |added| && bi < |base| && !BySmallest(added[ai], base[bi])
      requires forall f, g | f in base && g in added :: !Same(f, g)
      ensures BySmallest(base[bi], added[ai])
    {
      assert base[bi] in base && added[ai] in added;
    }

    lemma NextBase(ai: nat, bi: nat)
      requires SortedFiles(base) && bi < |base| && ai <= |added|
      ensures ai > 0 && bi + 1 < |base| && BySmallest(added[ai - 1], base[bi]) ==> BySmallest(added[ai - 1], base[bi + 1])
    {
      assert bi + 1 < |base| ==> BySmallest(base[bi], base[bi + 1]);
    }

    lemma NextAdded(ai: nat, bi: nat)
      requires SortedFiles(added) && ai < |added| && bi <= |base|
      ensures bi > 0 && ai + 1 < |added| && BySmallest(base[bi - 1], added[ai]) ==> BySmallest(base[bi - 1], added[ai + 1])
    {
      assert ai + 1 < |added| ==> BySmallest(added[ai], added[ai + 1]);
    }

    lemma NothingMerged()
      ensures Merged([], 0, 0)
    {
    }

    lemma AllMerged(v: seq<Table>)
      requires Merged(v, |base|, |added|)
      ensures SortedFiles(v) && FileSet(v) == Saved(FileSet(base), State())
    {
      assert base[..|base|] == base && added[..|added|] == added;
    }
  }
}
