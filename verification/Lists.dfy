/**
 Sorted lists of entries, one for each iterator that is merged, and their merge
 (table/merger, db/version_set).
 */
module EntryLists {
  import opened Coding
  import opened Entries
  import opened Levels
  import opened Versions
  import opened Builders

  // The iterator that goes through the files of a level one after the other.
  function Concat(files: seq<Table>): seq<Entry> {
    if files == [] then [] else Concat(files[..|files| - 1]) + files[|files| - 1].entries
  }

  function LevelZero(files: seq<Table>): seq<seq<Entry>> {
    seq(|files|, i requires 0 <= i < |files| => files[i].entries)
  }

  ghost function Union(lists: seq<seq<Entry>>): set<Entry> {
    set i, e | 0 <= i < |lists| && e in lists[i] :: e
  }

  // Every list is sorted, and no entry is in two of them.
  ghost predicate Separate(lists: seq<seq<Entry>>) {
    && (forall i | 0 <= i < |lists| :: Sorted(lists[i]))
    && forall i, j, e | 0 <= i < j < |lists| && e in lists[i] :: e !in lists[j]
  }

  lemma Joined(a: seq<seq<Entry>>, b: seq<seq<Entry>>)
    ensures Union(a + b) == Union(a) + Union(b)
    ensures Separate(a) && Separate(b) && Union(a) !! Union(b) ==> Separate(a + b)
  {
    var all := a + b;
    forall e ensures e in Union(all) <==> e in Union(a) + Union(b) {
      if e in Union(a) {
        var i :| 0 <= i < |a| && e in a[i];
        assert e in all[i];
      }
      if e in Union(b) {
        var i :| 0 <= i < |b| && e in b[i];
        assert e in all[|a| + i];
      }
    }
    if Separate(a) && Separate(b) && Union(a) !! Union(b) {
      forall i, j, e | 0 <= i < j < |all| && e in all[i] ensures e !in all[j] {
        if i < |a| <= j {
          assert e in Union(a);
          assert b[j - |a|] == all[j];
          assert e in b[j - |a|] ==> e in Union(b);
        }
      }
    }
  }

  lemma One(es: seq<Entry>)
    requires Sorted(es)
    ensures Separate([es]) && Union([es]) == Content(es)
  {
    assert forall e :: e in es ==> e in [es][0];
  }

  lemma {:induction false} ConcatIsSorted(files: seq<Table>)
    requires InOrder(files)
    ensures Sorted(Concat(files)) && Content(Concat(files)) == FilesContent(FileSet(files))
    ensures forall e | e in Concat(files) ::
              files != [] && (e == files[|files| - 1].Largest() || Before(e, files[|files| - 1].Largest()))
  {
    if files != [] {
      var init, f := files[..|files| - 1], files[|files| - 1];
      ConcatIsSorted(init);
      forall e | e in Concat(init) ensures Before(e, f.Smallest()) {
        assert FileBefore(files[|files| - 2], f);
      }
      AppendFile(Concat(init), f);
      assert files == init + [f];
      FileSetAppend(init, f);
      AddedContent(FileSet(init), f);
    }
  }

  lemma AddedContent(S: set<Table>, f: Table)
    ensures FilesContent(S + {f}) == FilesContent(S) + Content(f.entries)
  {
  }

  lemma AppendFile(es: seq<Entry>, f: Table)
    requires Sorted(es) && forall e | e in es :: Before(e, f.Smallest())
    ensures Sorted(es + f.entries) && Content(es + f.entries) == Content(es) + Content(f.entries)
    ensures forall e | e in es + f.entries :: e == f.Largest() || Before(e, f.Largest())
  {
    var all := es + f.entries;
    SmallestToLargest(f);
    forall j | 0 <= j < |f.entries| ensures j == 0 || Before(f.Smallest(), f.entries[j]) {
    }
    forall i, j | 0 <= i < j < |all| ensures Before(all[i], all[j]) {
      if i < |es| <= j {
        assert all[i] in es && all[j] == f.entries[j - |es|];
      }
    }
  }

  lemma InUnion(lists: seq<seq<Entry>>, i: nat, j: nat)
    requires i < |lists| && j < |lists[i]|
    ensures lists[i][j] in lists[i] && lists[i][j] in Union(lists)
  {
    assert lists[i][j] in lists[i];
  }

  // ---------- merging

  // The entry that comes first goes first.
  function Merge2(a: seq<Entry>, b: seq<Entry>): seq<Entry> {
    if a == [] then b
    else if b == [] then a
    else if Before(b[0], a[0]) then [b[0]] + Merge2(a, b[1..])
    else [a[0]] + Merge2(a[1..], b)
  }

  function MergeLists(lists: seq<seq<Entry>>): seq<Entry> {
    if lists == [] then [] else Merge2(lists[0], MergeLists(lists[1..]))
  }

  // An internal key names one entry.
  ghost predicate Keyed(S: set<Entry>) {
    forall e, d | e in S && d in S && InternalKey(e) == InternalKey(d) :: e == d
  }

  lemma EitherBefore(e: Entry, d: Entry)
    requires InternalKey(e) != InternalKey(d)
    ensures Before(e, d) || Before(d, e)
  {
  }

  lemma HeadFirst(x: Entry, rest: seq<Entry>)
    requires Sorted(rest) && forall e | e in rest :: Before(x, e)
    ensures Sorted([x] + rest) && Content([x] + rest) == {x} + Content(rest)
  {
  }

  lemma HeadAndTail(a: seq<Entry>)
    requires a != [] && Sorted(a)
    ensures Sorted(a[1..]) && Content(a) == {a[0]} + Content(a[1..])
    ensures forall e | e in a[1..] :: Before(a[0], e)
  {
    assert a == [a[0]] + a[1..];
  }

  lemma {:induction false} Merge2IsUnion(a: seq<Entry>, b: seq<Entry>)
    requires Sorted(a) && Sorted(b) && Content(a) !! Content(b) && Keyed(Content(a) + Content(b))
    ensures Sorted(Merge2(a, b)) && Content(Merge2(a, b)) == Content(a) + Content(b)
    decreases |a| + |b|
  {
    hide Sorted, Content, Before;
    if a == [] || b == [] {
      NoContent();
    } else {
      HeadAndTail(a);
      HeadAndTail(b);
      InContent(a, a[0]);
      InContent(b, b[0]);
      EitherBefore(a[0], b[0]);
      if Before(b[0], a[0]) {
        Merge2IsUnion(a, b[1..]);
        AfterBoth(b[0], a, b[1..]);
        HeadFirst(b[0], Merge2(a, b[1..]));
      } else {
        Merge2IsUnion(a[1..], b);
        AfterBoth(a[0], b, a[1..]);
        HeadFirst(a[0], Merge2(a[1..], b));
      }
    }
  }

  lemma NoContent()
    ensures Content([]) == {} && Sorted([])
  {
  }

  lemma InContent(a: seq<Entry>, e: Entry)
    ensures e in a <==> e in Content(a)
  {
  }

  lemma InContentAll(a: seq<Entry>)
    ensures forall e :: e in a <==> e in Content(a)
  {
  }

  // x comes before all of a, whose head it is before, and all of rest.
  lemma AfterBoth(x: Entry, a: seq<Entry>, rest: seq<Entry>)
    requires a != [] && Sorted(a) && Before(x, a[0]) && forall e | e in rest :: Before(x, e)
    ensures forall m: seq<Entry>, e | Content(m) == Content(a) + Content(rest) && e in m :: Before(x, e)
  {
    forall e | e in a ensures Before(x, e) {
    }
    forall m: seq<Entry>, e | Content(m) == Content(a) + Content(rest) && e in m ensures Before(x, e) {
      assert e in Content(m);
    }
  }

  // The merge of lists that share no entry is the sorted list of all their entries.
  lemma {:induction false} MergeListsIsUnion(lists: seq<seq<Entry>>)
    requires Separate(lists) && Keyed(Union(lists))
    ensures Sorted(MergeLists(lists)) && Content(MergeLists(lists)) == Union(lists)
  {
    hide Sorted, Content, Separate, Union;
    if lists == [] {
      NoLists();
    } else {
      var rest := lists[1..];
      Rest(lists);
      MergeListsIsUnion(rest);
      Merge2IsUnion(lists[0], MergeLists(rest));
    }
  }

  lemma NoLists()
    ensures Union([]) == {} && Content([]) == {} && Sorted([])
  {
  }

  lemma Rest(lists: seq<seq<Entry>>)
    requires Separate(lists) && lists != []
    ensures Separate(lists[1..]) && Sorted(lists[0])
    ensures Union(lists) == Content(lists[0]) + Union(lists[1..]) && Content(lists[0]) !! Union(lists[1..])
  {
    var rest := lists[1..];
    forall i | 0 <= i < |rest| ensures rest[i] == lists[i + 1] {
    }
    assert lists == [lists[0]] + rest;
    One(lists[0]);
    Joined([lists[0]], rest);
    forall e | e in Union(rest) ensures e !in Content(lists[0]) {
      var i :| 0 <= i < |rest| && e in rest[i];
      assert lists[i + 1] == rest[i];
    }
  }
}
