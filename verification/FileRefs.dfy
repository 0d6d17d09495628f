/**
 Reference counts and obsolete files (db/version_set, db/db_impl): versions and builders
 hold file records, readers and the background job hold versions, and a table stays on disk
 while a live version needs it.  What else is needed, a table that a coming version will
 list, is safe exactly when it is a pending output at the time files are deleted.
 */
module FileRefs {
  import opened Coding

  // A file record: moving a table to another level makes a new record for the same number.
  datatype Meta = Meta(id: nat, number: nat)
  datatype Version = Version(id: nat, refs: nat, files: seq<Meta>)
  datatype Builder = Builder(base: nat, added: seq<Meta>)

  // ---------- what is held

  function FilesOf(vs: seq<Version>): multiset<Meta> {
    if vs == [] then multiset{} else FilesOf(vs[..|vs| - 1]) + multiset(vs[|vs| - 1].files)
  }

  lemma {:induction false} FilesWithout(vs: seq<Version>, i: nat)
    requires i < |vs|
    ensures FilesOf(vs) == FilesOf(vs[..i] + vs[i + 1..]) + multiset(vs[i].files)
  {
    hide FilesOf;
    var n := |vs| - 1;
    var without := vs[..i] + vs[i + 1..];
    FilesLast(vs);
    if i == n {
      assert without == vs[..n];
    } else {
      var init := vs[..n];
      FilesWithout(init, i);
      assert without == init[..i] + init[i + 1..] + [vs[n]];
      AppendedFiles(init[..i] + init[i + 1..], vs[n]);
    }
  }

  lemma FilesLast(vs: seq<Version>)
    requires vs != []
    ensures FilesOf(vs) == FilesOf(vs[..|vs| - 1]) + multiset(vs[|vs| - 1].files)
  {
  }

  lemma {:induction false} SameFiles(vs: seq<Version>, ws: seq<Version>)
    requires |vs| == |ws| && forall i | 0 <= i < |vs| :: vs[i].files == ws[i].files
    ensures FilesOf(vs) == FilesOf(ws)
  {
    if vs != [] {
      SameFiles(vs[..|vs| - 1], ws[..|ws| - 1]);
    }
  }

  lemma {:induction false} HeldByVersion(vs: seq<Version>, i: nat, m: Meta)
    requires i < |vs| && m in vs[i].files
    ensures m in FilesOf(vs)
  {
    FilesWithout(vs, i);
    assert m in multiset(vs[i].files);
  }

  function Count(refs: map<Meta, nat>, m: Meta): nat {
    if m in refs then refs[m] else 0
  }

  // Every record has as many references as holders, and a record without any is freed.
  ghost predicate Counts(refs: map<Meta, nat>, held: multiset<Meta>) {
    && (forall m | m in refs :: refs[m] > 0)
    && forall m :: Count(refs, m) == held[m]
  }

  ghost predicate OnDisk(held: multiset<Meta>, tables: set<nat>) {
    forall m | m in held :: m.number in tables
  }

  // ---------- who holds a version

  function Holders(current: nat, base: Option<nat>, readers: multiset<nat>, id: nat): nat {
    (if current == id then 1 else 0) + (if base == Some(id) then 1 else 0) + readers[id]
  }

  ghost predicate Listed(vs: seq<Version>, id: nat) {
    exists i :: 0 <= i < |vs| && vs[i].id == id
  }

  ghost predicate UniqueIds(vs: seq<Version>) {
    forall i, j | 0 <= i < j < |vs| :: vs[i].id != vs[j].id
  }

  // Each live version counts its holders, but for one extra reference of version extra.
  ghost predicate VersionsOk(vs: seq<Version>, current: nat, base: Option<nat>, readers: multiset<nat>, extra: Option<nat>)
  {
    && UniqueIds(vs)
    && (forall i | 0 <= i < |vs| ::
          vs[i].refs == Holders(current, base, readers, vs[i].id) + (if extra == Some(vs[i].id) then 1 else 0)
          && vs[i].refs > 0)
    && forall id | Holders(current, base, readers, id) > 0 :: Listed(vs, id)
  }

  lemma RefKeeps(vs: seq<Version>, current: nat, base: Option<nat>, readers: multiset<nat>, i: nat)
    requires VersionsOk(vs, current, base, readers, None) && i < |vs|
    ensures VersionsOk(vs[i := vs[i].(refs := vs[i].refs + 1)], current, base, readers + multiset{vs[i].id}, None)
  {
    var ws := vs[i := vs[i].(refs := vs[i].refs + 1)];
    forall id | Listed(vs, id) ensures Listed(ws, id) {
      var j :| 0 <= j < |vs| && vs[j].id == id;
      assert ws[j].id == id;
    }
  }

  // What Unref leaves: the version with one reference less, or no such version.
  function Released(vs: seq<Version>, i: nat): seq<Version>
    requires i < |vs| && vs[i].refs > 0
  {
    if vs[i].refs == 1 then vs[..i] + vs[i + 1..] else vs[i := vs[i].(refs := vs[i].refs - 1)]
  }

  lemma ReleaseKeeps(vs: seq<Version>, current: nat, base: Option<nat>, readers: multiset<nat>, i: nat)
    requires i < |vs| && VersionsOk(vs, current, base, readers, Some(vs[i].id))
    ensures VersionsOk(Released(vs, i), current, base, readers, None)
  {
    hide Listed;
    var ws := Released(vs, i);
    if vs[i].refs == 1 {
      forall k | 0 <= k < |ws| ensures ws[k] == vs[if k < i then k else k + 1] {
      }
    }
    forall id | Listed(vs, id) && (id != vs[i].id || vs[i].refs > 1) ensures Listed(ws, id) {
      StillListed(vs, i, id);
    }
  }

  lemma StillListed(vs: seq<Version>, i: nat, id: nat)
    requires i < |vs| && vs[i].refs > 0 && Listed(vs, id) && (id != vs[i].id || vs[i].refs > 1)
    ensures Listed(Released(vs, i), id)
  {
    var j :| 0 <= j < |vs| && vs[j].id == id;
    var ws := Released(vs, i);
    if vs[i].refs > 1 || j < i {
      assert ws[j].id == id;
    } else {
      assert ws[j - 1] == vs[j];
    }
  }

  lemma HeldAfter(vs: seq<Version>, i: nat, unlisted: multiset<Meta>, doomed: seq<Meta>)
    requires i < |vs| && vs[i].refs > 0 && doomed == if vs[i].refs == 1 then vs[i].files else []
    ensures FilesOf(vs) + unlisted == (FilesOf(Released(vs, i)) + unlisted) + multiset(doomed)
  {
    if vs[i].refs == 1 {
      FilesWithout(vs, i);
    } else {
      SameFiles(vs, Released(vs, i));
    }
  }

  // The current version has a file of this number.
  ghost predicate InCurrent(vs: seq<Version>, current: nat, number: nat) {
    exists i, f :: 0 <= i < |vs| && vs[i].id == current && f in vs[i].files && f.number == number
  }

  ghost predicate InLive(vs: seq<Version>, number: nat) {
    exists m | m in FilesOf(vs) :: m.number == number
  }

  // What a version to come will list is a table it waits for, or one of the current version.
  ghost predicate Expected(files: seq<Meta>, owed: set<nat>, vs: seq<Version>, current: nat) {
    forall m | m in files :: m.number in owed || InCurrent(vs, current, m.number)
  }

  ghost predicate AllStored(vs: seq<Version>, current: nat, draft: Option<seq<Meta>>, owed: set<nat>, tables: set<nat>) {
    && OnDisk(FilesOf(vs), tables)
    && owed <= tables
    && (draft.Some? ==> Expected(draft.value, owed, vs, current))
  }

  lemma StoredReleased(vs: seq<Version>, current: nat, base: Option<nat>, readers: multiset<nat>, i: nat,
                       draft: Option<seq<Meta>>, owed: set<nat>, tables: set<nat>)
    requires i < |vs| && vs[i].refs > 0 && VersionsOk(vs, current, base, readers, Some(vs[i].id))
    requires AllStored(vs, current, draft, owed, tables)
    ensures AllStored(Released(vs, i), current, draft, owed, tables)
  {
    hide VersionsOk, FilesOf, OnDisk, Expected, Released;
    ReleasedFiles(vs, i, tables);
    CurrentReleased(vs, current, base, readers, i);
    if draft.Some? {
      CurrentStays(vs, Released(vs, i), current, draft.value, owed);
    }
  }

  // References alone have changed.
  lemma StoredRefs(vs: seq<Version>, ws: seq<Version>, current: nat, draft: Option<seq<Meta>>, owed: set<nat>, tables: set<nat>)
    requires AllStored(vs, current, draft, owed, tables) && |ws| == |vs|
    requires forall k | 0 <= k < |vs| :: ws[k].id == vs[k].id && ws[k].files == vs[k].files
    ensures AllStored(ws, current, draft, owed, tables)
  {
    hide FilesOf, OnDisk, Expected;
    SameFiles(vs, ws);
    if draft.Some? {
      CurrentStays(vs, ws, current, draft.value, owed);
    }
  }

  // The draft is appended.
  lemma StoredAppended(vs: seq<Version>, current: nat, files: seq<Meta>, owed: set<nat>, tables: set<nat>, v: Version)
    requires AllStored(vs, current, Some(files), owed, tables) && v.files == files
    ensures AllStored(vs + [v], v.id, None, owed, tables)
  {
    hide FilesOf, Expected;
    NewOnDisk(vs, current, files, owed, tables);
    AppendedFiles(vs, v);
  }

  lemma CurrentStays(vs: seq<Version>, ws: seq<Version>, current: nat, files: seq<Meta>, owed: set<nat>)
    requires Expected(files, owed, vs, current)
    requires forall i | 0 <= i < |vs| && vs[i].id == current ::
               exists j :: 0 <= j < |ws| && ws[j].id == current && ws[j].files == vs[i].files
    ensures Expected(files, owed, ws, current)
  {
    StillCurrent(vs, ws, current);
  }

  lemma CurrentReleased(vs: seq<Version>, current: nat, base: Option<nat>, readers: multiset<nat>, i: nat)
    requires i < |vs| && VersionsOk(vs, current, base, readers, Some(vs[i].id))
    ensures vs[i].refs > 0
    ensures forall k | 0 <= k < |vs| && vs[k].id == current ::
              exists j :: 0 <= j < |Released(vs, i)| && Released(vs, i)[j].id == current && Released(vs, i)[j].files == vs[k].files
  {
    var ws := Released(vs, i);
    forall k | 0 <= k < |vs| && vs[k].id == current
      ensures exists j :: 0 <= j < |ws| && ws[j].id == current && ws[j].files == vs[k].files {
      assert Holders(current, base, readers, current) >= 1;
      var j := if vs[i].refs == 1 && k > i then k - 1 else k;
      assert ws[j].id == vs[k].id && ws[j].files == vs[k].files;
    }
  }

  lemma StillCurrent(vs: seq<Version>, ws: seq<Version>, current: nat)
    requires forall i | 0 <= i < |vs| && vs[i].id == current ::
               exists j :: 0 <= j < |ws| && ws[j].id == current && ws[j].files == vs[i].files
    ensures forall n | InCurrent(vs, current, n) :: InCurrent(ws, current, n)
  {
    forall n | InCurrent(vs, current, n) ensures InCurrent(ws, current, n) {
      var i, f :| 0 <= i < |vs| && vs[i].id == current && f in vs[i].files && f.number == n;
      var j :| 0 <= j < |ws| && ws[j].id == current && ws[j].files == vs[i].files;
      assert f in ws[j].files;
    }
  }

  lemma SameCurrent(vs: seq<Version>, ws: seq<Version>, current: nat)
    requires |vs| == |ws| && forall i | 0 <= i < |vs| :: ws[i].id == vs[i].id && ws[i].files == vs[i].files
    ensures forall n | InCurrent(vs, current, n) :: InCurrent(ws, current, n)
  {
    forall n | InCurrent(vs, current, n) ensures InCurrent(ws, current, n) {
      var i, f :| 0 <= i < |vs| && vs[i].id == current && f in vs[i].files && f.number == n;
      assert f in ws[i].files;
    }
  }

  lemma ListedInCurrent(vs: seq<Version>, i: nat, current: nat, f: Meta)
    requires i < |vs| && vs[i].id == current && f in vs[i].files
    ensures InCurrent(vs, current, f.number)
  {
  }

  lemma InCurrentIsLive(vs: seq<Version>, current: nat, n: nat)
    requires InCurrent(vs, current, n)
    ensures InLive(vs, n)
  {
    var i, f :| 0 <= i < |vs| && vs[i].id == current && f in vs[i].files && f.number == n;
    HeldByVersion(vs, i, f);
  }

  lemma ReleasedFiles(vs: seq<Version>, i: nat, tables: set<nat>)
    requires i < |vs| && vs[i].refs > 0 && OnDisk(FilesOf(vs), tables)
    ensures OnDisk(FilesOf(Released(vs, i)), tables)
  {
    hide FilesOf;
    if vs[i].refs == 1 {
      FilesWithout(vs, i);
    } else {
      SameFiles(vs, Released(vs, i));
    }
    forall m | m in FilesOf(Released(vs, i)) ensures m in FilesOf(vs) {
    }
  }

  lemma OneVersion()
    ensures FilesOf([Version(0, 1, [])]) == multiset{}
    ensures VersionsOk([Version(0, 1, [])], 0, None, multiset{} + multiset{}, None)
  {
    var vs := [Version(0, 1, [])];
    assert FilesOf(vs[..0]) == multiset{};
    assert vs[0].id == 0;
  }

  // What another thread does while the lock is free: it takes the current version, or lets go
  // of one it has.
  datatype Act = Take | Drop(id: nat)

  // A memtable written out inside a compaction: whether it is empty, and whether its edit is
  // logged.
  datatype Flushing = Flushing(empty: bool, ok: bool)

  class VersionSet {
    // The records that are allocated.
    var refs: map<Meta, nat>
    // The linked list of live versions.
    var versions: seq<Version>
    var current: nat
    var builder: Option<Builder>
    // A version that was saved to and is not yet appended.
    var draft: Option<seq<Meta>>
    // Who else holds which version: reads and iterators, and the background job.
    var readers: multiset<nat>
    var mine: multiset<nat>
    var pendingOutputs: set<nat>
    var tables: set<nat>
    var bgError: bool
    var nextRecord: nat
    var nextVersion: nat
    var nextFile: nat
    // The tables that were written for a version to come.
    ghost var owed: set<nat>

    ghost function Unlisted(): multiset<Meta>
      reads `builder, `draft
    {
      (if builder.Some? then multiset(builder.value.added) else multiset{})
      + (if draft.Some? then multiset(draft.value) else multiset{})
    }

    ghost function Held(): multiset<Meta>
      reads `versions, `builder, `draft
    {
      FilesOf(versions) + Unlisted()
    }

    function Base(): Option<nat>
      reads `builder
    {
      if builder.Some? then Some(builder.value.base) else None
    }

    ghost predicate Ok()
      reads this
    {
      && Counts(refs, Held())
      && VersionsOk(versions, current, Base(), readers + mine, None)
      && NumbersOk()
    }

    // Numbers yet to be given are new.
    ghost predicate NumbersOk()
      reads this
    {
      && (forall m | m in refs :: m.id < nextRecord)
      && (forall i | 0 <= i < |versions| :: versions[i].id < nextVersion)
      && (forall n | n in pendingOutputs || n in owed :: n < nextFile)
    }

    // The tables of live versions, and those versions to come wait for, are on disk.
    ghost predicate Stored()
      reads this
    {
      AllStored(versions, current, draft, owed, tables)
    }

    // Every table that is waited for is protected.
    ghost predicate Protected()
      reads this
    {
      forall n | n in owed :: n in pendingOutputs || InLive(versions, n)
    }

    // Between two edits: what is waited for is an output of the compaction at work.
    ghost predicate Quiet()
      reads this
    {
      Ok() && Stored() && builder.None? && draft.None? && owed <= pendingOutputs
    }

    lemma QuietMeans()
      ensures Quiet() <==> Ok() && Stored() && builder.None? && draft.None? && owed <= pendingOutputs
    {
    }

    lemma OwedIsProtected()
      ensures owed <= pendingOutputs ==> Protected()
    {
    }

    // A version is live exactly as long as someone holds it.
    lemma LiveIffHeld(id: nat)
      requires Ok()
      ensures Listed(versions, id) <==> Holders(current, Base(), readers + mine, id) > 0
    {
    }

    // A record is allocated exactly as long as a version or a builder holds it.
    lemma AllocatedIffHeld(m: Meta)
      requires Ok()
      ensures m in refs <==> m in Held()
    {
      assert Count(refs, m) == Held()[m];
    }

    // The files of a live version are allocated and their tables are on disk.
    lemma LiveFilesAreThere(i: nat, m: Meta)
      requires Ok() && Stored() && i < |versions| && m in versions[i].files
      ensures m in refs && m.number in tables
    {
      HeldByVersion(versions, i, m);
      assert m in Held();
      AllocatedIffHeld(m);
    }

    // As opened on a directory with these tables.
    constructor (tables: set<nat>)
      ensures Quiet() && owed == pendingOutputs == {} && mine == multiset{} && !bgError && this.tables == tables
    {
      refs, versions, current := map[], [Version(0, 1, [])], 0;
      builder, draft, readers, mine := None, None, multiset{}, multiset{};
      pendingOutputs, this.tables, owed := {}, tables, {};
      bgError, nextRecord, nextVersion, nextFile := false, 0, 1, 2;
      new;
      hide VersionsOk, FilesOf;
      OneVersion();
    }

    // ---------- versions

    method Ref(i: nat, reader: bool)
      requires Ok() && i < |versions|
      modifies this`versions, this`readers, this`mine
      ensures Ok() && (old(Stored()) ==> Stored())
      ensures readers == old(readers) + if reader then multiset{old(versions)[i].id} else multiset{}
      ensures mine == old(mine) + if reader then multiset{} else multiset{old(versions)[i].id}
    {
      hide VersionsOk, Counts, FilesOf, AllStored;
      ghost var was, all := versions, readers + mine;
      RefKeeps(versions, current, Base(), all, i);
      Hold(i, reader);
      assert readers + mine == all + multiset{was[i].id};
      SameFiles(was, versions);
      if AllStored(was, current, draft, owed, tables) {
        StoredRefs(was, versions, current, draft, owed, tables);
      }
    }

    method Hold(i: nat, reader: bool)
      requires i < |versions|
      modifies this`versions, this`readers, this`mine
      ensures versions == old(versions)[i := old(versions)[i].(refs := old(versions)[i].refs + 1)]
      ensures readers == old(readers) + if reader then multiset{old(versions)[i].id} else multiset{}
      ensures mine == old(mine) + if reader then multiset{} else multiset{old(versions)[i].id}
    {
      if reader {
        readers := readers + multiset{versions[i].id};
      } else {
        mine := mine + multiset{versions[i].id};
      }
      versions := versions[i := versions[i].(refs := versions[i].refs + 1)];
    }

    // The last holder deletes the version, which drops its files.
    method Unref(i: nat, reader: bool)
      requires Ok() && i < |versions| && versions[i].id in (if reader then readers else mine)
      modifies this`versions, this`readers, this`mine, this`refs
      ensures Ok() && (old(Stored()) ==> Stored())
      ensures readers == old(readers) - if reader then multiset{old(versions)[i].id} else multiset{}
      ensures mine == old(mine) - if reader then multiset{} else multiset{old(versions)[i].id}
      ensures forall n | old(InCurrent(versions, current, n)) :: InCurrent(versions, current, n)
    {
      hide Counts, FilesOf, AllStored, VersionsOk, Held, Released;
      ghost var was, all := versions, readers + mine;
      ReaderGone(versions, current, Base(), all, i);
      LoseHold(i, reader);
      CurrentReleased(versions, current, Base(), readers + mine, i);
      Release(i);
      StillCurrent(was, versions, current);
    }

    method LoseHold(i: nat, reader: bool)
      requires i < |versions| && versions[i].id in (if reader then readers else mine)
      modifies this`readers, this`mine
      ensures readers == old(readers) - if reader then multiset{versions[i].id} else multiset{}
      ensures mine == old(mine) - if reader then multiset{} else multiset{versions[i].id}
      ensures readers + mine == old(readers) + old(mine) - multiset{versions[i].id}
    {
      OneLess(readers, mine, versions[i].id);
      OneLess(mine, readers, versions[i].id);
      if reader {
        readers := readers - multiset{versions[i].id};
      } else {
        mine := mine - multiset{versions[i].id};
      }
    }

    // Drops one reference of a version whose holder has just let go of it.
    method Release(i: nat)
      requires Counts(refs, Held()) && NumbersOk() && i < |versions| && versions[i].refs > 0
      requires VersionsOk(versions, current, Base(), readers + mine, Some(versions[i].id))
      modifies this`versions, this`refs
      ensures Ok() && (old(Stored()) ==> Stored()) && versions == Released(old(versions), i)
    {
      hide Counts, FilesOf, VersionsOk, AllStored, Released, Held, Unlisted;
      HeldIs();
      ReleaseKeeps(versions, current, Base(), readers + mine, i);
      var doomed := if versions[i].refs == 1 then versions[i].files else [];
      HeldAfter(versions, i, Unlisted(), doomed);
      StoredAfterRelease(i);
      IdsReleased(versions, i, nextVersion);
      versions := Released(versions, i);
      HeldIs();
      DropFiles(doomed, Held());
    }

    lemma HeldIs()
      ensures Held() == FilesOf(versions) + Unlisted()
    {
    }

    lemma StoredAfterRelease(i: nat)
      requires i < |versions| && versions[i].refs > 0
      requires VersionsOk(versions, current, Base(), readers + mine, Some(versions[i].id))
      ensures Stored() ==> AllStored(Released(versions, i), current, draft, owed, tables)
    {
      hide VersionsOk, Released, AllStored;
      if Stored() {
        StoredReleased(versions, current, Base(), readers + mine, i, draft, owed, tables);
      }
    }

    // Drops one reference of each file; a record is freed when it has none left.
    method DropFiles(files: seq<Meta>, ghost left: multiset<Meta>)
      requires Counts(refs, left + multiset(files))
      modifies this`refs
      ensures Counts(refs, left) && refs.Keys <= old(refs).Keys
    {
      hide Counts;
      for k := 0 to |files|
        invariant Counts(refs, left + multiset(files[k..])) && refs.Keys <= old(refs).Keys
      {
        assert files[k..] == [files[k]] + files[k + 1..];
        assert left + multiset(files[k..]) == left + multiset(files[k + 1..]) + multiset{files[k]};
        DropOne(refs, files[k], left + multiset(files[k + 1..]));
        refs := Dropped(refs, files[k]);
      }
      assert files[|files|..] == [];
      assert left + multiset(files[|files|..]) == left;
    }

    method AddRefs(files: seq<Meta>, ghost held: multiset<Meta>)
      requires Counts(refs, held) && forall f | f in files :: f in refs
      modifies this`refs
      ensures Counts(refs, held + multiset(files)) && refs.Keys == old(refs).Keys
    {
      hide Counts;
      assert held + multiset(files[..0]) == held;
      for k := 0 to |files|
        invariant Counts(refs, held + multiset(files[..k])) && refs.Keys == old(refs).Keys
      {
        assert files[..k + 1] == files[..k] + [files[k]];
        assert held + multiset(files[..k + 1]) == held + multiset(files[..k]) + multiset{files[k]};
        AddOne(refs, files[k], held + multiset(files[..k]));
        refs := refs[files[k] := Count(refs, files[k]) + 1];
      }
      assert files[..|files|] == files;
    }

    method IndexOf(id: nat) returns (i: nat)
      requires Listed(versions, id)
      ensures i < |versions| && versions[i].id == id
    {
      i := 0;
      while versions[i].id != id
        invariant i < |versions| && forall j | 0 <= j < i :: versions[j].id != id
        decreases |versions| - i
      {
        i := i + 1;
      }
    }

    // Other threads run while the lock is free.
    method Others(acts: seq<Act>)
      requires Ok()
      modifies this`versions, this`readers, this`mine, this`refs
      ensures Ok() && (old(Stored()) ==> Stored()) && mine == old(mine)
    {
      hide Ok, Stored;
      for k := 0 to |acts|
        invariant Ok() && (old(Stored()) ==> Stored()) && mine == old(mine)
      {
        match acts[k]
        case Take =>
          HeldIsListed(current);
          var i := IndexOf(current);
          Ref(i, true);
        case Drop(id) =>
          if id in readers {
            HeldIsListed(id);
            var i := IndexOf(id);
            Unref(i, true);
          }
      }
    }

    lemma HeldIsListed(id: nat)
      requires Ok() && (id == current || id in readers || id in mine || Base() == Some(id))
      ensures Listed(versions, id)
    {
      assert Holders(current, Base(), readers + mine, id) > 0;
    }

    // ---------- edits

    // Builder's constructor: it holds its base.
    method BeginBuilder()
      requires Ok() && builder.None?
      modifies this`builder, this`versions
      ensures Ok() && (old(Stored()) ==> Stored()) && builder == Some(Builder(current, []))
      ensures |versions| == |old(versions)| && forall i | 0 <= i < |versions| ::
                versions[i].id == old(versions)[i].id && versions[i].files == old(versions)[i].files
    {
      hide VersionsOk, Counts, FilesOf, AllStored;
      HeldIsListed(current);
      var i := IndexOf(current);
      BaseKeeps(versions, current, readers + mine, i);
      ghost var was := versions;
      versions := versions[i := versions[i].(refs := versions[i].refs + 1)];
      builder := Some(Builder(current, []));
      SameFiles(was, versions);
      assert Held() == old(Held());
      if AllStored(was, current, draft, owed, tables) {
        StoredRefs(was, versions, current, draft, owed, tables);
      }
    }

    // An added file starts with one reference, the builder's.
    method AddFile(number: nat) returns (f: Meta)
      requires Ok() && builder.Some?
      modifies this`builder, this`refs, this`nextRecord
      ensures Ok() && (old(Stored()) ==> Stored()) && f.number == number
      ensures builder == Some(old(builder).value.(added := old(builder).value.added + [f]))
    {
      hide VersionsOk, Counts, FilesOf;
      ghost var held := Held();
      f := Meta(nextRecord, number);
      AddOne(refs, f, held);
      refs := refs[f := 1];
      nextRecord := nextRecord + 1;
      builder := Some(builder.value.(added := builder.value.added + [f]));
      assert Held() == held + multiset{f};
    }

    // SaveTo: the new version takes files of the base and added ones.
    method SaveTo(chosen: seq<Meta>)
      requires Ok() && builder.Some? && draft.None? && forall f | f in chosen :: f in Held()
      modifies this`draft, this`refs
      ensures Ok() && draft == Some(chosen)
      ensures old(Stored()) && Expected(chosen, owed, versions, current) ==> Stored()
    {
      hide VersionsOk, Counts, FilesOf, OnDisk, Expected, Held;
      ghost var held := Held();
      forall f | f in chosen ensures f in refs {
        AllocatedIffHeld(f);
      }
      AddRefs(chosen, held);
      HeldWithDraft(chosen);
      draft := Some(chosen);
      HeldIs();
    }

    lemma HeldWithDraft(chosen: seq<Meta>)
      requires draft.None?
      ensures Held() + multiset(chosen)
           == FilesOf(versions) + ((if builder.Some? then multiset(builder.value.added) else multiset{}) + multiset(chosen))
    {
    }

    // Builder's destructor: its added files and its base are let go of.
    method EndBuilder()
      requires Ok() && builder.Some?
      modifies this`builder, this`refs, this`versions
      ensures Ok() && (old(Stored()) ==> Stored()) && builder.None? && draft == old(draft)
      ensures forall n | old(InCurrent(versions, current, n)) :: InCurrent(versions, current, n)
    {
      hide Counts, FilesOf, VersionsOk, Listed, AllStored, Released, Held;
      HeldIsListed(builder.value.base);
      var i := IndexOf(builder.value.base);
      DropAdded(i);
      CurrentReleased(versions, current, Base(), readers + mine, i);
      ghost var was := versions;
      Release(i);
      StillCurrent(was, versions, current);
    }

    method DropAdded(ghost i: nat)
      requires Ok() && builder.Some? && i < |versions| && versions[i].id == builder.value.base
      modifies this`builder, this`refs
      ensures builder.None? && Counts(refs, Held()) && NumbersOk() && versions[i].refs > 0
      ensures VersionsOk(versions, current, None, readers + mine, Some(versions[i].id))
    {
      hide Counts, FilesOf, VersionsOk;
      var b := builder.value;
      BaseGone(versions, current, b.base, readers + mine, i);
      ghost var held := Held();
      builder := None;
      assert held == Held() + multiset(b.added);
      DropFiles(b.added, Held());
    }

    // The draft becomes the current version, and the old one is let go of.  The builder may
    // still be there, as it is in recovery.
    method AppendVersion()
      requires Ok() && draft.Some?
      modifies this`versions, this`current, this`draft, this`refs, this`nextVersion
      ensures Ok() && (old(Stored()) ==> Stored()) && draft.None?
      ensures Listed(versions, current) && forall f | f in old(draft).value :: InCurrent(versions, current, f.number)
    {
      hide Counts, FilesOf, VersionsOk, AllStored, Released, Held, Ok, Stored;
      HeldIsListed(current);
      var i := IndexOf(current);
      ghost var was, files := versions, draft.value;
      Append(i);
      ghost var appended := versions;
      Release(i);
      HeldIsListed(current);
      NewIsCurrent(appended, versions, was, i, current, files);
    }

    method Append(ghost i: nat)
      requires Ok() && draft.Some? && i < |versions| && versions[i].id == current
      modifies this`versions, this`current, this`draft, this`nextVersion
      ensures versions == old(versions) + [Version(old(nextVersion), 1, old(draft).value)]
      ensures current == old(nextVersion) && draft.None? && old(versions)[i].refs > 0
      ensures Counts(refs, Held()) && NumbersOk()
      ensures VersionsOk(versions, current, Base(), readers + mine, Some(versions[i].id))
      ensures old(Stored()) ==> Stored()
    {
      hide Counts, FilesOf, AllStored, VersionsOk, Held;
      ghost var was, files := versions, draft.value;
      ghost var v := Version(nextVersion, 1, files);
      NewCurrent(versions, current, Base(), readers + mine, nextVersion, files);
      if Stored() {
        StoredAppended(was, current, files, owed, tables, v);
      }
      HeldAppended(v);
      PushDraft();
      HeldIs();
    }

    method PushDraft()
      requires draft.Some?
      modifies this`versions, this`current, this`draft, this`nextVersion
      ensures versions == old(versions) + [Version(old(nextVersion), 1, old(draft).value)]
      ensures current == old(nextVersion) && nextVersion == old(nextVersion) + 1 && draft.None?
    {
      versions := versions + [Version(nextVersion, 1, draft.value)];
      current, nextVersion := nextVersion, nextVersion + 1;
      draft := None;
    }

    lemma HeldAppended(v: Version)
      requires draft == Some(v.files)
      ensures Held() == FilesOf(versions + [v]) + ((if builder.Some? then multiset(builder.value.added) else multiset{}) + multiset{})
    {
      hide FilesOf;
      AppendedFiles(versions, v);
    }

    // A version that could not be logged is deleted again.
    method DropDraft()
      requires Ok() && draft.Some?
      modifies this`draft, this`refs
      ensures Ok() && (old(Stored()) ==> Stored()) && draft.None?
    {
      hide Counts, FilesOf, VersionsOk, Expected, OnDisk;
      var files := draft.value;
      ghost var held := Held();
      draft := None;
      assert held == Held() + multiset(files);
      DropFiles(files, Held());
    }

    // ---------- files on disk

    method NewFileNumber() returns (n: nat)
      requires Ok()
      modifies this`nextFile
      ensures Ok() && (old(Stored()) ==> Stored())
      ensures n == old(nextFile) && nextFile == n + 1 && n !in pendingOutputs && n !in owed
    {
      hide VersionsOk, Counts, FilesOf, Expected, OnDisk;
      n := nextFile;
      nextFile := nextFile + 1;
    }

    // A table is about to be written under the number: it must not be deleted.
    method StartOutput(n: nat)
      requires Ok() && n < nextFile
      modifies this`pendingOutputs
      ensures Ok() && (old(Stored()) ==> Stored())
      ensures pendingOutputs == old(pendingOutputs) + {n}
    {
      hide VersionsOk, Counts, FilesOf, Expected, OnDisk;
      pendingOutputs := pendingOutputs + {n};
    }

    // The table is there, for a version to come.
    method WriteTable(n: nat)
      requires Ok() && n in pendingOutputs
      modifies this`tables, this`owed
      ensures Ok() && (old(Stored()) ==> Stored())
      ensures tables == old(tables) + {n} && owed == old(owed) + {n}
    {
      hide VersionsOk, Counts, FilesOf;
      tables := tables + {n};
      owed := owed + {n};
    }

    method FinishOutput(n: nat)
      requires Ok()
      modifies this`pendingOutputs
      ensures Ok() && (old(Stored()) ==> Stored()) && pendingOutputs == old(pendingOutputs) - {n}
    {
      hide VersionsOk, Counts, FilesOf, Expected, OnDisk;
      pendingOutputs := pendingOutputs - {n};
    }

    // No version waits for the table any more: it is listed, or given up.
    ghost method Settle(ns: set<nat>)
      requires Ok() && draft.None?
      modifies this`owed
      ensures Ok() && (old(Stored()) ==> Stored()) && owed == old(owed) - ns
    {
      hide VersionsOk, Counts, FilesOf, OnDisk;
      owed := owed - ns;
    }

    method AddLiveFiles(pending: set<nat>) returns (live: set<nat>)
      ensures forall n :: n in live <==> n in pending || InLive(versions, n)
    {
      live := pending;
      assert FilesOf(versions[..0]) == multiset{};
      for i := 0 to |versions|
        invariant forall n :: n in live <==> n in pending || InLive(versions[..i], n)
      {
        assert versions[..i + 1][..i] == versions[..i];
        ghost var before := live;
        var files := versions[i].files;
        for k := 0 to |files|
          invariant forall n :: n in live <==> n in before || exists j :: 0 <= j < k && files[j].number == n
        {
          live := live + {files[k].number};
        }
        LiveAfter(versions, i, pending, before, live);
      }
      assert versions[..|versions|] == versions;
    }

    // Deletes every table that no live version lists and no output is pending for, unless
    // there was an error.  The tables of live versions stay; one that a version to come waits
    // for is lost exactly when it was not protected.
    method DeleteObsoleteFiles()
      requires Ok() && Stored()
      modifies this`tables
      ensures Ok() && OnDisk(FilesOf(versions), tables)
      ensures forall n :: n in tables <==> n in old(tables) && (bgError || n in pendingOutputs || InLive(versions, n))
      ensures Stored() <==> bgError || Protected()
    {
      hide VersionsOk, Counts, FilesOf, Expected;
      if bgError {
        return;
      }
      var live := AddLiveFiles(pendingOutputs);
      tables := set n | n in tables && n in live;
      forall m | m in FilesOf(versions) ensures InLive(versions, m.number) {
      }
    }

    // ---------- what the code does in a row

    method RecordBackgroundError()
      requires Ok() && Stored()
      modifies this`bgError
      ensures Ok() && Stored() && bgError
    {
      hide Counts, VersionsOk, FilesOf, AllStored;
      bgError := true;
    }

    // VersionSet::LogAndApply: the manifest is written with the lock free.
    method LogAndApply(added: seq<nat>, dropped: set<Meta>, ok: bool, acts: seq<Act>)
      requires Ok() && Stored() && builder.None? && draft.None?
      requires forall n | n in added :: n in owed || InCurrent(versions, current, n)
      modifies this`refs, this`versions, this`current, this`builder, this`draft, this`readers, this`mine
      modifies this`nextRecord, this`nextVersion
      ensures Ok() && Stored() && builder.None? && draft.None? && mine == old(mine)
      ensures ok ==> forall n | n in added :: InCurrent(versions, current, n)
    {
      hide Ok, Stored, Expected, Held;
      var chosen := SaveEdit(added, dropped);
      EndBuilder();
      Others(acts);
      if ok {
        ghost var files := chosen;
        AppendVersion();
        forall n | n in added ensures InCurrent(versions, current, n) {
          var f :| f in files && f.number == n;
        }
      } else {
        DropDraft();
      }
    }

    method SaveEdit(added: seq<nat>, dropped: set<Meta>) returns (chosen: seq<Meta>)
      requires Ok() && Stored() && builder.None? && draft.None?
      requires forall n | n in added :: n in owed || InCurrent(versions, current, n)
      modifies this`refs, this`versions, this`builder, this`draft, this`nextRecord
      ensures Ok() && Stored() && builder.Some? && draft == Some(chosen)
      ensures forall n | n in added :: exists f :: f in chosen && f.number == n
    {
      hide Ok, Stored, Counts, VersionsOk, FilesOf, OnDisk, InCurrent, Held, Expected;
      ghost var was := versions;
      BeginBuilder();
      SameCurrent(was, versions, current);
      HeldIsListed(current);
      var i := IndexOf(current);
      chosen := Without(versions[i].files, dropped);
      ghost var kept, vs := chosen, versions;
      for k := 0 to |added|
        invariant Ok() && Stored() && builder.Some? && draft.None? && versions == vs
        invariant chosen == kept + builder.value.added && |builder.value.added| == k
        invariant forall j | 0 <= j < k :: builder.value.added[j].number == added[j]
      {
        var f := AddFile(added[k]);
        chosen := chosen + [f];
      }
      ChosenIsHeld(i, dropped, added);
      SaveTo(chosen);
    }

    lemma ChosenIsHeld(i: nat, dropped: set<Meta>, numbers: seq<nat>)
      requires i < |versions| && versions[i].id == current && builder.Some?
      requires |builder.value.added| == |numbers| && forall j | 0 <= j < |numbers| :: builder.value.added[j].number == numbers[j]
      requires forall n | n in numbers :: n in owed || InCurrent(versions, current, n)
      ensures var chosen := Without(versions[i].files, dropped) + builder.value.added;
              && Expected(chosen, owed, versions, current)
              && (forall f | f in chosen :: f in Held())
              && forall n | n in numbers :: exists f :: f in chosen && f.number == n
    {
      hide Held, FilesOf, InCurrent;
      FilesAreHeld(i);
      var kept, extra := Without(versions[i].files, dropped), builder.value.added;
      forall f | f in kept ensures InCurrent(versions, current, f.number) {
        ListedInCurrent(versions, i, current, f);
      }
      forall n | n in numbers ensures exists f :: f in kept + extra && f.number == n {
        var j :| 0 <= j < |numbers| && numbers[j] == n;
        assert extra[j] in kept + extra;
      }
    }

    lemma FilesAreHeld(i: nat)
      requires i < |versions|
      ensures forall f | f in versions[i].files :: f in Held()
      ensures builder.Some? ==> forall f | f in builder.value.added :: f in Held()
    {
      forall f | f in versions[i].files ensures f in Held() {
        HeldByVersion(versions, i, f);
      }
    }

    // DBImpl::CompactMemTable, for a table under number n unless the memtable was empty.  Its
    // number is no pending output any more when the edit is made and logged; the table is
    // safe because no files are deleted until the edit is committed.
    method CompactMemTable(empty: bool, ok: bool, acts: seq<Act>, more: seq<Act>) returns (n: nat)
      requires Quiet()
      modifies this
      ensures Quiet() && pendingOutputs == old(pendingOutputs) && owed == old(owed) && mine == old(mine)
      ensures !empty && ok ==> InCurrent(versions, current, n) && n in tables
    {
      hide Ok, Stored, Quiet, InCurrent, Protected, InLive, FilesOf, OnDisk;
      QuietMeans();
      n := WriteLevel0Table(empty, acts);
      LogAndApply(if empty then [] else [n], {}, ok, more);
      Settle({n});
      OwedIsProtected();
      if ok {
        DeleteObsoleteFiles();
        OwedIsProtected();
        if !empty {
          CurrentIsOnDisk(n);
        }
      } else {
        RecordBackgroundError();
      }
      QuietMeans();
    }

    lemma CurrentIsOnDisk(n: nat)
      requires Stored() && InCurrent(versions, current, n)
      ensures n in tables
    {
      hide FilesOf;
      InCurrentIsLive(versions, current, n);
    }

    // The base version is held while the table is written.
    method WriteLevel0Table(empty: bool, acts: seq<Act>) returns (n: nat)
      requires Ok() && Stored() && builder.None? && draft.None?
      modifies this`nextFile, this`versions, this`readers, this`mine, this`refs, this`pendingOutputs, this`tables, this`owed
      ensures Ok() && Stored() && n !in old(owed) && n !in old(pendingOutputs)
      ensures pendingOutputs == old(pendingOutputs) && mine == old(mine)
      ensures owed == old(owed) + (if empty then {} else {n}) && old(tables) <= tables
    {
      hide Stored, Ok, Quiet, Listed, InCurrent;
      n := NewFileNumber();
      var base := TakeCurrent();
      BuildTable(n, empty, acts);
      LetGo(base);
    }

    method BuildTable(n: nat, empty: bool, acts: seq<Act>)
      requires Ok() && Stored() && n < nextFile && n !in pendingOutputs
      modifies this`versions, this`readers, this`mine, this`refs, this`pendingOutputs, this`tables, this`owed
      ensures Ok() && Stored() && pendingOutputs == old(pendingOutputs) && mine == old(mine)
      ensures owed == old(owed) + (if empty then {} else {n}) && old(tables) <= tables
    {
      hide Stored, Ok, Quiet, Listed;
      StartOutput(n);
      Others(acts);
      if !empty {
        WriteTable(n);
      }
      FinishOutput(n);
    }

    // The background job takes the current version.
    method TakeCurrent() returns (id: nat)
      requires Ok()
      modifies this`versions, this`readers, this`mine
      ensures Ok() && (old(Stored()) ==> Stored())
      ensures readers == old(readers) && mine == old(mine) + multiset{id}
    {
      hide Ok, Stored;
      HeldIsListed(current);
      id := current;
      var i := IndexOf(id);
      Ref(i, false);
    }

    method LetGo(id: nat)
      requires Ok() && id in mine
      modifies this`versions, this`readers, this`mine, this`refs
      ensures Ok() && (old(Stored()) ==> Stored())
      ensures readers == old(readers) && mine == old(mine) - multiset{id}
      ensures forall n | old(InCurrent(versions, current, n)) :: InCurrent(versions, current, n)
    {
      hide Ok, Stored, InCurrent;
      HeldIsListed(id);
      var i := IndexOf(id);
      Unref(i, false);
    }

    // A compaction: its outputs stay pending until it is over, its input version is held, and
    // memtables, empty or not, may be written out in between, with or without success.
    method DoCompactionWork(count: nat, flushes: seq<seq<Flushing>>, dropped: set<Meta>, ok: bool, acts: seq<Act>)
      returns (outputs: seq<nat>)
      requires Quiet() && pendingOutputs == {} && mine == multiset{}
      modifies this
      ensures Quiet() && pendingOutputs == {} && mine == multiset{} && |outputs| == count
      ensures ok ==> forall n | n in outputs :: InCurrent(versions, current, n) && n in tables
    {
      hide Ok, Stored, Quiet, InCurrent, Protected, InLive, FilesOf, OnDisk;
      QuietMeans();
      var input := TakeCurrent();
      outputs := WriteOutputs(count, flushes, acts);
      LogAndApply(outputs, dropped, ok, acts);
      Settle(owed);
      if !ok {
        RecordBackgroundError();
      }
      EndCompaction(outputs, input);
      QuietMeans();
      forall n | ok && n in outputs ensures InCurrent(versions, current, n) && n in tables {
        CurrentIsOnDisk(n);
      }
    }

    method EndCompaction(outputs: seq<nat>, input: nat)
      requires Ok() && Stored() && builder.None? && draft.None? && owed == {} && mine == multiset{input}
      requires pendingOutputs == set n | n in outputs
      modifies this`pendingOutputs, this`versions, this`readers, this`mine, this`refs, this`tables
      ensures Quiet() && pendingOutputs == {} && mine == multiset{}
      ensures forall n | old(InCurrent(versions, current, n)) :: InCurrent(versions, current, n)
    {
      hide Ok, Stored, Quiet, InCurrent, Protected, InLive, FilesOf, OnDisk;
      CleanupCompaction(outputs);
      LetGo(input);
      DeleteObsoleteFiles();
      OwedIsProtected();
      QuietMeans();
    }

    method WriteOutputs(count: nat, flushes: seq<seq<Flushing>>, acts: seq<Act>) returns (outputs: seq<nat>)
      requires Ok() && Stored() && builder.None? && draft.None? && owed == pendingOutputs == {}
      modifies this
      ensures Ok() && Stored() && builder.None? && draft.None? && mine == old(mine) && |outputs| == count
      ensures pendingOutputs == owed == set n | n in outputs
    {
      hide Ok, Stored, Quiet, InCurrent;
      outputs := [];
      while |outputs| < count
        invariant Ok() && Stored() && builder.None? && draft.None? && mine == old(mine) && |outputs| <= count
        invariant pendingOutputs == owed == set n | n in outputs
      {
        FlushAll(FlushesAt(flushes, 2 * |outputs|), acts);
        var n := WriteOutput(FlushesAt(flushes, 2 * |outputs| + 1), acts);
        outputs := outputs + [n];
      }
      FlushAll(FlushesAt(flushes, 2 * count), acts);
    }

    // Memtables that fill up while the compaction is at work.
    method FlushAll(flushes: seq<Flushing>, acts: seq<Act>)
      requires Ok() && Stored() && builder.None? && draft.None? && owed <= pendingOutputs
      modifies this
      ensures Ok() && Stored() && builder.None? && draft.None? && mine == old(mine)
      ensures pendingOutputs == old(pendingOutputs) && owed == old(owed)
    {
      hide Ok, Stored, Quiet, InCurrent;
      for k := 0 to |flushes|
        invariant Ok() && Stored() && builder.None? && draft.None? && mine == old(mine)
        invariant pendingOutputs == old(pendingOutputs) && owed == old(owed)
      {
        QuietMeans();
        var _ := CompactMemTable(flushes[k].empty, flushes[k].ok, acts, acts);
        QuietMeans();
      }
    }

    method WriteOutput(flushes: seq<Flushing>, acts: seq<Act>) returns (n: nat)
      requires Ok() && Stored() && builder.None? && draft.None? && owed <= pendingOutputs
      modifies this
      ensures Ok() && Stored() && builder.None? && draft.None? && mine == old(mine)
      ensures pendingOutputs == old(pendingOutputs) + {n} && owed == old(owed) + {n}
    {
      hide Ok, Stored;
      n := NewFileNumber();
      StartOutput(n);
      Others(acts);
      FlushAll(flushes, acts);
      WriteTable(n);
    }

    method CleanupCompaction(outputs: seq<nat>)
      requires Ok() && Stored()
      modifies this`pendingOutputs
      ensures Ok() && Stored() && pendingOutputs == old(pendingOutputs) - set n | n in outputs
    {
      hide Ok, Stored;
      for k := 0 to |outputs|
        invariant Ok() && Stored() && pendingOutputs == old(pendingOutputs) - set n | n in outputs[..k]
      {
        FinishOutput(outputs[k]);
      }
    }

    // A file that is moved down keeps its number.
    method MoveFile(f: Meta, ok: bool, acts: seq<Act>)
      requires Quiet() && InCurrent(versions, current, f.number)
      modifies this
      ensures Quiet() && (ok ==> InCurrent(versions, current, f.number)) && tables == old(tables)
    {
      hide Counts, VersionsOk, FilesOf, OnDisk, Expected;
      LogAndApply([f.number], {f}, ok, acts);
      if !ok {
        RecordBackgroundError();
      }
    }

    // DB::Open: the manifest's files in one version, the logs' tables in the next.
    method Open(listed: seq<nat>, gone: set<nat>, logs: nat, ok: bool) returns (done: bool)
      requires Quiet() && owed == pendingOutputs == {} && mine == multiset{}
      modifies this
      ensures done ==> Quiet() && owed == pendingOutputs == {}
      ensures done ==> ok && forall k | 0 <= k < |listed| && k !in gone :: listed[k] in old(tables)
      ensures !done ==> Ok() && builder.None? && draft.None? && old(tables) <= tables
    {
      hide Ok, Stored, Quiet, InCurrent, Protected;
      QuietMeans();
      done := RecoverFiles(listed, gone);
      if !done {
        return;
      }
      var added := RecoverLogs(logs);
      LogAndApply(added, {}, ok, []);
      Settle(owed);
      OwedIsProtected();
      if ok {
        DeleteObsoleteFiles();
        OwedIsProtected();
      }
      QuietMeans();
      done := ok;
    }

    // Each log's writes go to a table; none is deleted before all are listed.
    method RecoverLogs(logs: nat) returns (added: seq<nat>)
      requires Ok() && Stored() && builder.None? && draft.None? && owed == {}
      modifies this`nextFile, this`versions, this`readers, this`mine, this`refs, this`pendingOutputs, this`tables, this`owed
      ensures Ok() && Stored() && pendingOutputs == old(pendingOutputs) && mine == old(mine)
      ensures owed == (set n | n in added) && old(tables) <= tables
    {
      hide Ok, Stored;
      added := [];
      for k := 0 to logs
        invariant Ok() && Stored() && pendingOutputs == old(pendingOutputs) && mine == old(mine)
        invariant owed == (set n | n in added) && old(tables) <= tables
      {
        var n := WriteLevel0Table(false, []);
        added := added + [n];
      }
    }

    // False when a table the manifest lists is missing.
    method RecoverFiles(listed: seq<nat>, gone: set<nat>) returns (found: bool)
      requires Ok() && builder.None? && draft.None? && owed == {}
      modifies this`refs, this`versions, this`current, this`builder, this`draft, this`nextRecord, this`nextVersion
      ensures Ok() && builder.None? && draft.None? && (found ==> Stored())
      ensures found ==> forall k | 0 <= k < |listed| && k !in gone :: listed[k] in tables
    {
      hide Ok, Counts, VersionsOk, FilesOf, Expected;
      RecoverVersion(listed, gone);
      var live := AddLiveFiles({});
      found := live <= tables;
      if found {
        forall m | m in FilesOf(versions) ensures m.number in tables {
          assert InLive(versions, m.number);
        }
        forall k | 0 <= k < |listed| && k !in gone ensures listed[k] in tables {
          InCurrentIsLive(versions, current, listed[k]);
        }
      }
    }

    // VersionSet::Recover: every file any edit added gets a record; those not deleted again
    // are in the version, which is appended while the builder still holds its base.
    method RecoverVersion(listed: seq<nat>, gone: set<nat>)
      requires Ok() && builder.None? && draft.None?
      modifies this`refs, this`versions, this`current, this`builder, this`draft, this`nextRecord, this`nextVersion
      ensures Ok() && builder.None? && draft.None?
      ensures forall k | 0 <= k < |listed| && k !in gone :: InCurrent(versions, current, listed[k])
    {
      hide Ok, Stored, Counts, VersionsOk, FilesOf, OnDisk, Expected;
      BeginBuilder();
      var chosen: seq<Meta> := [];
      for k := 0 to |listed|
        invariant Ok() && builder.Some? && draft.None?
        invariant forall f | f in chosen :: f in builder.value.added
        invariant forall j | 0 <= j < k && j !in gone :: exists f :: f in chosen && f.number == listed[j]
      {
        var f := AddFile(listed[k]);
        if k !in gone {
          chosen := chosen + [f];
        }
      }
      HeldIsListed(current);
      FilesAreHeld(0);
      SaveTo(chosen);
      AppendVersion();
      ghost var now := versions;
      EndBuilder();
    }
  }

  // The memtables flushed before output i/2, or while it is open, and behind the last one.
  function FlushesAt(flushes: seq<seq<Flushing>>, i: nat): seq<Flushing> {
    if i < |flushes| then flushes[i] else []
  }

  function Without(files: seq<Meta>, dropped: set<Meta>): (r: seq<Meta>)
    ensures forall f :: f in r <==> f in files && f !in dropped
  {
    if files == [] then []
    else Without(files[..|files| - 1], dropped)
         + if files[|files| - 1] in dropped then [] else [files[|files| - 1]]
  }

  lemma OneLess(a: multiset<nat>, b: multiset<nat>, x: nat)
    ensures x in a ==> a - multiset{x} + b == a + b - multiset{x} && b + (a - multiset{x}) == b + a - multiset{x}
  {
  }

  lemma ReaderGone(vs: seq<Version>, current: nat, base: Option<nat>, readers: multiset<nat>, i: nat)
    requires VersionsOk(vs, current, base, readers, None) && i < |vs| && vs[i].id in readers
    ensures vs[i].refs > 0
    ensures VersionsOk(vs, current, base, readers - multiset{vs[i].id}, Some(vs[i].id))
  {
    var rest := readers - multiset{vs[i].id};
    forall id ensures Holders(current, base, readers, id)
                      == Holders(current, base, rest, id) + if id == vs[i].id then 1 else 0 {
    }
  }

  lemma BaseKeeps(vs: seq<Version>, current: nat, readers: multiset<nat>, i: nat)
    requires VersionsOk(vs, current, None, readers, None) && i < |vs| && vs[i].id == current
    ensures VersionsOk(vs[i := vs[i].(refs := vs[i].refs + 1)], current, Some(current), readers, None)
  {
    var ws := vs[i := vs[i].(refs := vs[i].refs + 1)];
    forall id | Listed(vs, id) ensures Listed(ws, id) {
      var j :| 0 <= j < |vs| && vs[j].id == id;
      assert ws[j].id == id;
    }
  }

  lemma BaseGone(vs: seq<Version>, current: nat, base: nat, readers: multiset<nat>, i: nat)
    requires VersionsOk(vs, current, Some(base), readers, None) && i < |vs| && vs[i].id == base
    ensures VersionsOk(vs, current, None, readers, Some(base)) && vs[i].refs > 0
  {
    forall id | Holders(current, None, readers, id) > 0 ensures Listed(vs, id) {
      assert Holders(current, Some(base), readers, id) > 0;
    }
  }

  lemma NewCurrent(vs: seq<Version>, current: nat, base: Option<nat>, readers: multiset<nat>, id: nat, files: seq<Meta>)
    requires VersionsOk(vs, current, base, readers, None) && forall i | 0 <= i < |vs| :: vs[i].id < id
    ensures VersionsOk(vs + [Version(id, 1, files)], id, base, readers, Some(current))
    ensures forall i | 0 <= i < |vs| :: vs[i].refs > 0
  {
    var ws := vs + [Version(id, 1, files)];
    assert !Listed(vs, id) && Holders(current, base, readers, id) == 0;
    assert ws[|vs|].id == id;
    forall x | Listed(vs, x) ensures Listed(ws, x) {
      var j :| 0 <= j < |vs| && vs[j].id == x;
      assert ws[j].id == x;
    }
    forall x | Holders(id, base, readers, x) > 0 ensures Listed(ws, x) {
      if x != id {
        assert Holders(current, base, readers, x) > 0;
      }
    }
  }

  lemma AppendedFiles(vs: seq<Version>, v: Version)
    ensures FilesOf(vs + [v]) == FilesOf(vs) + multiset(v.files)
  {
    assert (vs + [v])[..|vs|] == vs;
  }

  lemma LiveAfter(vs: seq<Version>, i: nat, pending: set<nat>, before: set<nat>, live: set<nat>)
    requires i < |vs|
    requires forall n :: n in before <==> n in pending || InLive(vs[..i], n)
    requires forall n :: n in live <==> n in before || exists j :: 0 <= j < |vs[i].files| && vs[i].files[j].number == n
    ensures forall n :: n in live <==> n in pending || InLive(vs[..i + 1], n)
  {
    var files := vs[i].files;
    assert vs[..i + 1][..i] == vs[..i];
    assert FilesOf(vs[..i + 1]) == FilesOf(vs[..i]) + multiset(files);
    forall n ensures n in live <==> n in pending || InLive(vs[..i + 1], n) {
      if m :| m in FilesOf(vs[..i + 1]) && m.number == n {
        if m !in FilesOf(vs[..i]) {
          assert m in multiset(files);
          var j :| 0 <= j < |files| && files[j] == m;
        }
      }
      if j :| 0 <= j < |files| && files[j].number == n {
        assert files[j] in multiset(files);
        assert files[j] in FilesOf(vs[..i + 1]);
      }
    }
  }

  lemma NewOnDisk(vs: seq<Version>, current: nat, files: seq<Meta>, owed: set<nat>, tables: set<nat>)
    requires OnDisk(FilesOf(vs), tables) && owed <= tables && Expected(files, owed, vs, current)
    ensures OnDisk(FilesOf(vs) + multiset(files), tables)
  {
    forall m | m in files ensures m.number in tables {
      if m.number !in owed {
        InCurrentIsLive(vs, current, m.number);
      }
    }
  }

  lemma NewIsCurrent(appended: seq<Version>, vs: seq<Version>, was: seq<Version>, i: nat, current: nat, files: seq<Meta>)
    requires i < |was| && |appended| == |was| + 1 && appended[|was|].id == current && appended[|was|].files == files
    requires appended[i].refs > 0 && vs == Released(appended, i)
    ensures forall f | f in files :: InCurrent(vs, current, f.number)
  {
    forall f | f in files ensures InCurrent(vs, current, f.number) {
      var j := if appended[i].refs == 1 then |was| - 1 else |was|;
      assert vs[j].id == current && f in vs[j].files;
    }
  }

  lemma IdsReleased(was: seq<Version>, i: nat, next: nat)
    requires i < |was| && was[i].refs > 0 && forall k | 0 <= k < |was| :: was[k].id < next
    ensures forall k | 0 <= k < |Released(was, i)| :: Released(was, i)[k].id < next
  {
  }

  // f->refs--, and delete f at zero.
  function Dropped(refs: map<Meta, nat>, f: Meta): map<Meta, nat>
  {
    if Count(refs, f) <= 1 then refs - {f} else refs[f := refs[f] - 1]
  }

  lemma DropOne(refs: map<Meta, nat>, f: Meta, left: multiset<Meta>)
    requires Counts(refs, left + multiset{f})
    ensures f in refs && Counts(Dropped(refs, f), left)
  {
    assert Count(refs, f) == (left + multiset{f})[f] == left[f] + 1;
    forall m ensures Count(Dropped(refs, f), m) == left[m] {
      assert Count(refs, m) == (left + multiset{f})[m];
    }
  }

  lemma AddOne(refs: map<Meta, nat>, f: Meta, held: multiset<Meta>)
    requires Counts(refs, held)
    ensures Counts(refs[f := Count(refs, f) + 1], held + multiset{f})
  {
  }
}
