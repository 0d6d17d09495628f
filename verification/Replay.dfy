/**
 Crash recovery from the bytes of the write-ahead log and of the manifest: log format, write
 batches, version edits and the builder put together (db/db_impl, db/version_set).
 */
module Replays {
  import opened Coding
  import Log
  import B = WriteBatches
  import Q = WriteQueues
  import V = VersionEdits
  import Levels
  import Builders

  // ---------- the write-ahead log

  function OpsOf(record: Bytes): seq<B.BatchOp> {
    if |record| < B.HEADER then [] else B.GoodOps(record[B.HEADER..])
  }

  predicate IsBatch(record: Bytes) {
    B.Whole(record)
  }

  lemma BatchHolds(record: Bytes)
    ensures IsBatch(record) <==> B.Holds(record, OpsOf(record))
    ensures IsBatch(record) ==> B.CountOf(record) == |OpsOf(record)|
  {
    hide B.Clean, B.GoodOps, B.CountOf, B.Records;
    B.HoldsIff(record, OpsOf(record));
  }

  function AllOps(records: seq<Bytes>): seq<B.BatchOp> {
    if records == [] then [] else AllOps(records[..|records| - 1]) + OpsOf(records[|records| - 1])
  }

  // Batches written one after another: each starts with the number after the last one's.
  ghost predicate Consecutive(records: seq<Bytes>, first: nat) {
    forall i | 0 <= i < |records| ::
      IsBatch(records[i]) && B.SequenceOf(records[i]) == first + |AllOps(records[..i])|
  }

  // What recovery inserts for one record; one too small for a header is passed over.
  function ReplayedRecord(record: Bytes): seq<(nat, B.BatchOp)> {
    if |record| < B.HEADER then [] else B.Numbered(OpsOf(record), B.SequenceOf(record))
  }

  function Replayed(records: seq<Bytes>): seq<(nat, B.BatchOp)> {
    if records == [] then [] else ReplayedRecord(records[0]) + Replayed(records[1..])
  }

  // The largest sequence number seen.
  function MaxSequence(records: seq<Bytes>, start: int): int {
    if records == [] then start
    else
      var r := records[0];
      var last := if |r| < B.HEADER then start else B.SequenceOf(r) + B.CountOf(r) - 1;
      MaxSequence(records[1..], if last > start then last else start)
  }

  lemma {:induction false} ReplayedSnoc(records: seq<Bytes>, r: Bytes)
    ensures Replayed(records + [r]) == Replayed(records) + ReplayedRecord(r)
  {
    hide ReplayedRecord;
    if records == [] {
      assert [r][1..] == [] && records + [r] == [r];
    } else {
      ReplayedSnoc(records[1..], r);
      var rest := records[1..];
      assert (records + [r])[1..] == rest + [r];
      assert ReplayedRecord(records[0]) + (Replayed(rest) + ReplayedRecord(r)) == ReplayedRecord(records[0]) + Replayed(rest) + ReplayedRecord(r);
    }
  }

  lemma ReplaysItsOwn(records: seq<Bytes>, first: nat, i: nat)
    requires Consecutive(records, first) && i < |records|
    ensures ReplayedRecord(records[i]) == B.Numbered(OpsOf(records[i]), first + |AllOps(records[..i])|)
  {
    hide B.Clean, B.GoodOps, OpsOf, B.SequenceOf, B.CountOf, B.Numbered, AllOps;
    assert IsBatch(records[i]) && |records[i]| >= B.HEADER;
  }

  lemma {:induction false} ReplayedIsNumbered(records: seq<Bytes>, first: nat, k: nat)
    requires Consecutive(records, first) && k <= |records|
    ensures Replayed(records[..k]) == B.Numbered(AllOps(records[..k]), first)
  {
    hide Consecutive, OpsOf, ReplayedRecord, B.Numbered;
    if k == 0 {
      assert records[..0] == [];
      assert B.Numbered([], first) == [];
    } else {
      ReplayedIsNumbered(records, first, k - 1);
      ReplaysItsOwn(records, first, k - 1);
      assert records[..k] == records[..k - 1] + [records[k - 1]];
      assert records[..k][..k - 1] == records[..k - 1];
      ReplayedSnoc(records[..k - 1], records[k - 1]);
      Q.NumberedSplits(AllOps(records[..k - 1]), OpsOf(records[k - 1]), first);
    }
  }

  lemma {:induction false} MaxSequenceSnoc(records: seq<Bytes>, r: Bytes, start: int)
    ensures var m := MaxSequence(records, start);
            var last := if |r| < B.HEADER then m else B.SequenceOf(r) + B.CountOf(r) - 1;
            MaxSequence(records + [r], start) == if last > m then last else m
    decreases |records|
  {
    hide B.SequenceOf, B.CountOf;
    if records == [] {
      assert [r][1..] == [] && records + [r] == [r];
    } else {
      var s := records[0];
      var last := if |s| < B.HEADER then start else B.SequenceOf(s) + B.CountOf(s) - 1;
      MaxSequenceSnoc(records[1..], r, if last > start then last else start);
      assert (records + [r])[1..] == records[1..] + [r];
    }
  }

  lemma EndsAt(records: seq<Bytes>, first: nat, i: nat)
    requires Consecutive(records, first) && i < |records|
    ensures |records[i]| >= B.HEADER
    ensures B.SequenceOf(records[i]) + B.CountOf(records[i]) == first + |AllOps(records[..i])| + |OpsOf(records[i])|
  {
    hide B.Clean, B.GoodOps, B.SequenceOf, B.CountOf, AllOps;
    BatchHolds(records[i]);
  }

  lemma {:induction false} MaxIsLast(records: seq<Bytes>, first: nat, k: nat)
    requires Consecutive(records, first) && k <= |records| && first > 0
    ensures MaxSequence(records[..k], first - 1) == first + |AllOps(records[..k])| - 1
  {
    hide Consecutive, OpsOf, B.SequenceOf, B.CountOf;
    if k == 0 {
      assert records[..0] == [];
    } else {
      MaxIsLast(records, first, k - 1);
      EndsAt(records, first, k - 1);
      assert records[..k] == records[..k - 1] + [records[k - 1]];
      assert records[..k][..k - 1] == records[..k - 1];
      MaxSequenceSnoc(records[..k - 1], records[k - 1], first - 1);
    }
  }

  // However many bytes of a log survive a crash, replaying them inserts exactly the batches
  // wholly written, in order, each operation under the number it was given, and the sequence
  // number found is that of the last one.
  lemma TornLogReplays(crc: Log.Crc, records: seq<Bytes>, first: nat, n: nat, k: nat)
    requires Consecutive(records, first) && first > 0
    requires n <= |Log.Written(crc, records)| && Log.WhollyInside(crc, records, n, k)
    ensures var (survived, drops) := Log.ReadAll(crc, Log.Written(crc, records)[..n], 0);
            && drops == 0
            && Replayed(survived) == B.Numbered(AllOps(records[..k]), first) <= B.Numbered(AllOps(records), first)
            && MaxSequence(survived, first - 1) == first + |AllOps(records[..k])| - 1
  {
    hide Log.ReadAll, Log.Written, Consecutive, Replayed, MaxSequence, AllOps, B.Numbered;
    Log.PrefixReadsBack(crc, records, n, k);
    ReplayedIsNumbered(records, first, k);
    MaxIsLast(records, first, k);
    OpsPrefix(records, k);
    NumberedPrefix(AllOps(records[..k]), AllOps(records), first);
  }

  lemma NumberedPrefix(some: seq<B.BatchOp>, all: seq<B.BatchOp>, first: nat)
    requires some <= all
    ensures B.Numbered(some, first) <= B.Numbered(all, first)
  {
  }

  lemma {:induction false} OpsPrefix(records: seq<Bytes>, k: nat)
    requires k <= |records|
    ensures AllOps(records[..k]) <= AllOps(records)
    decreases |records|
  {
    if k == |records| {
      assert records[..k] == records;
    } else {
      var most := records[..|records| - 1];
      OpsPrefix(most, k);
      assert most[..k] == records[..k];
    }
  }

  // A reader at pos has read the records done and reported so many drops.
  ghost predicate Reading(crc: Log.Crc, file: Bytes, pos: nat, done: seq<Bytes>, drops: nat) {
    && pos <= |file|
    && done + Log.ReadAll(crc, file, pos).0 == Log.ReadAll(crc, file, 0).0
    && drops + Log.ReadAll(crc, file, pos).1 == Log.ReadAll(crc, file, 0).1
  }

  lemma ReadStarts(crc: Log.Crc, file: Bytes)
    ensures Reading(crc, file, 0, [], 0)
  {
    hide Log.ReadAll;
    var all := Log.ReadAll(crc, file, 0).0;
    assert [] + all == all;
  }

  lemma ReadStep(crc: Log.Crc, file: Bytes, pos: nat, done: seq<Bytes>, drops: nat)
    requires Reading(crc, file, pos, done, drops)
    ensures match Log.ReadLogical(crc, file, pos, false, [])
            case End(d) => Log.ReadAll(crc, file, 0) == (done, drops + d)
            case Found(r, next, d) =>
              && r in Log.ReadAll(crc, file, 0).0 && drops + d <= Log.ReadAll(crc, file, 0).1
              && Reading(crc, file, next, done + [r], drops + d)
  {
    hide Log.ReadLogical, Log.ReadAll;
    Log.ReadAllStep(crc, file, pos);
    var l, all := Log.ReadLogical(crc, file, pos, false, []), Log.ReadAll(crc, file, 0).0;
    if l.Found? {
      var rest := Log.ReadAll(crc, file, l.next).0;
      assert done + ([l.record] + rest) == done + [l.record] + rest == all;
      assert all[|done|] == l.record;
    } else {
      assert done + [] == done;
    }
  }

  lemma RecordReplayed(done: seq<Bytes>, r: Bytes, start: int)
    ensures Replayed(done + [r])
         == Replayed(done) + if |r| < B.HEADER then [] else B.Numbered(OpsOf(r), B.SequenceOf(r))
    ensures var m := MaxSequence(done, start);
            var last := if |r| < B.HEADER then m else B.SequenceOf(r) + B.CountOf(r) - 1;
            MaxSequence(done + [r], start) == if last > m then last else m
  {
    hide Replayed, MaxSequence, B.SequenceOf, B.CountOf, B.Numbered, OpsOf;
    ReplayedSnoc(done, r);
    MaxSequenceSnoc(done, r, start);
  }

  // DBImpl::RecoverLogFile's loop over the records of a log.  Unless paranoid, errors are passed
  // over; what comes before the first bad operation of a batch is inserted.
  method ReplayLog(reader: Log.Reader, start: int, paranoid: bool)
    returns (ok: bool, inserted: seq<(nat, B.BatchOp)>, max: int)
    requires reader.Valid() && reader.Pos() == 0
    modifies reader
    ensures var (records, drops) := Log.ReadAll(reader.crc, reader.file, 0);
            && (ok <==> !paranoid || (drops == 0 && forall r | r in records :: IsBatch(r)))
            && (ok ==> inserted == Replayed(records) && max == MaxSequence(records, start)
                       && reader.drops == old(reader.drops) + drops)
  {
    hide Log.ReadAll, Log.ReadLogical, Reading, B.SequenceOf, B.CountOf, B.Numbered, IsBatch;
    hide Replayed, MaxSequence, OpsOf, ReplayedRecord;
    ghost var done: seq<Bytes> := [];
    NothingReplayed(start);
    ReadStarts(reader.crc, reader.file);
    inserted, max := [], start;
    var before, bad := reader.drops, false;
    while true
      invariant reader.Valid() && reader.drops >= before
      invariant Reading(reader.crc, reader.file, reader.Pos(), done, reader.drops - before)
      invariant inserted == Replayed(done) && max == MaxSequence(done, start)
      invariant bad ==> exists r :: r in Log.ReadAll(reader.crc, reader.file, 0).0 && !IsBatch(r)
      invariant paranoid ==> reader.drops == before && (!bad ==> forall r | r in done :: IsBatch(r))
      decreases |reader.file| - reader.Pos()
    {
      ReadStep(reader.crc, reader.file, reader.Pos(), done, reader.drops - before);
      var record := reader.ReadRecord();
      if record.None? {
        break;
      }
      if paranoid && (bad || reader.drops != before) {
        return false, inserted, max;
      }
      var r := record.value;
      RecordReplayed(done, r, start);
      done := done + [r];
      if |r| < B.HEADER {
        SmallIsNone(r);
        bad := true;
      } else {
        var whole, ops, last := InsertRecord(r);
        if paranoid && !whole {
          return false, inserted + ops, max;
        }
        inserted := inserted + ops;
        max := if last > max then last else max;
        bad := bad || !whole;
      }
    }
    ok := !paranoid || (!bad && reader.drops == before);
  }

  lemma SmallIsNone(r: Bytes)
    requires |r| < B.HEADER
    ensures !IsBatch(r)
  {
  }

  // The operations of one record, and the number its header gives the last.
  method InsertRecord(r: Bytes) returns (whole: bool, inserted: seq<(nat, B.BatchOp)>, last: int)
    requires |r| >= B.HEADER
    ensures whole <==> IsBatch(r)
    ensures inserted == B.Numbered(OpsOf(r), B.SequenceOf(r))
    ensures last == B.SequenceOf(r) + B.CountOf(r) - 1
  {
    hide B.SequenceOf, B.CountOf, B.Numbered, B.GoodOps, B.Clean;
    var batch := new B.WriteBatch();
    batch.rep := r;
    whole, inserted := batch.InsertInto();
    last := B.SequenceOf(r) + B.CountOf(r) - 1;
  }

  lemma NothingReplayed(start: int)
    ensures Replayed([]) == [] && MaxSequence([], start) == start
  {
  }

  // ---------- the manifest

  // What the edits read so far add up to.
  datatype Summary = Summary(edits: seq<V.Edit>, logNumber: Option<nat>, prevLogNumber: Option<nat>,
                             nextFile: Option<nat>, lastSequence: Option<nat>)

  function Later(was: Option<nat>, now: Option<nat>): Option<nat> {
    if now.Some? then now else was
  }

  function WithEdit(s: Summary, e: V.Edit): Summary {
    Summary(s.edits + [e], Later(s.logNumber, e.logNumber), Later(s.prevLogNumber, e.prevLogNumber),
            Later(s.nextFile, e.nextFile), Later(s.lastSequence, e.lastSequence))
  }

  function Summarized(edits: seq<V.Edit>): Summary {
    if edits == [] then Summary([], None, None, None, None)
    else WithEdit(Summarized(edits[..|edits| - 1]), edits[|edits| - 1])
  }

  predicate Accepts(comparator: Bytes, e: V.Edit) {
    e.comparator.Some? ==> e.comparator.value == comparator
  }

  // The edits of the records; None when one is corrupt or names another comparator.
  function EditsOf(records: seq<Bytes>, comparator: Bytes): Option<seq<V.Edit>> {
    if records == [] then Some([])
    else WithRecord(EditsOf(records[..|records| - 1], comparator), records[|records| - 1], comparator)
  }

  function WithRecord(before: Option<seq<V.Edit>>, record: Bytes, comparator: Bytes): Option<seq<V.Edit>> {
    var decoded := V.Decode(record, V.EMPTY);
    if before.Some? && decoded.Some? && Accepts(comparator, decoded.value) then Some(before.value + [decoded.value])
    else None
  }

  function Encoded(edits: seq<V.Edit>): (records: seq<Bytes>)
    ensures |records| == |edits|
  {
    seq(|edits|, i requires 0 <= i < |edits| => V.BytesOf(V.RecordsOf(edits[i])))
  }

  lemma {:induction false} EditsReadBack(edits: seq<V.Edit>, comparator: Bytes)
    requires forall e | e in edits :: V.WellFormed(e) && Accepts(comparator, e)
    ensures EditsOf(Encoded(edits), comparator) == Some(edits)
  {
    hide V.WellFormed, V.Decode, V.BytesOf, V.RecordsOf;
    if edits != [] {
      var before, e := edits[..|edits| - 1], edits[|edits| - 1];
      assert e in edits && forall b | b in before :: b in edits;
      EditsReadBack(before, comparator);
      V.EditRoundTrip(e);
      assert Encoded(edits)[..|edits| - 1] == Encoded(before);
      assert before + [e] == edits;
    }
  }

  // All records must decode, and those that name a comparator the right one.
  lemma {:induction false} EditsIff(records: seq<Bytes>, comparator: Bytes, edits: seq<V.Edit>)
    ensures EditsOf(records, comparator) == Some(edits) <==>
            && |edits| == |records|
            && forall i | 0 <= i < |records| ::
                 && V.Decode(records[i], V.EMPTY) == Some(edits[i])
                 && (edits[i].comparator.Some? ==> edits[i].comparator.value == comparator)
    decreases |records|
  {
    hide V.Decode;
    if records != [] {
      var n := |records| - 1;
      var before := EditsOf(records[..n], comparator);
      if before.Some? {
        EditsIff(records[..n], comparator, before.value);
      }
      if edits != [] {
        EditsIff(records[..n], comparator, edits[..|edits| - 1]);
        assert edits == edits[..|edits| - 1] + [edits[|edits| - 1]];
      }
    }
  }

  // A record that is not accepted spoils every list that goes on after it.
  lemma {:induction false} EditsSpoiled(records: seq<Bytes>, more: seq<Bytes>, comparator: Bytes)
    requires EditsOf(records, comparator) == None
    ensures EditsOf(records + more, comparator) == None
    decreases |more|
  {
    if more == [] {
      assert records + more == records;
    } else {
      var all := records + more;
      EditsSpoiled(records, more[..|more| - 1], comparator);
      assert all[..|all| - 1] == records + more[..|more| - 1];
    }
  }

  lemma EditsSnoc(records: seq<Bytes>, r: Bytes, comparator: Bytes)
    ensures EditsOf(records + [r], comparator) == WithRecord(EditsOf(records, comparator), r, comparator)
  {
    assert (records + [r])[..|records|] == records;
  }

  // The prefix of the edits whose records are wholly in what survived of the manifest.
  lemma TornManifestReadsBack(crc: Log.Crc, edits: seq<V.Edit>, comparator: Bytes, n: nat, k: nat)
    requires forall e | e in edits :: V.WellFormed(e) && Accepts(comparator, e)
    requires n <= |Log.Written(crc, Encoded(edits))| && Log.WhollyInside(crc, Encoded(edits), n, k)
    ensures k <= |edits|
    ensures var (survived, drops) := Log.ReadAll(crc, Log.Written(crc, Encoded(edits))[..n], 0);
            drops == 0 && EditsOf(survived, comparator) == Some(edits[..k])
  {
    hide Log.ReadAll, Log.Written, EditsOf, V.WellFormed, V.BytesOf, V.RecordsOf;
    Log.PrefixReadsBack(crc, Encoded(edits), n, k);
    EditsReadBack(edits[..k], comparator);
    assert Encoded(edits)[..k] == Encoded(edits[..k]);
  }

  // An edit as LogAndApply completes it.
  predicate Complete(e: V.Edit) {
    e.logNumber.Some? && e.prevLogNumber.Some? && e.nextFile.Some? && e.lastSequence.Some?
  }

  // The record a new manifest of a running store starts with: the files, and no numbers.
  predicate IsSnapshot(e: V.Edit) {
    && e.comparator.Some? && e.deleted == []
    && e.logNumber.None? && e.prevLogNumber.None? && e.nextFile.None? && e.lastSequence.None?
  }

  // The one record of a new database's first manifest.
  predicate IsNewDb(e: V.Edit) {
    e.comparator.Some? && e == V.EMPTY.(comparator := e.comparator, logNumber := Some(0), nextFile := Some(2), lastSequence := Some(0))
  }

  // The manifests that are written.
  predicate IsManifest(edits: seq<V.Edit>) {
    && (edits != [] ==> IsSnapshot(edits[0]) || IsNewDb(edits[0]))
    && forall i | 1 <= i < |edits| :: Complete(edits[i])
  }

  lemma SummarizedLast(edits: seq<V.Edit>)
    requires edits != []
    ensures Summarized(edits) == WithEdit(Summarized(edits[..|edits| - 1]), edits[|edits| - 1])
  {
  }

  lemma {:induction false} SummarizesAll(edits: seq<V.Edit>)
    ensures Summarized(edits).edits == edits
  {
    hide Later;
    if edits != [] {
      var before, e := edits[..|edits| - 1], edits[|edits| - 1];
      SummarizesAll(before);
      SummarizedLast(edits);
      hide Summarized;
      assert before + [e] == edits;
    }
  }

  // The last edit decides every number; the first has some, or none.
  lemma ManifestDecides(edits: seq<V.Edit>)
    requires IsManifest(edits)
    ensures var s := Summarized(edits);
            && (HasAll(s) <==> |edits| >= 2 || (edits != [] && IsNewDb(edits[0])))
            && (HasAll(s) ==> var e := edits[|edits| - 1];
                  s == Summary(edits, e.logNumber, e.prevLogNumber, e.nextFile, e.lastSequence))
  {
    SummarizesAll(edits);
    if edits != [] {
      SummarizedLast(edits);
      if |edits| == 1 {
        assert edits[..0] == [];
        NothingRead([]);
      }
    }
  }

  // VersionSet::Recover: None when the manifest is corrupt, of another comparator, or says too
  // little.
  method RecoverManifest(reader: Log.Reader, comparator: Bytes) returns (r: Option<Summary>)
    requires reader.Valid() && reader.Pos() == 0
    modifies reader
    ensures var (records, drops) := Log.ReadAll(reader.crc, reader.file, 0);
            var edits := EditsOf(records, comparator);
            r == if drops == 0 && edits.Some? && HasAll(Summarized(edits.value)) then Some(Summarized(edits.value)) else None
  {
    hide Log.ReadAll, Log.ReadLogical, Reading, V.Decode, EditsOf, Summarized, HasAll;
    ghost var file := reader.file;
    ghost var done: seq<Bytes> := [];
    var before := reader.drops;
    var s := Summary([], None, None, None, None);
    NothingRead(comparator);
    ReadStarts(reader.crc, file);
    while true
      invariant reader.Valid() && reader.drops == before
      invariant Reading(reader.crc, file, reader.Pos(), done, 0)
      invariant EditsOf(done, comparator) == Some(s.edits) && s == Summarized(s.edits)
      decreases |file| - reader.Pos()
    {
      ReadStep(reader.crc, file, reader.Pos(), done, 0);
      var record := reader.ReadRecord();
      if reader.drops != before {
        return None;
      }
      if record.None? {
        break;
      }
      EditsSnoc(done, record.value, comparator);
      done := done + [record.value];
      var edit := ReadEdit(record.value, comparator);
      if edit.None? {
        Spoiled(reader.crc, file, reader.Pos(), done, comparator);
        return None;
      }
      SummarizedSnoc(s.edits, edit.value);
      s := WithEdit(s, edit.value);
    }
    r := if HasAll(s) then Some(s) else None;
  }

  // The edit of one record; None when it is corrupt or names another comparator.
  method ReadEdit(record: Bytes, comparator: Bytes) returns (r: Option<V.Edit>)
    ensures r == var e := V.Decode(record, V.EMPTY); if e.Some? && Accepts(comparator, e.value) then e else None
  {
    hide V.Decode;
    var edit := new V.VersionEdit();
    var ok := edit.DecodeFrom(record);
    r := if ok && Accepts(comparator, edit.edit) then Some(edit.edit) else None;
  }

  lemma Spoiled(crc: Log.Crc, file: Bytes, pos: nat, done: seq<Bytes>, comparator: Bytes)
    requires Reading(crc, file, pos, done, 0) && EditsOf(done, comparator) == None
    ensures EditsOf(Log.ReadAll(crc, file, 0).0, comparator) == None
  {
    hide Log.ReadAll, EditsOf;
    EditsSpoiled(done, Log.ReadAll(crc, file, pos).0, comparator);
  }

  predicate HasAll(s: Summary) {
    s.nextFile.Some? && s.logNumber.Some? && s.lastSequence.Some?
  }

  lemma NothingRead(comparator: Bytes)
    ensures EditsOf([], comparator) == Some([]) && Summarized([]) == Summary([], None, None, None, None)
  {
  }

  lemma SummarizedSnoc(edits: seq<V.Edit>, e: V.Edit)
    ensures Summarized(edits + [e]) == WithEdit(Summarized(edits), e)
  {
    assert (edits + [e])[..|edits|] == edits;
  }

  // ---------- the version the manifest leads to

  // What an edit does to a level, given the table behind each file number.
  ghost function LevelEditOf(e: V.Edit, level: nat, tables: nat -> Levels.Table): Builders.LevelEdit {
    Builders.LevelEdit(set d | d in e.deleted && d.0 == level :: d.1, TablesAt(e.added, level, tables))
  }

  function TablesAt(added: seq<(nat, V.FileMeta)>, level: nat, tables: nat -> Levels.Table): seq<Levels.Table> {
    if added == [] then []
    else
      var (l, f) := added[|added| - 1];
      TablesAt(added[..|added| - 1], level, tables) + if l == level then [tables(f.number)] else []
  }

  ghost function LevelEdits(edits: seq<V.Edit>, level: nat, tables: nat -> Levels.Table): (r: seq<Builders.LevelEdit>)
    ensures |r| == |edits|
  {
    seq(|edits|, i requires 0 <= i < |edits| => LevelEditOf(edits[i], level, tables))
  }

  // However many bytes of a manifest survive, recovery succeeds exactly when they hold the
  // record of a new database or one behind the snapshot, and leads to the files and the
  // numbers that the last edit wholly written had led to.
  lemma TornManifestRestores(crc: Log.Crc, edits: seq<V.Edit>, comparator: Bytes, n: nat, k: nat,
                             level: nat, tables: nat -> Levels.Table)
    requires IsManifest(edits) && forall e | e in edits :: V.WellFormed(e) && Accepts(comparator, e)
    requires n <= |Log.Written(crc, Encoded(edits))| && Log.WhollyInside(crc, Encoded(edits), n, k)
    requires Builders.AddedOnce({}, LevelEdits(edits, level, tables))
    ensures k <= |edits|
    ensures var (survived, drops) := Log.ReadAll(crc, Log.Written(crc, Encoded(edits))[..n], 0);
            && drops == 0 && EditsOf(survived, comparator).Some?
            && var read := EditsOf(survived, comparator).value;
            var s := Summarized(read);
            && (HasAll(s) <==> k >= 2 || (k == 1 && IsNewDb(edits[0])))
            && (HasAll(s) ==> var e := edits[k - 1];
                  && s.logNumber == e.logNumber && s.prevLogNumber == e.prevLogNumber
                  && s.nextFile == e.nextFile && s.lastSequence == e.lastSequence)
            && Builders.SavedOnce({}, LevelEdits(read, level, tables))
               == Builders.SavedEach({}, LevelEdits(edits, level, tables)[..k])
  {
    hide Log.ReadAll, Log.Written, EditsOf, Summarized, V.WellFormed, V.BytesOf, V.RecordsOf, LevelEditOf;
    hide Builders.SavedOnce, Builders.SavedEach, IsNewDb, IsSnapshot, Complete;
    TornManifestReadsBack(crc, edits, comparator, n, k);
    assert forall i | 0 <= i < k :: edits[..k][i] == edits[i];
    ManifestDecides(edits[..k]);
    var some := LevelEdits(edits, level, tables)[..k];
    assert LevelEdits(edits[..k], level, tables) == some;
    Builders.SavedOnceIsSavedEach({}, some);
  }
}
