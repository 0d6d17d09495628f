/**
 Write batches (db/write_batch): a 12-byte header holding a sequence number and a count,
 then one record for each put or delete.
 */
module WriteBatches {
  import opened Coding

  const HEADER: nat := 12
  const TAG_DELETION: Byte := 0
  const TAG_VALUE: Byte := 1

  datatype BatchOp = PutOp(key: Bytes, value: Bytes) | DeleteOp(key: Bytes)

  // ---------- records

  // One record and what follows it.
  function ReadRecord(b: Bytes): (r: Parsed<BatchOp>)
    ensures r.Parsed? ==> |r.rest| < |b|
  {
    if b == [] then Failed
    else
      match GetLengthPrefixed(b[1..])
      case Failed => Failed
      case Parsed(key, rest) =>
        if b[0] == TAG_DELETION then Parsed(DeleteOp(key), rest)
        else if b[0] != TAG_VALUE then Failed
        else
          match GetLengthPrefixed(rest)
          case Failed => Failed
          case Parsed(value, after) => Parsed(PutOp(key, value), after)
  }

  // The records of a batch; None when one is bad.
  function Records(b: Bytes): Option<seq<BatchOp>> {
    if b == [] then Some([])
    else
      match ReadRecord(b)
      case Failed => None
      case Parsed(op, rest) =>
        match Records(rest)
        case None => None
        case Some(ops) => Some([op] + ops)
  }

  function RecordBytes(op: BatchOp): Bytes {
    match op
    case PutOp(key, value) => [TAG_VALUE] + LengthPrefixed(key) + LengthPrefixed(value)
    case DeleteOp(key) => [TAG_DELETION] + LengthPrefixed(key)
  }

  predicate Storable(op: BatchOp) {
    |op.key| < TWO32 && (op.PutOp? ==> |op.value| < TWO32)
  }

  lemma ReadsRecord(op: BatchOp, rest: Bytes)
    requires Storable(op)
    ensures ReadRecord(RecordBytes(op) + rest) == Parsed(op, rest)
  {
    hide GetLengthPrefixed, LengthPrefixed;
    var b := RecordBytes(op) + rest;
    match op
    case PutOp(key, value) =>
      assert b[1..] == LengthPrefixed(key) + (LengthPrefixed(value) + rest);
      LengthPrefixedRoundTrip(key, LengthPrefixed(value) + rest);
      LengthPrefixedRoundTrip(value, rest);
    case DeleteOp(key) =>
      assert b[1..] == LengthPrefixed(key) + rest;
      LengthPrefixedRoundTrip(key, rest);
  }

  // What was read stays read when more follows.
  lemma {:induction false} VarintExtends(b: Bytes, more: Bytes, limit: nat)
    requires ReadVarint(b, limit).Parsed?
    ensures ReadVarint(b + more, limit) == ReadVarint(b, limit).(rest := ReadVarint(b, limit).rest + more)
  {
    assert (b + more)[1..] == b[1..] + more;
    if b[0] >= 128 {
      VarintExtends(b[1..], more, limit - 1);
    }
  }

  lemma SliceExtends(b: Bytes, more: Bytes)
    requires GetLengthPrefixed(b).Parsed?
    ensures var r := GetLengthPrefixed(b); GetLengthPrefixed(b + more) == Parsed(r.value, r.rest + more)
  {
    hide ReadVarint;
    VarintExtends(b, more, 5);
    var r := GetVarint32(b);
    assert (r.rest + more)[..r.value] == r.rest[..r.value];
    assert (r.rest + more)[r.value..] == r.rest[r.value..] + more;
  }

  lemma RecordExtends(b: Bytes, more: Bytes)
    requires ReadRecord(b).Parsed?
    ensures var r := ReadRecord(b); ReadRecord(b + more) == Parsed(r.value, r.rest + more)
  {
    hide GetLengthPrefixed;
    assert (b + more)[1..] == b[1..] + more;
    SliceExtends(b[1..], more);
    if b[0] == TAG_VALUE {
      SliceExtends(GetLengthPrefixed(b[1..]).rest, more);
    }
  }

  // Iterating two record lists one after the other is iterating both.
  lemma {:induction false} RecordsAppend(a: Bytes, b: Bytes)
    requires Records(a).Some?
    ensures Records(a + b) == if Records(b).Some? then Some(Records(a).value + Records(b).value) else None
    decreases |a|
  {
    hide ReadRecord;
    if a == [] {
      assert a + b == b;
      var none: seq<BatchOp> := [];
      assert Records(b).Some? ==> none + Records(b).value == Records(b).value;
    } else {
      RecordExtends(a, b);
      var r := ReadRecord(a);
      RecordsAppend(r.rest, b);
      if Records(b).Some? {
        assert Records(a).value + Records(b).value == [r.value] + (Records(r.rest).value + Records(b).value);
      }
    }
  }

  // ---------- records of any origin

  // One operation behind its tag.
  predicate IsRecord(x: Bytes, op: BatchOp) {
    match op
    case DeleteOp(key) => x != [] && x[0] == 0 && IsSlice(x[1..], key)
    case PutOp(key, value) =>
      x != [] && x[0] == 1 && exists m: nat :: 1 <= m <= |x| && IsSlice(x[1..m], key) && IsSlice(x[m..], value)
  }

  // The bytes are these operations, one behind the other.
  ghost predicate Lists(b: Bytes, ops: seq<BatchOp>)
    decreases |ops|
  {
    if ops == [] then b == []
    else exists n: nat :: 0 < n <= |b| && IsRecord(b[..n], ops[0]) && Lists(b[n..], ops[1..])
  }

  lemma ReadsAnyRecord(x: Bytes, op: BatchOp, rest: Bytes)
    requires IsRecord(x, op)
    ensures ReadRecord(x + rest) == Parsed(op, rest)
  {
    hide GetLengthPrefixed, IsSlice;
    var b := x + rest;
    match op
    case DeleteOp(key) =>
      ReadsSlice(x[1..], key, rest);
      assert b[1..] == x[1..] + rest;
    case PutOp(key, value) =>
      var m: nat :| 1 <= m <= |x| && IsSlice(x[1..m], key) && IsSlice(x[m..], value);
      ReadsSlice(x[1..m], key, x[m..] + rest);
      ReadsSlice(x[m..], value, rest);
      assert b[1..] == x[1..m] + (x[m..] + rest);
  }

  lemma RecordWasThere(b: Bytes) returns (n: nat)
    ensures var r := ReadRecord(b); r.Parsed? ==> 0 < n <= |b| && IsRecord(b[..n], r.value) && b[n..] == r.rest
  {
    hide GetLengthPrefixed, IsSlice;
    n := 0;
    var r := ReadRecord(b);
    if r.Parsed? {
      var x := SliceWasThere(b[1..]);
      var after := GetLengthPrefixed(b[1..]).rest;
      n := 1 + |x|;
      assert b[1..n] == x && b[n..] == after;
      if b[0] == TAG_VALUE {
        var y := SliceWasThere(after);
        var m := n;
        n := n + |y|;
        assert b[m..n] == y && b[n..] == r.rest;
        assert b[..n][1..m] == x && b[..n][m..] == y;
      } else {
        assert b[..n][1..] == x;
      }
    }
  }

  // Records are read if and only if the bytes list them: no other tags, lengths or leftovers.
  lemma {:induction false} RecordsIff(b: Bytes, ops: seq<BatchOp>)
    ensures Records(b) == Some(ops) <==> Lists(b, ops)
    decreases |ops|
  {
    hide ReadRecord, IsRecord;
    if b != [] && ReadRecord(b).Parsed? && ops != [] {
      var n := RecordWasThere(b);
      RecordsIff(b[n..], ops[1..]);
    }
    if ops != [] {
      forall n: nat | 0 < n <= |b| && IsRecord(b[..n], ops[0]) && Lists(b[n..], ops[1..]) ensures Records(b) == Some(ops) {
        ReadsAnyRecord(b[..n], ops[0], b[n..]);
        assert b[..n] + b[n..] == b && [ops[0]] + ops[1..] == ops;
        RecordsIff(b[n..], ops[1..]);
      }
    }
  }

  // ---------- batches

  function CountOf(rep: Bytes): nat
    requires |rep| >= HEADER
  {
    DecodeFixed32(rep[8..])
  }

  function SequenceOf(rep: Bytes): nat
    requires |rep| >= HEADER
  {
    DecodeFixed64(rep)
  }

  // A batch whose records can be read and are as many as it says.
  ghost predicate Holds(rep: Bytes, ops: seq<BatchOp>) {
    && |rep| >= HEADER && Records(rep[HEADER..]) == Some(ops) && CountOf(rep) == |ops|
  }

  // The operations before the first bad record.
  function GoodOps(b: Bytes): seq<BatchOp> {
    if b == [] then []
    else
      match ReadRecord(b)
      case Failed => []
      case Parsed(op, rest) => [op] + GoodOps(rest)
  }

  // No record is bad.
  predicate Clean(b: Bytes) {
    if b == [] then true
    else
      match ReadRecord(b)
      case Failed => false
      case Parsed(_, rest) => Clean(rest)
  }

  predicate Whole(rep: Bytes) {
    |rep| >= HEADER && Clean(rep[HEADER..]) && |GoodOps(rep[HEADER..])| == CountOf(rep)
  }

  lemma {:induction false} CleanIsRecords(b: Bytes)
    ensures Records(b) == if Clean(b) then Some(GoodOps(b)) else None
    decreases |b|
  {
    hide ReadRecord;
    if b != [] && ReadRecord(b).Parsed? {
      CleanIsRecords(ReadRecord(b).rest);
    }
  }

  // A whole batch holds its operations.
  lemma HoldsIff(rep: Bytes, ops: seq<BatchOp>)
    ensures Holds(rep, ops) <==> Whole(rep) && ops == GoodOps(rep[HEADER..])
  {
    hide Records, Clean, GoodOps, CountOf;
    if |rep| >= HEADER {
      CleanIsRecords(rep[HEADER..]);
    }
  }

  class WriteBatch {
    var rep: Bytes

    constructor ()
      ensures Holds(rep, []) && rep == seq(HEADER, _ => 0)
    {
      rep := seq(HEADER, _ => 0);
      new;
      assert rep[HEADER..] == [];
    }

    method Clear()
      modifies this
      ensures Holds(rep, [])
    {
      rep := seq(HEADER, _ => 0);
      assert rep[HEADER..] == [];
    }

    method SetCount(n: U32)
      requires |rep| >= HEADER
      modifies this
      ensures |rep| == |old(rep)| && CountOf(rep) == n && rep[HEADER..] == old(rep)[HEADER..]
      ensures SequenceOf(rep) == SequenceOf(old(rep))
    {
      var tail := rep[HEADER..];
      Fixed32RoundTrip(n, tail);
      ghost var was := rep;
      rep := rep[..8] + Fixed32(n) + tail;
      assert rep[8..] == Fixed32(n) + tail;
    }

    method SetSequence(s: U64)
      requires |rep| >= HEADER
      modifies this
      ensures |rep| == |old(rep)| && SequenceOf(rep) == s
      ensures rep[8..] == old(rep)[8..]
    {
      var tail := rep[8..];
      Fixed64RoundTrip(s, tail);
      rep := Fixed64(s) + tail;
    }

    method Put(key: Bytes, value: Bytes, ghost ops: seq<BatchOp>)
      requires Holds(rep, ops) && |ops| + 1 < TWO32 && Storable(PutOp(key, value))
      modifies this
      ensures Holds(rep, ops + [PutOp(key, value)])
    {
      SetCount(CountOf(rep) + 1);
      ghost var was := rep;
      rep := rep + [TAG_VALUE] + LengthPrefixed(key) + LengthPrefixed(value);
      assert rep == was + RecordBytes(PutOp(key, value));
      Added(was, PutOp(key, value), ops);
    }

    method Delete(key: Bytes, ghost ops: seq<BatchOp>)
      requires Holds(rep, ops) && |ops| + 1 < TWO32 && Storable(DeleteOp(key))
      modifies this
      ensures Holds(rep, ops + [DeleteOp(key)])
    {
      SetCount(CountOf(rep) + 1);
      ghost var was := rep;
      rep := rep + [TAG_DELETION] + LengthPrefixed(key);
      assert rep == was + RecordBytes(DeleteOp(key));
      Added(was, DeleteOp(key), ops);
    }

    // Iterating the appended batch is iterating both.
    method Append(src: Bytes, ghost ops: seq<BatchOp>, ghost more: seq<BatchOp>)
      requires Holds(rep, ops) && Holds(src, more) && |ops| + |more| < TWO32
      modifies this
      ensures Holds(rep, ops + more) && |rep| == |old(rep)| + |src| - HEADER
    {
      hide Records;
      SetCount(CountOf(rep) + CountOf(src));
      RecordsAppend(rep[HEADER..], src[HEADER..]);
      ghost var was := rep;
      rep := rep + src[HEADER..];
      assert rep[HEADER..] == was[HEADER..] + src[HEADER..];
      assert rep[8..] == was[8..] + src[HEADER..];
    }

    // The operations, in order; None when the batch is malformed.
    method Iterate() returns (r: Option<seq<BatchOp>>)
      ensures r == if |rep| < HEADER then None
                   else match Records(rep[HEADER..])
                     case None => None
                     case Some(ops) => if |ops| == CountOf(rep) then Some(ops) else None
    {
      hide ReadRecord;
      if |rep| < HEADER {
        return None;
      }
      var input := rep[HEADER..];
      var found: seq<BatchOp> := [];
      assert Records(input).Some? ==> found + Records(input).value == Records(input).value;
      while input != []
        invariant Records(rep[HEADER..]) ==
                  match Records(input) case None => None case Some(ops) => Some(found + ops)
        decreases |input|
      {
        var next := ReadRecord(input);
        if next.Failed? {
          return None;
        }
        ghost var before := found;
        found, input := found + [next.value], next.rest;
        assert Records(input).Some? ==> before + ([next.value] + Records(input).value) == found + Records(input).value;
      }
      assert found + [] == found;
      r := if |found| == CountOf(rep) then Some(found) else None;
    }

    // Every operation before the first bad record gets the next sequence number, from the
    // batch's own on; ok says whether the batch is whole.
    method InsertInto() returns (ok: bool, inserted: seq<(nat, BatchOp)>)
      ensures ok <==> Whole(rep)
      ensures inserted == if |rep| < HEADER then [] else Numbered(GoodOps(rep[HEADER..]), SequenceOf(rep))
    {
      hide ReadRecord, SequenceOf, CountOf;
      if |rep| < HEADER {
        return false, [];
      }
      var input := rep[HEADER..];
      var sequence := SequenceOf(rep);
      inserted := [];
      ghost var found: seq<BatchOp> := [];
      assert found + GoodOps(input) == GoodOps(input);
      while input != []
        invariant GoodOps(rep[HEADER..]) == found + GoodOps(input)
        invariant Clean(rep[HEADER..]) == Clean(input)
        invariant inserted == Numbered(found, SequenceOf(rep)) && sequence == SequenceOf(rep) + |found|
        decreases |input|
      {
        var next := ReadRecord(input);
        if next.Failed? {
          assert found + [] == found;
          return false, inserted;
        }
        ghost var rest := GoodOps(next.rest);
        assert found + ([next.value] + rest) == found + [next.value] + rest;
        inserted := inserted + [(sequence, next.value)];
        sequence := sequence + 1;
        found, input := found + [next.value], next.rest;
      }
      assert found + [] == found;
      ok := |inserted| == CountOf(rep);
    }
  }

  // A record takes at least one byte.
  lemma {:induction false} RecordsFit(b: Bytes)
    ensures Records(b).Some? ==> |Records(b).value| <= |b|
    decreases |b|
  {
    hide ReadRecord;
    if b != [] && ReadRecord(b).Parsed? {
      RecordsFit(ReadRecord(b).rest);
    }
  }

  function Numbered(ops: seq<BatchOp>, first: nat): (r: seq<(nat, BatchOp)>)
    ensures |r| == |ops|
  {
    seq(|ops|, i requires 0 <= i < |ops| => (first + i, ops[i]))
  }

  lemma Added(rep: Bytes, op: BatchOp, ops: seq<BatchOp>)
    requires |rep| >= HEADER && Records(rep[HEADER..]) == Some(ops) && CountOf(rep) == |ops| + 1 && Storable(op)
    ensures Holds(rep + RecordBytes(op), ops + [op])
  {
    hide ReadRecord, Records, RecordBytes, DecodeFixed32;
    var b := RecordBytes(op);
    assert (rep + b)[HEADER..] == rep[HEADER..] + b;
    SameCount(rep, b);
    OneRecord(op);
    RecordsAppend(rep[HEADER..], b);
  }

  lemma SameCount(rep: Bytes, b: Bytes)
    requires |rep| >= HEADER
    ensures CountOf(rep + b) == CountOf(rep)
  {
    assert (rep + b)[8..] == rep[8..] + b;
  }

  lemma OneRecord(op: BatchOp)
    requires Storable(op)
    ensures Records(RecordBytes(op)) == Some([op])
  {
    hide ReadRecord, RecordBytes;
    var b := RecordBytes(op);
    ReadsRecord(op, []);
    assert b + [] == b;
    assert Records([]) == Some([]);
    assert [op] + [] == [op];
    RecordNotEmpty(op);
  }

  lemma RecordNotEmpty(op: BatchOp)
    ensures RecordBytes(op) != []
  {
  }
}
