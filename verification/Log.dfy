/**
 The write-ahead log (db/log_writer, db/log_reader): records are cut into physical records
 that never cross a 32 KiB block, and a reader of any byte prefix of the file finds exactly
 the records that lie wholly inside it.
 */
module Log {
  import opened Coding

  const BLOCK_SIZE := 32768
  const HEADER_SIZE := 7

  const ZERO_TYPE := 0
  const FULL_TYPE := 1
  const FIRST_TYPE := 2
  const MIDDLE_TYPE := 3
  const LAST_TYPE := 4
  // The reader's own codes, which share the number space of record types.
  const EOF_CODE := 5
  const BAD_RECORD_CODE := 6


  // ---------- crc masking (util/crc32c.h)

  const MASK_DELTA := 0xa282ead8

  // Rotate right by 15 bits and add a constant.
  function Mask(crc: U32): U32 {
    (crc / 32768 + crc % 32768 * 131072 + MASK_DELTA) % TWO32
  }

  function Unmask(masked: U32): U32 {
    var rot := (masked - MASK_DELTA) % TWO32;
    rot / 131072 + rot % 131072 * 32768
  }

  lemma UnmaskUndoesMask(crc: U32)
    ensures Unmask(Mask(crc)) == crc
  {
    var high, low := crc / 32768, crc % 32768;
    var rot := high + low * 131072;
    WrapsBack(rot);
    assert rot / 131072 == low && rot % 131072 == high;
  }

  lemma MaskUndoesUnmask(masked: U32)
    ensures Mask(Unmask(masked)) == masked
  {
    var rot := (masked - MASK_DELTA) % TWO32;
    var high, low := rot / 131072, rot % 131072;
    assert Unmask(masked) == high + low * 32768;
    assert (high + low * 32768) / 32768 == low && (high + low * 32768) % 32768 == high;
    WrapsForth(masked);
  }

  lemma WrapsForth(masked: U32)
    ensures ((masked - MASK_DELTA) % TWO32 + MASK_DELTA) % TWO32 == masked
  {
  }

  lemma WrapsBack(rot: U32)
    ensures ((rot + MASK_DELTA) % TWO32 - MASK_DELTA) % TWO32 == rot
  {
  }

  // ---------- format

  type Crc = Bytes -> U32

  function Physical(crc: Crc, t: Byte, payload: Bytes): (r: Bytes)
    requires |payload| < 65536
    ensures |r| == HEADER_SIZE + |payload|
  {
    Fixed32(Mask(crc([t] + payload))) + [|payload| % 256, |payload| / 256, t] + payload
  }

  function Zeros(n: nat): (r: Bytes)
    ensures |r| == n && forall i | 0 <= i < n :: r[i] == 0
  {
    seq(n, _ => 0)
  }

  // The trailer that fills a block with no room for a header.
  function Trailer(pos: nat): (r: Bytes)
    ensures |r| < HEADER_SIZE
    ensures (pos + |r|) % BLOCK_SIZE + HEADER_SIZE <= BLOCK_SIZE
  {
    var leftover := BLOCK_SIZE - pos % BLOCK_SIZE;
    if leftover < HEADER_SIZE then Zeros(leftover) else []
  }

  function FragmentType(begin: bool, end: bool): Byte {
    if begin && end then FULL_TYPE
    else if begin then FIRST_TYPE
    else if end then LAST_TYPE
    else MIDDLE_TYPE
  }

  // The size of the next fragment of data when its physical record starts at start.
  function FragmentLength(start: nat, data: Bytes): (n: nat)
    requires start % BLOCK_SIZE + HEADER_SIZE <= BLOCK_SIZE
    ensures n <= |data| && n < 65536
    ensures start % BLOCK_SIZE + HEADER_SIZE + n <= BLOCK_SIZE
  {
    var avail := BLOCK_SIZE - start % BLOCK_SIZE - HEADER_SIZE;
    if |data| < avail then |data| else avail
  }

  // What AddRecord appends to a file of length pos.
  function Emitted(crc: Crc, pos: nat, data: Bytes, begin: bool): Bytes
    decreases |data|, if pos % BLOCK_SIZE == BLOCK_SIZE - HEADER_SIZE then 1 else 0
  {
    var start := pos + |Trailer(pos)|;
    var n := FragmentLength(start, data);
    var record := Physical(crc, FragmentType(begin, n == |data|), data[..n]);
    if n == |data| then Trailer(pos) + record
    else Trailer(pos) + record + Emitted(crc, start + HEADER_SIZE + n, data[n..], false)
  }

  // The file after writing records one after another.
  function Written(crc: Crc, records: seq<Bytes>): Bytes {
    if records == [] then []
    else
      var before := Written(crc, records[..|records| - 1]);
      before + Emitted(crc, |before|, records[|records| - 1], true)
  }

  // ---------- what a reader makes of a file

  // bad covers a dropped stretch; reported says whether it is reported as a corruption.
  datatype PhysicalResult =
    | Record(t: Byte, payload: Bytes, next: nat)
    | Eof
    | Bad(reported: bool, next: nat)

  function BlockEnd(pos: nat): (e: nat)
    ensures pos < e <= pos + BLOCK_SIZE && e % BLOCK_SIZE == 0
  {
    pos - pos % BLOCK_SIZE + BLOCK_SIZE
  }

  function Min(a: nat, b: nat): nat {
    if a < b then a else b
  }

  // One physical record at or after pos; a short read marks the last block.
  function ReadPhysical(crc: Crc, file: Bytes, pos: nat): (r: PhysicalResult)
    requires pos <= |file|
    ensures r.Record? ==> pos < r.next <= |file|
    ensures r.Bad? ==> pos < r.next <= |file|
    decreases |file| - pos
  {
    var end := Min(BlockEnd(pos), |file|);
    var eof := |file| < BlockEnd(pos);
    if end - pos < HEADER_SIZE then
      if eof then Eof else ReadPhysical(crc, file, end)
    else
      var length := (file[pos + 4] as int) + 256 * (file[pos + 5] as int);
      var t := file[pos + 6];
      if HEADER_SIZE + length > end - pos then
        if eof then Eof else Bad(true, end)
      else if t == ZERO_TYPE && length == 0 then Bad(false, end)
      else
        var payload := file[pos + HEADER_SIZE..pos + HEADER_SIZE + length];
        if crc([t] + payload) != Unmask(DecodeFixed32(file[pos..])) then Bad(true, end)
        else Record(t, payload, pos + HEADER_SIZE + length)
  }

  // drops counts the corruptions reported on the way.
  datatype LogicalResult = Found(record: Bytes, next: nat, drops: nat) | End(drops: nat)

  function AddDrops(r: LogicalResult, n: nat): LogicalResult {
    match r case Found(record, next, drops) => Found(record, next, drops + n) case End(drops) => End(drops + n)
  }

  // What one physical record does to the logical record being put together.
  datatype Outcome =
    | Complete(record: Bytes, drops: nat)
    | Continue(inside: bool, scratch: Bytes, drops: nat)
    | Stop

  function Assemble(code: nat, fragment: Bytes, inside: bool, scratch: Bytes): Outcome {
    var lost := if inside && scratch != [] then 1 else 0;
    if code == FULL_TYPE then Complete(fragment, lost)
    else if code == FIRST_TYPE then Continue(true, fragment, lost)
    else if code == MIDDLE_TYPE then
      if inside then Continue(true, scratch + fragment, 0) else Continue(false, scratch, 1)
    else if code == LAST_TYPE then
      if inside then Complete(scratch + fragment, 0) else Continue(false, scratch, 1)
    else if code == EOF_CODE then Stop
    else if code == BAD_RECORD_CODE then
      if inside then Continue(false, [], 1) else Continue(false, scratch, 0)
    else Continue(false, [], 1)
  }

  // Reader::ReadRecord, with the fragments collected so far.
  function ReadLogical(crc: Crc, file: Bytes, pos: nat, inside: bool, scratch: Bytes): (r: LogicalResult)
    requires pos <= |file|
    ensures r.Found? ==> pos < r.next <= |file|
    decreases |file| - pos
  {
    match ReadPhysical(crc, file, pos)
    case Eof => End(0)
    case Bad(reported, next) =>
      var o := Assemble(BAD_RECORD_CODE, [], inside, scratch);
      AddDrops(ReadLogical(crc, file, next, o.inside, o.scratch), o.drops + (if reported then 1 else 0))
    case Record(t, payload, next) =>
      match Assemble(t, payload, inside, scratch)
      case Complete(record, drops) => Found(record, next, drops)
      case Stop => End(0)
      case Continue(inside, scratch, drops) => AddDrops(ReadLogical(crc, file, next, inside, scratch), drops)
  }

  // All records from pos on, and the corruptions reported.
  function ReadAll(crc: Crc, file: Bytes, pos: nat): (r: (seq<Bytes>, nat))
    requires pos <= |file|
    decreases |file| - pos
  {
    match ReadLogical(crc, file, pos, false, [])
    case End(drops) => ([], drops)
    case Found(record, next, drops) =>
      var rest := ReadAll(crc, file, next);
      ([record] + rest.0, drops + rest.1)
  }

  // ---------- reading back what was written

  // The file holds part of block from pos on, and more only if it holds all of it.
  ghost predicate HoldsPrefix(file: Bytes, pos: nat, part: Bytes)
    requires pos <= |file|
  {
    part <= file[pos..] || file[pos..] < part
  }

  lemma SkipTrailer(crc: Crc, file: Bytes, pos: nat, rest: Bytes)
    requires pos <= |file| && HoldsPrefix(file, pos, Trailer(pos) + rest)
    ensures var start := pos + |Trailer(pos)|;
            if start <= |file| then
              HoldsPrefix(file, start, rest) && ReadPhysical(crc, file, pos) == ReadPhysical(crc, file, start)
            else ReadPhysical(crc, file, pos) == Eof
  {
    hide ReadPhysical, Trailer;
    var z := Trailer(pos);
    if pos + |z| <= |file| {
      DropPrefix(file, pos, z, rest);
      TrailerIsSkipped(crc, file, pos);
    } else {
      TrailerIsCut(crc, file, pos);
    }
  }

  lemma TrailerIsSkipped(crc: Crc, file: Bytes, pos: nat)
    requires pos + |Trailer(pos)| <= |file|
    ensures ReadPhysical(crc, file, pos) == ReadPhysical(crc, file, pos + |Trailer(pos)|)
  {
    if Trailer(pos) != [] {
      TrailerEndsBlock(pos);
      hide Trailer, BlockEnd, Unmask, DecodeFixed32;
    }
  }

  lemma TrailerEndsBlock(pos: nat)
    requires Trailer(pos) != []
    ensures pos + |Trailer(pos)| == BlockEnd(pos)
  {
  }

  lemma TrailerIsCut(crc: Crc, file: Bytes, pos: nat)
    requires pos <= |file| < pos + |Trailer(pos)|
    ensures ReadPhysical(crc, file, pos) == Eof
  {
  }

  lemma DropPrefix(file: Bytes, pos: nat, z: Bytes, rest: Bytes)
    requires pos + |z| <= |file| && HoldsPrefix(file, pos, z + rest)
    ensures HoldsPrefix(file, pos + |z|, rest)
  {
    assert file[pos..][|z|..] == file[pos + |z|..];
    assert (z + rest)[|z|..] == rest;
  }

  // A physical record wholly in the file is read back; one cut short ends the file.
  lemma ReadsPhysical(crc: Crc, file: Bytes, start: nat, t: Byte, payload: Bytes)
    requires start <= |file| && t != ZERO_TYPE
    requires start % BLOCK_SIZE + HEADER_SIZE + |payload| <= BLOCK_SIZE
    requires HoldsPrefix(file, start, Physical(crc, t, payload))
    ensures ReadPhysical(crc, file, start) ==
      if start + HEADER_SIZE + |payload| <= |file| then Record(t, payload, start + HEADER_SIZE + |payload|)
      else Eof
  {
    var p := Physical(crc, t, payload);
    var end := Min(BlockEnd(start), |file|);
    if end - start >= HEADER_SIZE {
      assert forall i | 0 <= i < HEADER_SIZE :: file[start..][i] == p[i];
      assert file[start + 4] == p[4] && file[start + 5] == p[5] && file[start + 6] == p[6];
      if start + HEADER_SIZE + |payload| <= |file| {
        assert p <= file[start..];
        assert file[start + HEADER_SIZE..start + HEADER_SIZE + |payload|] == p[HEADER_SIZE..] == payload;
        assert file[start..] == Fixed32(Mask(crc([t] + payload))) + file[start + 4..];
        Fixed32RoundTrip(Mask(crc([t] + payload)), file[start + 4..]);
        UnmaskUndoesMask(crc([t] + payload));
      }
    }
  }

  lemma HeldHead(file: Bytes, pos: nat, a: Bytes, b: Bytes)
    requires pos <= |file| && HoldsPrefix(file, pos, a + b)
    ensures HoldsPrefix(file, pos, a)
    ensures pos + |a| <= |file| ==> HoldsPrefix(file, pos + |a|, b)
  {
    if pos + |a| <= |file| {
      assert file[pos..][|a|..] == file[pos + |a|..];
      assert (a + b)[|a|..] == b;
    }
  }

  // Where the first physical record of data starts, how much of data it takes, and what follows.
  function Start(pos: nat): (s: nat)
    ensures s >= pos && s % BLOCK_SIZE + HEADER_SIZE <= BLOCK_SIZE
  {
    pos + |Trailer(pos)|
  }

  function Taken(pos: nat, data: Bytes): (n: nat)
    ensures n <= |data| && n < 65536
    ensures Start(pos) % BLOCK_SIZE + HEADER_SIZE + n <= BLOCK_SIZE
  {
    FragmentLength(Start(pos), data)
  }

  function Next(pos: nat, data: Bytes): nat {
    Start(pos) + HEADER_SIZE + Taken(pos, data)
  }

  function First(crc: Crc, pos: nat, data: Bytes, begin: bool): Bytes {
    Physical(crc, FragmentType(begin, Taken(pos, data) == |data|), data[..Taken(pos, data)])
  }

  function Rest(crc: Crc, pos: nat, data: Bytes): Bytes {
    if Taken(pos, data) == |data| then [] else Emitted(crc, Next(pos, data), data[Taken(pos, data)..], false)
  }

  lemma EmittedSplits(crc: Crc, pos: nat, data: Bytes, begin: bool)
    ensures Emitted(crc, pos, data, begin) == Trailer(pos) + (First(crc, pos, data, begin) + Rest(crc, pos, data))
    ensures |Emitted(crc, pos, data, begin)| == Next(pos, data) - pos + |Rest(crc, pos, data)|
  {
    hide Physical, Trailer, FragmentLength, FragmentType;
  }

  // The first fragment of a record is read, leaving the rest in place, or the file ends.
  lemma ReadsOneFragment(crc: Crc, file: Bytes, pos: nat, data: Bytes, begin: bool)
    requires pos <= |file| && HoldsPrefix(file, pos, Emitted(crc, pos, data, begin))
    ensures var next := Next(pos, data);
            var n := Taken(pos, data);
            && (next <= |file| ==>
                  && ReadPhysical(crc, file, pos) == Record(FragmentType(begin, n == |data|), data[..n], next)
                  && HoldsPrefix(file, next, Rest(crc, pos, data)))
            && (next > |file| ==> ReadPhysical(crc, file, pos) == Eof)
  {
    hide Emitted, Physical, ReadPhysical, HoldsPrefix, Taken, Trailer, FragmentLength, Rest;
    EmittedSplits(crc, pos, data, begin);
    SkipTrailer(crc, file, pos, First(crc, pos, data, begin) + Rest(crc, pos, data));
    if Start(pos) <= |file| {
      HeldHead(file, Start(pos), First(crc, pos, data, begin), Rest(crc, pos, data));
      ReadsPhysical(crc, file, Start(pos), FragmentType(begin, Taken(pos, data) == |data|), data[..Taken(pos, data)]);
    }
  }

  lemma LaterFragmentIsSmaller(pos: nat, data: Bytes)
    requires Taken(pos, data) < |data|
    ensures Taken(pos, data) > 0 || pos % BLOCK_SIZE == BLOCK_SIZE - HEADER_SIZE
    ensures Next(pos, data) % BLOCK_SIZE == 0
  {
  }

  // The fragments of one record are put together again, or the file ends inside them.
  lemma {:induction false} ReadsFragments(crc: Crc, file: Bytes, pos: nat, data: Bytes, begin: bool, scratch: Bytes)
    requires pos <= |file| && HoldsPrefix(file, pos, Emitted(crc, pos, data, begin))
    requires begin ==> scratch == []
    ensures ReadLogical(crc, file, pos, !begin, scratch) ==
      var e := Emitted(crc, pos, data, begin);
      if pos + |e| <= |file| then Found(scratch + data, pos + |e|, 0) else End(0)
    decreases |data|, if pos % BLOCK_SIZE == BLOCK_SIZE - HEADER_SIZE then 1 else 0
  {
    hide Emitted, ReadPhysical, HoldsPrefix, Taken, Next, Start;
    EmittedSplits(crc, pos, data, begin);
    ReadsOneFragment(crc, file, pos, data, begin);
    var n, next := Taken(pos, data), Next(pos, data);
    if next <= |file| {
      if n < |data| {
        LaterFragmentIsSmaller(pos, data);
        ReadsFragments(crc, file, next, data[n..], false, scratch + data[..n]);
        assert scratch + data[..n] + data[n..] == scratch + data;
        assert begin ==> scratch + data[..n] == data[..n];
      } else {
        assert data[..n] == data;
        assert begin ==> scratch + data == data;
      }
    }
  }

  // The number of records that lie wholly inside the first n bytes.
  ghost predicate WhollyInside(crc: Crc, records: seq<Bytes>, n: nat, k: nat) {
    && k <= |records|
    && |Written(crc, records[..k])| <= n
    && (k < |records| ==> n < |Written(crc, records[..k + 1])|)
  }

  lemma {:induction false} WrittenGrows(crc: Crc, records: seq<Bytes>, i: nat)
    requires i <= |records|
    ensures Written(crc, records[..i]) <= Written(crc, records)
  {
    if i < |records| {
      WrittenGrows(crc, records[..|records| - 1], i);
      assert records[..|records| - 1][..i] == records[..i];
    } else {
      assert records[..i] == records;
    }
  }

  lemma WrittenStep(crc: Crc, records: seq<Bytes>, i: nat)
    requires i < |records|
    ensures Written(crc, records[..i + 1])
         == Written(crc, records[..i]) + Emitted(crc, |Written(crc, records[..i])|, records[i], true)
  {
    assert records[..i + 1][..i] == records[..i];
  }

  lemma PrefixHolds(all: Bytes, n: nat, pos: nat, part: Bytes)
    requires pos <= n <= |all| && pos + |part| <= |all| && all[pos..pos + |part|] == part
    ensures HoldsPrefix(all[..n], pos, part)
  {
    if pos + |part| <= n {
      assert all[..n][pos..][..|part|] == part;
    } else {
      assert all[..n][pos..] == part[..n - pos];
    }
  }

  lemma RecordIsAt(crc: Crc, records: seq<Bytes>, i: nat)
    requires i < |records|
    ensures var pos := |Written(crc, records[..i])|;
            var e := Emitted(crc, pos, records[i], true);
            && |Written(crc, records[..i + 1])| == pos + |e| <= |Written(crc, records)|
            && Written(crc, records)[pos..pos + |e|] == e
  {
    hide Written, Emitted;
    WrittenStep(crc, records, i);
    WrittenGrows(crc, records, i + 1);
    var all, part := Written(crc, records), Written(crc, records[..i + 1]);
    assert all[..|part|] == part;
  }

  // Reading at the start of record i finds it if it is wholly inside the prefix.
  lemma ReadsRecord(crc: Crc, records: seq<Bytes>, n: nat, i: nat)
    requires n <= |Written(crc, records)| && i < |records| && |Written(crc, records[..i])| <= n
    ensures ReadLogical(crc, Written(crc, records)[..n], |Written(crc, records[..i])|, false, [])
         == var next := |Written(crc, records[..i + 1])|;
            if next <= n then Found(records[i], next, 0) else End(0)
  {
    hide Written, Emitted, ReadLogical, HoldsPrefix;
    var pos := |Written(crc, records[..i])|;
    RecordIsAt(crc, records, i);
    PrefixHolds(Written(crc, records), n, pos, Emitted(crc, pos, records[i], true));
    ReadsFragments(crc, Written(crc, records)[..n], pos, records[i], true, []);
    assert [] + records[i] == records[i];
  }

  lemma {:induction false} ReadsFrom(crc: Crc, records: seq<Bytes>, n: nat, k: nat, i: nat)
    requires n <= |Written(crc, records)| && WhollyInside(crc, records, n, k) && i <= k
    ensures |Written(crc, records[..i])| <= n
    ensures ReadAll(crc, Written(crc, records)[..n], |Written(crc, records[..i])|) == (records[i..k], 0)
    decreases k - i
  {
    hide Written, ReadLogical, ReadAll;
    WrittenGrows(crc, records[..k], i);
    assert records[..k][..i] == records[..i];
    var file, pos := Written(crc, records)[..n], |Written(crc, records[..i])|;
    ReadAllStep(crc, file, pos);
    if i == |records| {
      assert records[..i] == records;
      EndOfFile(crc, file);
    } else {
      ReadsRecord(crc, records, n, i);
    }
    if i < k {
      WrittenGrows(crc, records[..k], i + 1);
      assert records[..k][..i + 1] == records[..i + 1];
      ReadsFrom(crc, records, n, k, i + 1);
      assert [records[i]] + records[i + 1..k] == records[i..k];
    } else {
      assert records[i..k] == [];
    }
  }

  lemma ReadAllStep(crc: Crc, file: Bytes, pos: nat)
    requires pos <= |file|
    ensures match ReadLogical(crc, file, pos, false, [])
            case End(drops) => ReadAll(crc, file, pos) == ([], drops)
            case Found(record, next, drops) =>
              var rest := ReadAll(crc, file, next);
              ReadAll(crc, file, pos) == ([record] + rest.0, drops + rest.1)
  {
  }

  lemma EndOfFile(crc: Crc, file: Bytes)
    ensures ReadLogical(crc, file, |file|, false, []) == End(0)
  {
  }

  // For every list of records and every byte prefix of the file they were written to, reading
  // from the start gives exactly the records wholly inside the prefix, in order, and reports
  // no corruption.
  lemma PrefixReadsBack(crc: Crc, records: seq<Bytes>, n: nat, k: nat)
    requires n <= |Written(crc, records)| && WhollyInside(crc, records, n, k)
    ensures ReadAll(crc, Written(crc, records)[..n], 0) == (records[..k], 0)
  {
    ReadsFrom(crc, records, n, k, 0);
  }

  // ---------- log::Writer

  lemma Associative(a: Bytes, b: Bytes, c: Bytes, d: Bytes)
    ensures a + (b + (c + d)) == a + b + c + d
  {
  }

  lemma LoopStep(crc: Crc, before: Bytes, left: Bytes, begin: bool)
    ensures var after := before + Trailer(|before|) + First(crc, |before|, left, begin);
            var n := Taken(|before|, left);
            before + Emitted(crc, |before|, left, begin)
            == if n == |left| then after else after + Emitted(crc, |after|, left[n..], false)
  {
    hide Emitted, FragmentLength, Trailer, Physical, Taken;
    EmittedSplits(crc, |before|, left, begin);
    Associative(before, Trailer(|before|), First(crc, |before|, left, begin), Rest(crc, |before|, left));
  }

  class Writer {
    const crc: Crc
    var dest: Bytes
    var blockOffset: nat

    ghost predicate Valid()
      reads this
    {
      blockOffset <= BLOCK_SIZE && blockOffset % BLOCK_SIZE == |dest| % BLOCK_SIZE
    }

    constructor (crc: Crc, dest: Bytes)
      ensures Valid() && this.crc == crc && this.dest == dest
    {
      this.crc := crc;
      this.dest := dest;
      this.blockOffset := |dest| % BLOCK_SIZE;
    }

    method AddRecord(slice: Bytes)
      requires Valid()
      modifies this
      ensures Valid() && dest == old(dest) + Emitted(crc, |old(dest)|, slice, true)
    {
      ghost var target := dest + Emitted(crc, |dest|, slice, true);
      var left, begin, done := slice, true, false;
      while !done
        invariant Valid()
        invariant target == if done then dest else dest + Emitted(crc, |dest|, left, begin)
        decreases !done, |left|, if |dest| % BLOCK_SIZE == BLOCK_SIZE - HEADER_SIZE then 1 else 0
      {
        hide Emitted, Taken, First, Trailer;
        LoopStep(crc, dest, left, begin);
        var n := EmitFragment(left, begin);
        left := left[n..];
        begin := false;
        done := |left| == 0;
      }
    }

    // One turn of the loop: switch blocks if the header does not fit, then emit what does.
    method EmitFragment(left: Bytes, begin: bool) returns (n: nat)
      requires Valid()
      modifies this
      ensures Valid() && n == Taken(|old(dest)|, left)
      ensures dest == old(dest) + Trailer(|old(dest)|) + First(crc, |old(dest)|, left, begin)
      ensures n < |left| ==> n > 0 || |old(dest)| % BLOCK_SIZE == BLOCK_SIZE - HEADER_SIZE
      ensures n < |left| ==> |dest| % BLOCK_SIZE == 0
    {
      hide Physical, Zeros;
      var leftover := BLOCK_SIZE - blockOffset;
      if leftover < HEADER_SIZE {
        if leftover > 0 {
          dest := dest + Zeros(leftover);
        }
        blockOffset := 0;
      }
      assert dest == old(dest) + Trailer(|old(dest)|);
      var avail := BLOCK_SIZE - blockOffset - HEADER_SIZE;
      n := if |left| < avail then |left| else avail;
      EmitPhysicalRecord(FragmentType(begin, n == |left|), left[..n]);
    }

    method EmitPhysicalRecord(t: Byte, payload: Bytes)
      requires Valid() && blockOffset + HEADER_SIZE + |payload| <= BLOCK_SIZE
      modifies this
      ensures Valid() && dest == old(dest) + Physical(crc, t, payload)
    {
      hide Physical, Zeros;
      dest := dest + Physical(crc, t, payload);
      blockOffset := blockOffset + HEADER_SIZE + |payload|;
    }
  }

  // ---------- log::Reader

  // The record a full enough buffer starts with; atEnd when it was filled by a short read.
  function ParseBuffer(crc: Crc, buffer: Bytes, atEnd: bool, pos: nat): PhysicalResult
    requires |buffer| >= HEADER_SIZE
  {
    var length := (buffer[4] as int) + 256 * (buffer[5] as int);
    var t := buffer[6];
    if HEADER_SIZE + length > |buffer| then
      if atEnd then Eof else Bad(true, pos + |buffer|)
    else if t == ZERO_TYPE && length == 0 then Bad(false, pos + |buffer|)
    else
      var payload := buffer[HEADER_SIZE..HEADER_SIZE + length];
      if crc([t] + payload) != Unmask(DecodeFixed32(buffer)) then Bad(true, pos + |buffer|)
      else Record(t, payload, pos + HEADER_SIZE + length)
  }

  lemma BufferIsBlock(crc: Crc, file: Bytes, pos: nat, end: nat)
    requires pos + HEADER_SIZE <= end <= |file| && end == Min(BlockEnd(pos), |file|)
    ensures ReadPhysical(crc, file, pos) == ParseBuffer(crc, file[pos..end], |file| < BlockEnd(pos), pos)
  {
    hide Unmask, DecodeFixed32, Min, BlockEnd;
    var buffer := file[pos..end];
    var length := (buffer[4] as int) + 256 * (buffer[5] as int);
    assert buffer[4] == file[pos + 4] && buffer[5] == file[pos + 5] && buffer[6] == file[pos + 6];
    assert |buffer| == end - pos && pos + |buffer| == end;
    SameFixed32(file, pos, end);
    if HEADER_SIZE + length <= |buffer| {
      SamePayload(file, pos, end, HEADER_SIZE, HEADER_SIZE + length);
    }
  }

  lemma SameFixed32(file: Bytes, pos: nat, end: nat)
    requires pos + 4 <= end <= |file|
    ensures DecodeFixed32(file[pos..end]) == DecodeFixed32(file[pos..])
  {
  }

  lemma SamePayload(file: Bytes, pos: nat, end: nat, x: nat, y: nat)
    requires pos <= end <= |file| && x <= y <= end - pos
    ensures file[pos..end][x..y] == file[pos + x..pos + y]
  {
    var buffer := file[pos..end];
    assert forall k | 0 <= k < y - x :: buffer[x..y][k] == buffer[x + k] == file[pos + x..pos + y][k];
  }

  // What Reader::ReadPhysicalRecord returns for a physical result.
  function CodeOf(p: PhysicalResult): nat {
    match p case Record(t, payload, next) => t case Eof => EOF_CODE case Bad(reported, next) => BAD_RECORD_CODE
  }

  function FragmentOf(p: PhysicalResult): Bytes {
    if p.Record? then p.payload else []
  }

  function Reported(p: PhysicalResult): nat {
    if p.Bad? && p.reported then 1 else 0
  }

  // One turn of ReadRecord's loop: target is what reading from pos gives, with the drops so far.
  lemma LogicalStep(crc: Crc, file: Bytes, pos: nat, inside: bool, scratch: Bytes, target: LogicalResult, sofar: nat)
    requires pos <= |file| && target == AddDrops(ReadLogical(crc, file, pos, inside, scratch), sofar)
    ensures var p := ReadPhysical(crc, file, pos);
            match Assemble(CodeOf(p), FragmentOf(p), inside, scratch)
            case Complete(record, drops) => !p.Eof? && Reported(p) == 0 && target == Found(record, p.next, sofar + drops)
            case Stop => Reported(p) == 0 && target == End(sofar)
            case Continue(i, s, drops) =>
              !p.Eof? && target == AddDrops(ReadLogical(crc, file, p.next, i, s), sofar + drops + Reported(p))
  {
    hide ReadPhysical;
  }

  lemma NoDrops(r: LogicalResult)
    ensures AddDrops(r, 0) == r
  {
  }

  class Reader {
    const crc: Crc
    const file: Bytes
    var filePos: nat
    var buffer: Bytes
    var eof: bool
    var drops: nat

    ghost predicate Valid()
      reads this
    {
      && |buffer| <= filePos <= |file|
      && buffer == file[filePos - |buffer|..filePos]
      && if eof then filePos == |file| < BlockEnd(Pos())
         else filePos % BLOCK_SIZE == 0 && (buffer != [] ==> filePos == BlockEnd(Pos()))
    }

    ghost function Pos(): nat
      reads this
      requires |buffer| <= filePos
    {
      filePos - |buffer|
    }

    constructor (crc: Crc, file: Bytes)
      ensures Valid() && Pos() == 0 && drops == 0 && this.crc == crc && this.file == file
    {
      this.crc := crc;
      this.file := file;
      filePos, buffer, eof, drops := 0, [], false, 0;
    }

    // SequentialFile::Read of the next block.
    method FillBuffer()
      requires Valid() && !eof && |buffer| < HEADER_SIZE
      modifies this
      ensures Valid() && drops == old(drops)
      ensures eof ==> ReadPhysical(crc, file, old(Pos())) == ReadPhysical(crc, file, Pos())
      ensures !eof ==> |buffer| == BLOCK_SIZE && ReadPhysical(crc, file, old(Pos())) == ReadPhysical(crc, file, Pos())
    {
      var n := Min(BLOCK_SIZE, |file| - filePos);
      buffer := file[filePos..filePos + n];
      filePos := filePos + n;
      eof := n < BLOCK_SIZE;
    }

    method ReadPhysicalRecord() returns (code: nat, fragment: Bytes)
      requires Valid()
      modifies this
      ensures Valid()
      ensures var p := ReadPhysical(crc, file, old(Pos()));
              && code == CodeOf(p) && fragment == FragmentOf(p) && drops == old(drops) + Reported(p)
              && (!p.Eof? ==> Pos() == p.next)
    {
      ghost var result := ReadPhysical(crc, file, Pos());
      fragment := [];
      if |buffer| < HEADER_SIZE && !eof {
        FillBuffer();
      }
      if |buffer| < HEADER_SIZE {
        buffer := [];
        return EOF_CODE, [];
      }
      assert result == ReadPhysical(crc, file, Pos());
      code, fragment := ParseHeader();
    }

    // Takes the record off the buffer, or drops the rest of a block that makes no sense.
    method ParseHeader() returns (code: nat, fragment: Bytes)
      requires Valid() && |buffer| >= HEADER_SIZE
      modifies this
      ensures Valid()
      ensures var p := ReadPhysical(crc, file, old(Pos()));
              && code == CodeOf(p) && fragment == FragmentOf(p) && drops == old(drops) + Reported(p)
              && (!p.Eof? ==> Pos() == p.next)
    {
      BufferIsBlock(crc, file, Pos(), filePos);
      hide ReadPhysical, Unmask, DecodeFixed32;
      match ParseBuffer(crc, buffer, eof, filePos - |buffer|)
      case Eof =>
        RemovePrefix(|buffer|);
        code, fragment := EOF_CODE, [];
      case Bad(reported, _) =>
        RemovePrefix(|buffer|);
        drops := drops + (if reported then 1 else 0);
        code, fragment := BAD_RECORD_CODE, [];
      case Record(t, payload, _) =>
        RemovePrefix(HEADER_SIZE + |payload|);
        code, fragment := t, payload;
    }

    method RemovePrefix(n: nat)
      requires Valid() && n <= |buffer|
      modifies `buffer
      ensures Valid() && Pos() == old(Pos()) + n
    {
      buffer := buffer[n..];
    }

    // The next record, and the corruptions reported before it or before the end.
    method ReadRecord() returns (record: Option<Bytes>)
      requires Valid()
      modifies this
      ensures Valid()
      ensures match ReadLogical(crc, file, old(Pos()), false, [])
              case Found(r, next, d) => record == Some(r) && Pos() == next && drops == old(drops) + d
              case End(d) => record == None && drops == old(drops) + d
    {
      hide ReadPhysical, ReadLogical, Assemble, AddDrops, Reported, CodeOf, FragmentOf;
      var inside, scratch := false, [];
      ghost var target, reported := ReadLogical(crc, file, Pos(), false, []), drops;
      NoDrops(target);
      while true
        invariant Valid() && drops >= reported
        invariant target == AddDrops(ReadLogical(crc, file, Pos(), inside, scratch), drops - reported)
        decreases |file| - Pos()
      {
        LogicalStep(crc, file, Pos(), inside, scratch, target, drops - reported);
        var code, fragment := ReadPhysicalRecord();
        match Assemble(code, fragment, inside, scratch)
        case Complete(r, d) =>
          drops := drops + d;
          return Some(r);
        case Stop =>
          return None;
        case Continue(i, s, d) =>
          drops := drops + d;
          inside, scratch := i, s;
      }
    }
  }
}
