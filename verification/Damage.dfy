/**
 What the log reader makes of damaged files (db/log_reader): a record is only ever returned
 when the file holds its fragments as the writer emits them, damage is reported, and it costs
 no record that lies outside the blocks it is in.
 */
module Damaged {
  import opened Coding
  import opened Log

  // ---------- one physical record

  // The file holds this physical record at s, within one block.
  ghost predicate Stands(crc: Crc, file: Bytes, s: nat, t: Byte, payload: Bytes) {
    && |payload| < 65536 && s % BLOCK_SIZE + HEADER_SIZE + |payload| <= BLOCK_SIZE
    && s + HEADER_SIZE + |payload| <= |file|
    && file[s..s + HEADER_SIZE + |payload|] == Physical(crc, t, payload)
  }

  lemma PhysicalHeader(crc: Crc, t: Byte, payload: Bytes)
    requires |payload| < 65536
    ensures var p := Physical(crc, t, payload);
            && p[..4] == Fixed32(Mask(crc([t] + payload))) && p[4] as int + 256 * p[5] as int == |payload| && p[6] == t
            && p[HEADER_SIZE..] == payload
  {
  }

  // The length and the type that the header at s gives.
  function LengthAt(file: Bytes, s: nat): (n: nat)
    requires s + HEADER_SIZE <= |file|
    ensures n < 65536
  {
    file[s + 4] as int + 256 * file[s + 5] as int
  }

  function TypeAt(file: Bytes, s: nat): Byte
    requires s + HEADER_SIZE <= |file|
  {
    file[s + 6]
  }

  // Only the bytes of the header and of as many behind it as it says can stand there.
  lemma StandsIff(crc: Crc, file: Bytes, s: nat, t: Byte, payload: Bytes)
    requires |payload| < 65536 && s + HEADER_SIZE + |payload| <= |file| && s % BLOCK_SIZE + HEADER_SIZE + |payload| <= BLOCK_SIZE
    ensures Stands(crc, file, s, t, payload) <==>
              && LengthAt(file, s) == |payload| && TypeAt(file, s) == t
              && file[s + HEADER_SIZE..s + HEADER_SIZE + |payload|] == payload
              && crc([t] + payload) == Unmask(DecodeFixed32(file[s..]))
  {
    hide Mask, Unmask, Fixed32, DecodeFixed32, Physical;
    var b, p := file[s..s + HEADER_SIZE + |payload|], Physical(crc, t, payload);
    var sum := crc([t] + payload);
    PhysicalHeader(crc, t, payload);
    assert b[..4] == file[s..s + 4] && b[4] == file[s + 4] && b[5] == file[s + 5] && b[6] == file[s + 6];
    assert b[HEADER_SIZE..] == file[s + HEADER_SIZE..s + HEADER_SIZE + |payload|];
    assert file[s..][..4] == file[s..s + 4];
    SameStart(file[s..]);
    if Stands(crc, file, s, t, payload) {
      assert b[..4] == p[..4] && b[4] == p[4] && b[5] == p[5] && b[6] == p[6];
      Fixed32RoundTrip(Mask(sum), []);
      assert Fixed32(Mask(sum)) + [] == Fixed32(Mask(sum));
      UnmaskUndoesMask(sum);
    }
    if && LengthAt(file, s) == |payload| && TypeAt(file, s) == t
       && file[s + HEADER_SIZE..s + HEADER_SIZE + |payload|] == payload && sum == Unmask(DecodeFixed32(file[s..])) {
      MaskUndoesUnmask(DecodeFixed32(file[s..s + 4]));
      Fixed32Restores(file[s..s + 4]);
      assert b[..4] == p[..4];
      SameLength(b[4], b[5], p[4], p[5]);
      assert forall i | 0 <= i < |b| :: b[i] == if i < 4 then b[..4][i] else if i < 7 then p[i] else b[HEADER_SIZE..][i - HEADER_SIZE];
      assert forall i | 0 <= i < |p| :: p[i] == if i < 4 then p[..4][i] else if i < 7 then p[i] else p[HEADER_SIZE..][i - HEADER_SIZE];
    }
  }

  lemma SameLength(a: Byte, b: Byte, c: Byte, d: Byte)
    requires a as int + 256 * b as int == c as int + 256 * d as int
    ensures a == c && b == d
  {
  }

  // Reading at a place with room for a header.
  lemma ReadsAtHeader(crc: Crc, file: Bytes, s: nat)
    requires s + HEADER_SIZE <= |file| && s % BLOCK_SIZE + HEADER_SIZE <= BLOCK_SIZE
    ensures var (n, t, end) := (LengthAt(file, s), TypeAt(file, s), Min(BlockEnd(s), |file|));
            ReadPhysical(crc, file, s) ==
              if s + HEADER_SIZE + n > end then if |file| < BlockEnd(s) then Eof else Bad(true, end)
              else if t == ZERO_TYPE && n == 0 then Bad(false, end)
              else if Stands(crc, file, s, t, file[s + HEADER_SIZE..s + HEADER_SIZE + n]) then
                Record(t, file[s + HEADER_SIZE..s + HEADER_SIZE + n], s + HEADER_SIZE + n)
              else Bad(true, end)
  {
    hide Stands, Unmask, DecodeFixed32, ReadPhysical;
    var n, t, end := LengthAt(file, s), TypeAt(file, s), Min(BlockEnd(s), |file|);
    ParsesHeader(crc, file, s);
    if s + HEADER_SIZE + n <= end {
      EndOfBlock(s);
      StandsIff(crc, file, s, t, file[s + HEADER_SIZE..s + HEADER_SIZE + n]);
    }
  }

  lemma EndOfBlock(s: nat)
    ensures BlockEnd(s) == s - s % BLOCK_SIZE + BLOCK_SIZE
  {
  }

  lemma ParsesHeader(crc: Crc, file: Bytes, s: nat)
    requires s + HEADER_SIZE <= |file| && s % BLOCK_SIZE + HEADER_SIZE <= BLOCK_SIZE
    ensures var (n, t, end) := (LengthAt(file, s), TypeAt(file, s), Min(BlockEnd(s), |file|));
            ReadPhysical(crc, file, s) ==
              if s + HEADER_SIZE + n > end then if |file| < BlockEnd(s) then Eof else Bad(true, end)
              else if t == ZERO_TYPE && n == 0 then Bad(false, end)
              else if crc([t] + file[s + HEADER_SIZE..s + HEADER_SIZE + n]) == Unmask(DecodeFixed32(file[s..])) then
                Record(t, file[s + HEADER_SIZE..s + HEADER_SIZE + n], s + HEADER_SIZE + n)
              else Bad(true, end)
  {
    hide Unmask, DecodeFixed32, BlockEnd, Min;
    RoomForHeader(file, s);
  }

  lemma RoomForHeader(file: Bytes, s: nat)
    requires s + HEADER_SIZE <= |file| && s % BLOCK_SIZE + HEADER_SIZE <= BLOCK_SIZE
    ensures s + HEADER_SIZE <= Min(BlockEnd(s), |file|) <= |file|
    ensures BlockEnd(s) <= |file| ==> Min(BlockEnd(s), |file|) == BlockEnd(s)
  {
  }

  lemma StandsByHeader(crc: Crc, file: Bytes, s: nat, t: Byte, payload: Bytes)
    requires Stands(crc, file, s, t, payload)
    ensures LengthAt(file, s) == |payload| && TypeAt(file, s) == t
    ensures payload == file[s + HEADER_SIZE..s + HEADER_SIZE + |payload|]
  {
    StandsIff(crc, file, s, t, payload);
  }

  // The reader returns a physical record exactly where one stands that the writer could have
  // emitted, behind the trailer of a block; anything else that is not cut off by the end of
  // the file is bad, costs the rest of its block, and is reported unless its header is zero.
  lemma PhysicalIff(crc: Crc, file: Bytes, pos: nat)
    requires pos <= |file|
    ensures var s := Start(pos);
            match ReadPhysical(crc, file, pos)
            case Record(t, payload, next) =>
              Stands(crc, file, s, t, payload) && next == s + HEADER_SIZE + |payload| && !(t == ZERO_TYPE && payload == [])
            case Bad(reported, next) =>
              && s + HEADER_SIZE <= |file| && next == Min(BlockEnd(s), |file|)
              && (|file| < BlockEnd(s) ==> s + HEADER_SIZE + LengthAt(file, s) <= |file|)
              && (reported <==> !(TypeAt(file, s) == ZERO_TYPE && LengthAt(file, s) == 0))
              && (reported ==> forall t, payload :: !Stands(crc, file, s, t, payload))
            case Eof =>
              s + HEADER_SIZE > |file| || (|file| < BlockEnd(s) && s + HEADER_SIZE + LengthAt(file, s) > |file|)
  {
    hide Stands, ReadPhysical, Trailer;
    var s := Start(pos);
    if s > |file| {
      TrailerIsCut(crc, file, pos);
    } else {
      TrailerIsSkipped(crc, file, pos);
      if s + HEADER_SIZE > |file| {
        NoRoomForHeader(crc, file, s);
      } else {
        ReadsAtHeader(crc, file, s);
        forall t, payload ensures Stands(crc, file, s, t, payload) ==>
            && t == TypeAt(file, s) && |payload| == LengthAt(file, s) && s + HEADER_SIZE + |payload| <= Min(BlockEnd(s), |file|)
            && payload == file[s + HEADER_SIZE..s + HEADER_SIZE + |payload|] {
          if Stands(crc, file, s, t, payload) {
            StandsByHeader(crc, file, s, t, payload);
            StandsInBlock(crc, file, s, t, payload);
          }
        }
      }
    }
  }

  lemma StandsInBlock(crc: Crc, file: Bytes, s: nat, t: Byte, payload: Bytes)
    requires Stands(crc, file, s, t, payload)
    ensures s + HEADER_SIZE + |payload| <= Min(BlockEnd(s), |file|)
  {
  }

  lemma NoRoomForHeader(crc: Crc, file: Bytes, s: nat)
    requires s <= |file| < s + HEADER_SIZE && s % BLOCK_SIZE + HEADER_SIZE <= BLOCK_SIZE
    ensures ReadPhysical(crc, file, s) == Eof
  {
  }

  // ---------- every record returned

  datatype Piece = Piece(at: nat, payload: Bytes)

  function End(p: Piece): nat {
    p.at + HEADER_SIZE + |p.payload|
  }

  function Join(pieces: seq<Piece>): Bytes {
    if pieces == [] then [] else Join(pieces[..|pieces| - 1]) + pieces[|pieces| - 1].payload
  }

  // The pieces stand one right behind the other, typed as the fragments of one record.
  ghost predicate Laid(crc: Crc, file: Bytes, pieces: seq<Piece>, complete: bool) {
    && pieces != []
    && (forall i | 0 <= i < |pieces| ::
          Stands(crc, file, pieces[i].at, FragmentType(i == 0, complete && i == |pieces| - 1), pieces[i].payload))
    && forall i | 0 <= i < |pieces| - 1 :: pieces[i + 1].at == Start(End(pieces[i]))
  }

  lemma OnePiece(crc: Crc, file: Bytes, p: Piece, complete: bool)
    requires Stands(crc, file, p.at, FragmentType(true, complete), p.payload)
    ensures Laid(crc, file, [p], complete) && Join([p]) == p.payload
  {
    hide Stands;
    assert [p][..0] == [];
    assert [] + p.payload == p.payload;
  }

  lemma PieceMore(crc: Crc, file: Bytes, pieces: seq<Piece>, p: Piece, complete: bool)
    requires Laid(crc, file, pieces, false) && p.at == Start(End(pieces[|pieces| - 1]))
    requires Stands(crc, file, p.at, FragmentType(false, complete), p.payload)
    ensures Laid(crc, file, pieces + [p], complete) && Join(pieces + [p]) == Join(pieces) + p.payload
  {
    hide Stands, Start;
    assert (pieces + [p])[..|pieces|] == pieces;
  }

  // The fragments collected so far stand before pos.
  ghost predicate Collected(crc: Crc, file: Bytes, pos: nat, inside: bool, scratch: Bytes, pieces: seq<Piece>) {
    inside ==> Laid(crc, file, pieces, false) && Join(pieces) == scratch && End(pieces[|pieces| - 1]) == pos
  }

  // The record found is what the pieces hold; they stand at or after pos, or go on with those collected.
  ghost predicate FoundAt(crc: Crc, file: Bytes, pos: nat, r: LogicalResult, inside: bool, pieces: seq<Piece>, found: seq<Piece>) {
    r.Found? ==>
      && Laid(crc, file, found, true) && Join(found) == r.record && End(found[|found| - 1]) == r.next
      && (found[0].at >= pos || (inside && pieces != [] && found[0] == pieces[0]))
  }

  // What one piece does to the collection.
  lemma Collects(crc: Crc, file: Bytes, pos: nat, inside: bool, scratch: Bytes, pieces: seq<Piece>, t: Byte, payload: Bytes)
    returns (now: seq<Piece>)
    requires Collected(crc, file, pos, inside, scratch, pieces) && Stands(crc, file, Start(pos), t, payload)
    ensures now == if t == FULL_TYPE || t == FIRST_TYPE then [Piece(Start(pos), payload)]
                   else if inside && (t == MIDDLE_TYPE || t == LAST_TYPE) then pieces + [Piece(Start(pos), payload)] else []
    ensures match Assemble(t, payload, inside, scratch)
            case Complete(record, _) =>
              && Laid(crc, file, now, true) && Join(now) == record && End(now[|now| - 1]) == Start(pos) + HEADER_SIZE + |payload|
              && (now[0].at >= pos || (inside && pieces != [] && now[0] == pieces[0]))
            case Continue(i, s, _) =>
              && Collected(crc, file, Start(pos) + HEADER_SIZE + |payload|, i, s, now)
              && (i ==> now != [] && (now[0].at >= pos || (inside && pieces != [] && now[0] == pieces[0])))
            case Stop => true
  {
    hide Stands, Start, Laid, Join;
    var p := Piece(Start(pos), payload);
    now := [];
    if t == FULL_TYPE || t == FIRST_TYPE {
      OnePiece(crc, file, p, t == FULL_TYPE);
      now := [p];
    } else if inside && (t == MIDDLE_TYPE || t == LAST_TYPE) {
      LaidSome(crc, file, pieces, false);
      PieceMore(crc, file, pieces, p, t == LAST_TYPE);
      now := pieces + [p];
    }
  }

  lemma LaidSome(crc: Crc, file: Bytes, pieces: seq<Piece>, complete: bool)
    ensures Laid(crc, file, pieces, complete) ==> pieces != []
  {
  }

  lemma {:induction false} FoundStands(crc: Crc, file: Bytes, pos: nat, inside: bool, scratch: Bytes, pieces: seq<Piece>)
    returns (found: seq<Piece>)
    requires pos <= |file| && Collected(crc, file, pos, inside, scratch, pieces)
    ensures FoundAt(crc, file, pos, ReadLogical(crc, file, pos, inside, scratch), inside, pieces, found)
    decreases |file| - pos
  {
    hide Stands, Start, Laid, Join, ReadPhysical, Assemble, Collected;
    PhysicalIff(crc, file, pos);
    found := [];
    match ReadPhysical(crc, file, pos)
    case Eof =>
    case Bad(_, next) =>
      BadCollects(crc, file, pos, next, inside, scratch, pieces);
      var o := Assemble(BAD_RECORD_CODE, [], inside, scratch);
      found := FoundStands(crc, file, next, o.inside, o.scratch, []);
    case Record(t, payload, next) =>
      var now := Collects(crc, file, pos, inside, scratch, pieces, t, payload);
      match Assemble(t, payload, inside, scratch)
      case Complete(_, _) => found := now;
      case Stop =>
      case Continue(i, s, _) => found := FoundStands(crc, file, next, i, s, now);
  }

  lemma BadCollects(crc: Crc, file: Bytes, pos: nat, next: nat, inside: bool, scratch: Bytes, pieces: seq<Piece>)
    ensures var o := Assemble(BAD_RECORD_CODE, [], inside, scratch);
            o.Continue? && !o.inside && Collected(crc, file, next, o.inside, o.scratch, [])
  {
  }

  // Whatever the file holds, every record read is in it piece by piece, as the writer emits
  // the fragments of a record, and each behind the one before.
  lemma {:induction false} RecordsStand(crc: Crc, file: Bytes, pos: nat) returns (places: seq<seq<Piece>>)
    requires pos <= |file|
    ensures |places| == |ReadAll(crc, file, pos).0|
    ensures forall i | 0 <= i < |places| :: Laid(crc, file, places[i], true) && Join(places[i]) == ReadAll(crc, file, pos).0[i]
    ensures forall i | 0 <= i < |places| :: places[i] != [] && places[i][0].at >= pos
    ensures forall i | 0 <= i < |places| - 1 :: End(places[i][|places[i]| - 1]) <= places[i + 1][0].at
    decreases |file| - pos
  {
    hide Laid, Join, ReadLogical;
    ReadAllStep(crc, file, pos);
    assert Collected(crc, file, pos, false, [], []);
    var found := FoundStands(crc, file, pos, false, [], []);
    match ReadLogical(crc, file, pos, false, [])
    case End(_) => places := [];
    case Found(_, next, _) =>
      LaidSome(crc, file, found, true);
      var rest := RecordsStand(crc, file, next);
      places := [found] + rest;
  }

  // ---------- nothing is left out in silence

  // What the reader passes over without a report: a block whose header is zero, an empty first
  // or middle fragment, and a record with the code it has for bad ones.
  ghost predicate SilentStep(crc: Crc, file: Bytes, a: nat, b: nat) {
    var s := Start(a);
    && a < b <= |file| && s + HEADER_SIZE <= |file|
    && (|| (TypeAt(file, s) == ZERO_TYPE && LengthAt(file, s) == 0 && b == Min(BlockEnd(s), |file|))
        || (b == s + HEADER_SIZE && (Stands(crc, file, s, FIRST_TYPE, []) || Stands(crc, file, s, MIDDLE_TYPE, [])))
        || (exists payload :: Stands(crc, file, s, BAD_RECORD_CODE, payload) && b == s + HEADER_SIZE + |payload|))
  }

  ghost predicate SilentRun(crc: Crc, file: Bytes, from: nat, to: nat, stops: seq<nat>) {
    && stops != [] && stops[0] == from && stops[|stops| - 1] == to
    && forall i | 0 <= i < |stops| - 1 :: SilentStep(crc, file, stops[i], stops[i + 1])
  }

  lemma SilentMore(crc: Crc, file: Bytes, from: nat, to: nat, stops: seq<nat>, next: nat)
    requires SilentRun(crc, file, from, to, stops) && SilentStep(crc, file, to, next)
    ensures SilentRun(crc, file, from, next, stops + [next])
  {
    hide SilentStep;
  }

  // The reader came in silence from from to where the record at hand starts, and if that is
  // empty so far, or there is none, to pos.
  ghost predicate Quiet(crc: Crc, file: Bytes, from: nat, pos: nat, inside: bool, scratch: Bytes, pieces: seq<Piece>,
                        stops: seq<nat>, start: nat) {
    && (inside ==> pieces != [] && Start(start) == pieces[0].at && SilentRun(crc, file, from, start, stops))
    && (!inside ==> SilentRun(crc, file, from, pos, stops) && start == pos)
  }

  lemma {:induction false} FoundInSilence(crc: Crc, file: Bytes, from: nat, pos: nat, inside: bool, scratch: Bytes,
                                          pieces: seq<Piece>, stops: seq<nat>, start: nat, idle: seq<nat>)
    returns (found: seq<Piece>, way: seq<nat>, at: nat)
    requires pos <= |file| && Collected(crc, file, pos, inside, scratch, pieces)
    requires Quiet(crc, file, from, pos, inside, scratch, pieces, stops, start)
    requires !inside || scratch == [] ==> SilentRun(crc, file, from, pos, idle)
    requires ReadLogical(crc, file, pos, inside, scratch).drops == 0
    ensures FoundAt(crc, file, pos, ReadLogical(crc, file, pos, inside, scratch), inside, pieces, found)
    ensures ReadLogical(crc, file, pos, inside, scratch).Found? ==>
              found != [] && SilentRun(crc, file, from, at, way) && Start(at) == found[0].at
    decreases |file| - pos
  {
    hide Stands, Start, Laid, Join, ReadPhysical, Collected, SilentRun, SilentStep;
    PhysicalIff(crc, file, pos);
    found, way, at := [], stops, start;
    match ReadPhysical(crc, file, pos)
    case Eof =>
    case Bad(_, next) =>
      BadCollects(crc, file, pos, next, inside, scratch, pieces);
      var o := Assemble(BAD_RECORD_CODE, [], inside, scratch);
      ZeroIsSilent(crc, file, pos);
      SilentMore(crc, file, from, pos, idle, next);
      found, way, at := FoundInSilence(crc, file, from, next, o.inside, o.scratch, [], idle + [next], next, idle + [next]);
    case Record(t, payload, next) =>
      var now := Collects(crc, file, pos, inside, scratch, pieces, t, payload);
      LaidSome(crc, file, now, true);
      match Assemble(t, payload, inside, scratch) {
        case Complete(_, _) =>
          found := now;
          if t == FULL_TYPE {
            way, at := idle, pos;
          }
        case Stop =>
        case Continue(i, s, _) =>
          var further := idle;
          if s == [] || !i {
            EmptyIsSilent(crc, file, pos, t, payload, next);
            SilentMore(crc, file, from, pos, idle, next);
            further := idle + [next];
          }
          if !i {
            found, way, at := FoundInSilence(crc, file, from, next, i, s, now, further, next, further);
          } else if t == FIRST_TYPE {
            found, way, at := FoundInSilence(crc, file, from, next, i, s, now, idle, pos, further);
          } else {
            found, way, at := FoundInSilence(crc, file, from, next, i, s, now, stops, start, further);
          }
      }
  }

  lemma ZeroIsSilent(crc: Crc, file: Bytes, pos: nat)
    requires pos <= |file|
    ensures var p := ReadPhysical(crc, file, pos); p.Bad? && !p.reported ==> SilentStep(crc, file, pos, p.next)
  {
    hide Stands, ReadPhysical, Start;
    PhysicalIff(crc, file, pos);
  }

  lemma EmptyIsSilent(crc: Crc, file: Bytes, pos: nat, t: Byte, payload: Bytes, next: nat)
    requires pos <= Start(pos) && next == Start(pos) + HEADER_SIZE + |payload| <= |file| && Stands(crc, file, Start(pos), t, payload)
    requires ((t == FIRST_TYPE || t == MIDDLE_TYPE) && payload == []) || t == BAD_RECORD_CODE
    ensures SilentStep(crc, file, pos, next)
  {
    hide Stands, Start;
  }

  // A record returned: its pieces, and the silent steps that lead to them from where the
  // reader stood.
  datatype Reading = Reading(from: nat, way: seq<nat>, at: nat, pieces: seq<Piece>)

  ghost predicate Reached(crc: Crc, file: Bytes, r: Reading) {
    && r.pieces != [] && Laid(crc, file, r.pieces, true)
    && SilentRun(crc, file, r.from, r.at, r.way) && Start(r.at) == r.pieces[0].at
  }

  function Behind(r: Reading): nat {
    if r.pieces == [] then r.from else End(r.pieces[|r.pieces| - 1])
  }

  lemma FirstInSilence(crc: Crc, file: Bytes, pos: nat) returns (reading: Reading)
    requires pos <= |file| && ReadLogical(crc, file, pos, false, []).drops == 0
    ensures var r := ReadLogical(crc, file, pos, false, []);
            r.Found? ==>
              Reached(crc, file, reading) && reading.from == pos && Join(reading.pieces) == r.record && Behind(reading) == r.next
  {
    hide Laid, Join, ReadLogical, SilentStep, Start;
    assert SilentRun(crc, file, pos, pos, [pos]);
    hide SilentRun;
    var found, way, at := FoundInSilence(crc, file, pos, pos, false, [], [], [pos], pos, [pos]);
    reading := Reading(pos, way, at, found);
  }

  // When nothing is reported, the reader goes from each record returned to the next one, and
  // to the first one from the start, in silent steps only.
  lemma {:induction false} NothingMissed(crc: Crc, file: Bytes, pos: nat) returns (readings: seq<Reading>)
    requires pos <= |file| && ReadAll(crc, file, pos).1 == 0
    ensures |readings| == |ReadAll(crc, file, pos).0| && (readings != [] ==> readings[0].from == pos)
    ensures forall i | 0 <= i < |readings| ::
              Reached(crc, file, readings[i]) && Join(readings[i].pieces) == ReadAll(crc, file, pos).0[i]
    ensures forall i | 0 <= i < |readings| - 1 :: readings[i + 1].from == Behind(readings[i])
    decreases |file| - pos
  {
    hide Reached, Join, ReadLogical, ReadAll, Behind;
    ReadAllStep(crc, file, pos);
    match ReadLogical(crc, file, pos, false, [])
    case End(_) => readings := [];
    case Found(_, next, _) =>
      var first := FirstInSilence(crc, file, pos);
      var rest := NothingMissed(crc, file, next);
      readings := [first] + rest;
  }

  // ---------- where damage ends

  // What is still read from pos on, with the fragments collected so far.
  function ReadRest(crc: Crc, file: Bytes, pos: nat, inside: bool, scratch: Bytes): (seq<Bytes>, nat)
    requires pos <= |file|
  {
    match ReadLogical(crc, file, pos, inside, scratch)
    case End(drops) => ([], drops)
    case Found(record, next, drops) =>
      var rest := ReadAll(crc, file, next);
      ([record] + rest.0, drops + rest.1)
  }

  lemma RestIsAll(crc: Crc, file: Bytes, pos: nat)
    requires pos <= |file|
    ensures ReadRest(crc, file, pos, false, []) == ReadAll(crc, file, pos)
  {
    hide ReadLogical;
    ReadAllStep(crc, file, pos);
  }

  // One physical record further.
  lemma RestStep(crc: Crc, file: Bytes, pos: nat, inside: bool, scratch: Bytes)
    requires pos <= |file|
    ensures var p := ReadPhysical(crc, file, pos);
            var all := ReadRest(crc, file, pos, inside, scratch);
            match Assemble(CodeOf(p), FragmentOf(p), inside, scratch)
            case Complete(record, drops) =>
              p.Record? && all == ([record] + ReadRest(crc, file, p.next, false, []).0, drops + ReadRest(crc, file, p.next, false, []).1)
            case Stop => all == ([], 0)
            case Continue(i, s, drops) =>
              && !p.Eof? && all.0 == ReadRest(crc, file, p.next, i, s).0
              && all.1 == ReadRest(crc, file, p.next, i, s).1 + drops + Reported(p)
  {
    hide ReadPhysical, ReadAll;
    var p := ReadPhysical(crc, file, pos);
    if p.Record? {
      hide ReadLogical;
      RestIsAll(crc, file, p.next);
      LogicalStep(crc, file, pos, inside, scratch, ReadLogical(crc, file, pos, inside, scratch), 0);
      NoDrops(ReadLogical(crc, file, pos, inside, scratch));
    }
  }

  // No physical record with the type that the reader takes for the end of the file.
  ghost predicate NoFalseEnd(crc: Crc, file: Bytes, lo: nat, hi: nat) {
    forall s, payload | lo <= s < hi :: !Stands(crc, file, s, EOF_CODE, payload)
  }

  // Reading never goes past the end of a block without stopping there, whatever it holds.
  lemma {:induction false} PassesBoundary(crc: Crc, file: Bytes, pos: nat, hi: nat, inside: bool, scratch: Bytes)
    returns (mid: seq<Bytes>, inside': bool, scratch': Bytes)
    requires pos <= hi <= |file| && hi % BLOCK_SIZE == 0 && NoFalseEnd(crc, file, pos, hi)
    ensures ReadRest(crc, file, pos, inside, scratch).0 == mid + ReadRest(crc, file, hi, inside', scratch').0
    ensures ReadRest(crc, file, pos, inside, scratch).1 >= ReadRest(crc, file, hi, inside', scratch').1
    decreases hi - pos
  {
    hide ReadRest, ReadPhysical, Stands, Assemble, Start;
    mid, inside', scratch' := [], inside, scratch;
    if pos < hi {
      PhysicalIff(crc, file, pos);
      BlocksEnd(pos, hi);
      if Start(pos) == hi {
        SameRest(crc, file, pos, inside, scratch);
      } else {
        RestStep(crc, file, pos, inside, scratch);
        var p := ReadPhysical(crc, file, pos);
        StandsEnds(crc, file, pos, p);
        AssembleStops(p, inside, scratch);
        match Assemble(CodeOf(p), FragmentOf(p), inside, scratch)
        case Complete(record, _) =>
          mid, inside', scratch' := PassesBoundary(crc, file, p.next, hi, false, []);
          mid := [record] + mid;
        case Continue(i, s, _) =>
          mid, inside', scratch' := PassesBoundary(crc, file, p.next, hi, i, s);
      }
    }
  }

  lemma AssembleStops(p: PhysicalResult, inside: bool, scratch: Bytes)
    ensures Assemble(CodeOf(p), FragmentOf(p), inside, scratch).Stop? <==> p.Eof? || (p.Record? && p.t == EOF_CODE)
  {
  }

  lemma BlocksEnd(pos: nat, hi: nat)
    requires pos < hi && hi % BLOCK_SIZE == 0
    ensures pos <= Start(pos) <= hi
    ensures Start(pos) < hi ==> Start(pos) + HEADER_SIZE <= BlockEnd(Start(pos)) <= hi
  {
  }

  lemma StandsEnds(crc: Crc, file: Bytes, pos: nat, p: PhysicalResult)
    requires pos <= |file| && p == ReadPhysical(crc, file, pos)
    ensures p.Record? ==> Stands(crc, file, Start(pos), p.t, p.payload) && p.next <= BlockEnd(Start(pos))
  {
    hide Stands, ReadPhysical;
    PhysicalIff(crc, file, pos);
    if p.Record? {
      StandsInBlock(crc, file, Start(pos), p.t, p.payload);
    }
  }

  lemma SameRest(crc: Crc, file: Bytes, pos: nat, inside: bool, scratch: Bytes)
    requires pos <= Start(pos) <= |file|
    ensures ReadRest(crc, file, pos, inside, scratch) == ReadRest(crc, file, Start(pos), inside, scratch)
  {
    hide ReadPhysical, Trailer, ReadAll;
    TrailerIsSkipped(crc, file, pos);
  }

  // What is written from a block boundary on is the rest of a record.
  lemma {:induction false} EmittedAtBoundary(crc: Crc, pos: nat, data: Bytes, begin: bool, hi: nat) returns (k: nat)
    requires Start(pos) < hi < pos + |Emitted(crc, pos, data, begin)| && hi % BLOCK_SIZE == 0
    ensures k <= |data| && Emitted(crc, pos, data, begin)[hi - pos..] == Emitted(crc, hi, data[k..], false)
    decreases |data|, if pos % BLOCK_SIZE == BLOCK_SIZE - HEADER_SIZE then 1 else 0
  {
    hide Emitted, Trailer, First, Start;
    EmittedSplits(crc, pos, data, begin);
    FragmentInBlock(pos, data, hi);
    var n, next := Taken(pos, data), Next(pos, data);
    var head, tail := Trailer(pos) + First(crc, pos, data, begin), Rest(crc, pos, data);
    FirstEnds(crc, pos, data, begin);
    assert Emitted(crc, pos, data, begin) == head + tail;
    assert n < |data|;
    LaterFragmentIsSmaller(pos, data);
    if next == hi {
      k := n;
    } else {
      var j := EmittedAtBoundary(crc, next, data[n..], false, hi);
      k := n + j;
      assert data[n..][j..] == data[k..];
      assert (head + tail)[hi - pos..] == tail[hi - next..];
    }
  }

  lemma FragmentInBlock(pos: nat, data: Bytes, hi: nat)
    requires Start(pos) < hi && hi % BLOCK_SIZE == 0
    ensures Next(pos, data) <= hi
    ensures Next(pos, data) % BLOCK_SIZE == 0 && Next(pos, data) < hi ==> Start(Next(pos, data)) < hi
  {
    hide Taken, Start;
    BlocksEnd(pos, hi);
    EndOfBlock(Start(pos));
    if Next(pos, data) % BLOCK_SIZE == 0 {
      StartIsAligned(Next(pos, data));
    }
  }

  lemma FirstEnds(crc: Crc, pos: nat, data: Bytes, begin: bool)
    ensures |Trailer(pos) + First(crc, pos, data, begin)| == Next(pos, data) - pos
    ensures |Rest(crc, pos, data)| == 0 <==> Taken(pos, data) == |data|
  {
    hide Physical, Taken;
    if Taken(pos, data) < |data| {
      EmittedSplits(crc, Next(pos, data), data[Taken(pos, data)..], false);
    }
  }

  // The last fragments of a record, read after anything at all.
  lemma {:induction false} ReadsTail(crc: Crc, file: Bytes, pos: nat, data: Bytes, inside: bool, scratch: Bytes)
    returns (mid: seq<Bytes>, inside': bool, scratch': Bytes)
    requires HoldsAll(file, pos, Emitted(crc, pos, data, false))
    ensures ReadRest(crc, file, pos, inside, scratch).0
         == mid + ReadRest(crc, file, pos + |Emitted(crc, pos, data, false)|, inside', scratch').0
    decreases |data|, if pos % BLOCK_SIZE == BLOCK_SIZE - HEADER_SIZE then 1 else 0
  {
    hide Emitted, ReadPhysical, Taken, Next, Start, ReadRest, Rest;
    EmittedSplits(crc, pos, data, false);
    HeldWhole(crc, file, pos, data, false);
    ReadsOneFragment(crc, file, pos, data, false);
    RestStep(crc, file, pos, inside, scratch);
    var n, next := Taken(pos, data), Next(pos, data);
    var o := Assemble(FragmentType(false, n == |data|), data[..n], inside, scratch);
    if o.Complete? {
      FirstEnds(crc, pos, data, false);
      assert n == |data|;
      mid, inside', scratch' := [o.record], false, [];
    } else if n == |data| {
      FirstEnds(crc, pos, data, false);
      mid, inside', scratch' := [], o.inside, o.scratch;
    } else {
      LaterFragmentIsSmaller(pos, data);
      RestMeans(crc, pos, data);
      mid, inside', scratch' := ReadsTail(crc, file, next, data[n..], o.inside, o.scratch);
    }
  }

  lemma RestMeans(crc: Crc, pos: nat, data: Bytes)
    requires Taken(pos, data) < |data|
    ensures Rest(crc, pos, data) == Emitted(crc, Next(pos, data), data[Taken(pos, data)..], false)
  {
  }

  ghost predicate HoldsAll(file: Bytes, pos: nat, part: Bytes) {
    pos + |part| <= |file| && file[pos..pos + |part|] == part
  }

  lemma HeldWhole(crc: Crc, file: Bytes, pos: nat, data: Bytes, begin: bool)
    requires HoldsAll(file, pos, Emitted(crc, pos, data, begin))
    ensures HoldsPrefix(file, pos, Emitted(crc, pos, data, begin)) && Next(pos, data) <= |file|
    ensures HoldsAll(file, Next(pos, data), Rest(crc, pos, data))
  {
    hide Emitted, Taken, Rest, First, Trailer;
    EmittedSplits(crc, pos, data, begin);
    FirstEnds(crc, pos, data, begin);
    var e := Emitted(crc, pos, data, begin);
    var head, tail := Trailer(pos) + First(crc, pos, data, begin), Rest(crc, pos, data);
    assert e == head + tail;
    assert file[pos..][..|e|] == file[pos..pos + |e|];
    assert file[pos + |head|..pos + |e|] == file[pos..pos + |e|][|head|..] == tail;
  }

  // A record that starts here is read whatever came before it.
  lemma StartsAfresh(crc: Crc, file: Bytes, pos: nat, data: Bytes, inside: bool, scratch: Bytes)
    requires HoldsAll(file, pos, Emitted(crc, pos, data, true))
    ensures var next := pos + |Emitted(crc, pos, data, true)|;
            && ReadRest(crc, file, pos, inside, scratch).0 == [data] + ReadAll(crc, file, next).0
            && ReadAll(crc, file, pos) == ([data] + ReadAll(crc, file, next).0, ReadAll(crc, file, next).1)
  {
    hide Emitted, ReadPhysical, Taken, Next, Start, Rest, ReadAll;
    HeldWhole(crc, file, pos, data, true);
    ReadsOneFragment(crc, file, pos, data, true);
    ReadsFragments(crc, file, pos, data, true, []);
    assert [] + data == data;
    RestIsAll(crc, file, pos);
    hide ReadRest, ReadLogical;
    RestStep(crc, file, pos, inside, scratch);
    RestStep(crc, file, pos, false, []);
    RestIsRead(crc, file, pos);
  }

  lemma RestIsRead(crc: Crc, file: Bytes, pos: nat)
    requires pos <= |file|
    ensures match ReadLogical(crc, file, pos, false, [])
            case End(drops) => ReadRest(crc, file, pos, false, []) == ([], drops)
            case Found(record, next, drops) =>
              ReadRest(crc, file, pos, false, []) == ([record] + ReadAll(crc, file, next).0, drops + ReadAll(crc, file, next).1)
  {
  }

  // Where record i was written.
  function PlaceOf(crc: Crc, records: seq<Bytes>, i: nat): nat
    requires i <= |records|
  {
    |Written(crc, records[..i])|
  }

  // The file holds record i as it was written.
  ghost predicate Intact(crc: Crc, records: seq<Bytes>, file: Bytes, i: nat)
    requires i < |records|
  {
    HoldsAll(file, PlaceOf(crc, records, i), Emitted(crc, PlaceOf(crc, records, i), records[i], true))
  }

  lemma NextPlace(crc: Crc, records: seq<Bytes>, i: nat)
    requires i < |records|
    ensures PlaceOf(crc, records, i + 1) == PlaceOf(crc, records, i) + |Emitted(crc, PlaceOf(crc, records, i), records[i], true)|
    ensures PlaceOf(crc, records, i) < PlaceOf(crc, records, i + 1) <= |Written(crc, records)|
  {
    hide Emitted, Written, Next, Rest;
    RecordIsAt(crc, records, i);
    EmittedSplits(crc, PlaceOf(crc, records, i), records[i], true);
    StartIsLater(PlaceOf(crc, records, i), records[i]);
  }

  lemma StartIsLater(pos: nat, data: Bytes)
    ensures Next(pos, data) > pos
  {
  }

  lemma SliceOfTake(s: Bytes, lo: nat, a: nat, b: nat)
    requires a <= b <= lo <= |s|
    ensures s[..lo][a..b] == s[a..b]
  {
  }

  lemma SliceOfDrop(s: Bytes, hi: nat, a: nat, b: nat)
    requires hi <= a <= b <= |s|
    ensures s[hi..][a - hi..b - hi] == s[a..b]
  {
    var d := s[hi..];
    forall k | 0 <= k < b - a ensures d[a - hi..b - hi][k] == s[a..b][k] {
      assert d[a - hi + k] == s[a + k];
    }
  }

  lemma SameIsIntact(crc: Crc, records: seq<Bytes>, file: Bytes, i: nat, lo: nat, hi: nat)
    requires i < |records| && |file| == |Written(crc, records)| && lo <= hi <= |file|
    requires file[..lo] == Written(crc, records)[..lo] && file[hi..] == Written(crc, records)[hi..]
    requires PlaceOf(crc, records, i + 1) <= lo || hi <= PlaceOf(crc, records, i)
    ensures Intact(crc, records, file, i)
  {
    hide Emitted, Written;
    RecordIsAt(crc, records, i);
    var all, a, b := Written(crc, records), PlaceOf(crc, records, i), PlaceOf(crc, records, i + 1);
    if b <= lo {
      SliceOfTake(file, lo, a, b);
      SliceOfTake(all, lo, a, b);
    } else {
      SliceOfDrop(file, hi, a, b);
      SliceOfDrop(all, hi, a, b);
    }
  }

  lemma {:induction false} ReadsUpTo(crc: Crc, records: seq<Bytes>, file: Bytes, i: nat, n: nat)
    requires i + n <= |records| && PlaceOf(crc, records, i + n) <= |file|
    requires forall m | i <= m < i + n :: Intact(crc, records, file, m)
    ensures PlaceOf(crc, records, i) <= |file|
    ensures var (from, rest) := (ReadAll(crc, file, PlaceOf(crc, records, i)), ReadAll(crc, file, PlaceOf(crc, records, i + n)));
            from.0 == records[i..i + n] + rest.0 && from.1 == rest.1
    decreases n
  {
    hide Emitted, Written, ReadAll, PlaceOf;
    if n == 0 {
      assert records[i..i] == [];
    } else {
      NextPlace(crc, records, i);
      ReadsUpTo(crc, records, file, i + 1, n - 1);
      assert Intact(crc, records, file, i);
      StartsAfresh(crc, file, PlaceOf(crc, records, i), records[i], false, []);
      assert records[i..i + n] == [records[i]] + records[i + 1..i + n];
    }
  }

  lemma PlaceOfAll(crc: Crc, records: seq<Bytes>)
    ensures PlaceOf(crc, records, |records|) == |Written(crc, records)| && PlaceOf(crc, records, 0) == 0
  {
    assert records[..|records|] == records;
  }

  lemma NothingLeft(crc: Crc, file: Bytes, inside: bool, scratch: Bytes)
    ensures ReadRest(crc, file, |file|, inside, scratch) == ([], 0) && ReadAll(crc, file, |file|) == ([], 0)
  {
    EndOfFile(crc, file);
    hide ReadLogical;
    PhysicalIff(crc, file, |file|);
    RestStep(crc, file, |file|, inside, scratch);
  }

  // From the boundary on, the records that start behind it are read.
  lemma ReadsBehind(crc: Crc, records: seq<Bytes>, file: Bytes, hi: nat, j: nat, inside: bool, scratch: Bytes)
    returns (mid: seq<Bytes>)
    requires |file| == |Written(crc, records)| && hi <= |file| && hi % BLOCK_SIZE == 0 && j <= |records|
    requires file[hi..] == Written(crc, records)[hi..]
    requires hi <= PlaceOf(crc, records, j) && (j > 0 ==> PlaceOf(crc, records, j - 1) < hi)
    ensures ReadRest(crc, file, hi, inside, scratch).0 == mid + records[j..]
  {
    hide Emitted, Written, ReadAll, PlaceOf, ReadRest, Start;
    PlaceOfAll(crc, records);
    var in', sc', at := inside, scratch, PlaceOf(crc, records, j);
    mid := [];
    if hi < at {
      NextPlace(crc, records, j - 1);
      mid, in', sc' := ReadsStraddler(crc, records, file, hi, j, inside, scratch);
    }
    if j < |records| {
      SameIsIntact(crc, records, file, j, 0, hi);
      StartsAfresh(crc, file, at, records[j], in', sc');
      ReadsOnward(crc, records, file, hi, j);
    } else {
      NothingLeft(crc, file, in', sc');
    }
  }

  lemma ReadsOnward(crc: Crc, records: seq<Bytes>, file: Bytes, hi: nat, j: nat)
    requires |file| == |Written(crc, records)| && hi <= |file| && j <= |records|
    requires file[hi..] == Written(crc, records)[hi..] && hi <= PlaceOf(crc, records, j)
    ensures PlaceOf(crc, records, j) <= |file| && ReadAll(crc, file, PlaceOf(crc, records, j)) == (records[j..], 0)
  {
    hide Emitted, Written, ReadAll, PlaceOf, Intact;
    PlaceOfAll(crc, records);
    forall m | j <= m < |records| ensures Intact(crc, records, file, m) {
      PlacesGrow(crc, records, j, m);
      SameIsIntact(crc, records, file, m, 0, hi);
    }
    ReadsUpTo(crc, records, file, j, |records| - j);
    NothingLeft(crc, file, false, []);
    assert records[j..j + (|records| - j)] + [] == records[j..];
  }

  lemma {:induction false} PlacesGrow(crc: Crc, records: seq<Bytes>, i: nat, j: nat)
    requires i <= j <= |records|
    ensures PlaceOf(crc, records, i) <= PlaceOf(crc, records, j)
  {
    hide PlaceOf;
    if i < j {
      PlacesGrow(crc, records, i, j - 1);
      NextPlace(crc, records, j - 1);
    }
  }

  // The record that reaches over the boundary, or starts right at it behind a trailer.
  lemma ReadsStraddler(crc: Crc, records: seq<Bytes>, file: Bytes, hi: nat, j: nat, inside: bool, scratch: Bytes)
    returns (mid: seq<Bytes>, inside': bool, scratch': Bytes)
    requires |file| == |Written(crc, records)| && hi <= |file| && hi % BLOCK_SIZE == 0 && 0 < j <= |records|
    requires file[hi..] == Written(crc, records)[hi..]
    requires PlaceOf(crc, records, j - 1) < hi < PlaceOf(crc, records, j) <= |file|
    ensures ReadRest(crc, file, hi, inside, scratch).0 == mid + ReadRest(crc, file, PlaceOf(crc, records, j), inside', scratch').0
  {
    hide Emitted, Written, ReadAll, PlaceOf, ReadRest, Start;
    var pos, data := PlaceOf(crc, records, j - 1), records[j - 1];
    NextPlace(crc, records, j - 1);
    PlaceIs(crc, records, j - 1);
    var e := Emitted(crc, pos, data, true);
    assert file[hi..pos + |e|] == e[hi - pos..] by {
      RecordIsAt(crc, records, j - 1);
      var all := Written(crc, records);
      assert file[hi..pos + |e|] == file[hi..][..pos + |e| - hi] == all[hi..pos + |e|];
      assert all[hi..pos + |e|] == all[pos..pos + |e|][hi - pos..];
    }
    BlocksEnd(pos, hi);
    if Start(pos) == hi {
      EmittedFromStart(crc, pos, data);
      StartsAfresh(crc, file, hi, data, inside, scratch);
      RestIsAll(crc, file, pos + |e|);
      mid, inside', scratch' := [data], false, [];
    } else {
      var k := EmittedAtBoundary(crc, pos, data, true, hi);
      mid, inside', scratch' := ReadsTail(crc, file, hi, data[k..], inside, scratch);
    }
  }

  lemma PlaceIs(crc: Crc, records: seq<Bytes>, i: nat)
    requires i <= |records|
    ensures PlaceOf(crc, records, i) == |Written(crc, records[..i])|
  {
  }

  lemma EmittedFromStart(crc: Crc, pos: nat, data: Bytes)
    ensures Emitted(crc, pos, data, true)[Start(pos) - pos..] == Emitted(crc, Start(pos), data, true)
    ensures pos + |Emitted(crc, pos, data, true)| == Start(pos) + |Emitted(crc, Start(pos), data, true)|
  {
    hide Emitted, Physical, FragmentType, FragmentLength;
    EmittedSplits(crc, pos, data, true);
    EmittedSplits(crc, Start(pos), data, true);
    assert Start(Start(pos)) == Start(pos) && Trailer(Start(pos)) == [];
    var rest := First(crc, pos, data, true) + Rest(crc, pos, data);
    assert (Trailer(pos) + rest)[|Trailer(pos)|..] == rest;
  }

  // Bytes changed from lo to the block boundary hi cost no record that was written before lo
  // or starts behind hi, unless they look like the type the reader takes for the end.
  lemma DamageIsConfined(crc: Crc, records: seq<Bytes>, file: Bytes, lo: nat, hi: nat, i: nat, j: nat)
    returns (mid: seq<Bytes>)
    requires |file| == |Written(crc, records)| && lo <= hi <= |file| && hi % BLOCK_SIZE == 0
    requires file[..lo] == Written(crc, records)[..lo] && file[hi..] == Written(crc, records)[hi..]
    requires i <= j <= |records| && PlaceOf(crc, records, i) <= lo && hi <= PlaceOf(crc, records, j)
    requires NoFalseEnd(crc, file, PlaceOf(crc, records, i), hi)
    ensures ReadAll(crc, file, 0).0 == records[..i] + mid + records[j..]
  {
    hide Emitted, Written, ReadAll, ReadRest, PlaceOf, NoFalseEnd, Intact;
    PlaceOfAll(crc, records);
    forall m | 0 <= m < i ensures Intact(crc, records, file, m) {
      PlacesGrow(crc, records, m + 1, i);
      SameIsIntact(crc, records, file, m, lo, hi);
    }
    ReadsUpTo(crc, records, file, 0, i);
    assert records[0..i] == records[..i];
    var at := PlaceOf(crc, records, i);
    RestIsAll(crc, file, at);
    var first := FirstBehind(crc, records, hi, j);
    var in', sc';
    mid, in', sc' := PassesBoundary(crc, file, at, hi, false, []);
    var behind := ReadsBehind(crc, records, file, hi, first, in', sc');
    assert records[first..] == records[first..j] + records[j..];
    mid := mid + (behind + records[first..j]);
  }

  lemma {:induction false} FirstBehind(crc: Crc, records: seq<Bytes>, hi: nat, j: nat) returns (first: nat)
    requires j <= |records| && hi <= PlaceOf(crc, records, j)
    ensures first <= j && hi <= PlaceOf(crc, records, first) && (first > 0 ==> PlaceOf(crc, records, first - 1) < hi)
  {
    first := j;
    if j > 0 && hi <= PlaceOf(crc, records, j - 1) {
      first := FirstBehind(crc, records, hi, j - 1);
    }
  }

  // ---------- damage is reported

  // What stands behind the header at s is there in full, and is no physical record.
  ghost predicate DamagedAt(crc: Crc, file: Bytes, s: nat) {
    && s + HEADER_SIZE <= |file|
    && (BlockEnd(s) <= |file| || s + HEADER_SIZE + LengthAt(file, s) <= |file|)
    && !(TypeAt(file, s) == ZERO_TYPE && LengthAt(file, s) == 0)
    && forall t, payload :: !Stands(crc, file, s, t, payload)
  }

  lemma DamageIsBad(crc: Crc, file: Bytes, pos: nat, inside: bool, scratch: Bytes)
    requires pos <= |file| && DamagedAt(crc, file, Start(pos))
    ensures ReadRest(crc, file, pos, inside, scratch).1 >= 1
  {
    hide ReadPhysical, ReadRest, Stands, Start;
    PhysicalIff(crc, file, pos);
    RestStep(crc, file, pos, inside, scratch);
  }

  // A damaged fragment is reported, be it the first of a record, with everything intact before
  // it, or a later one, at the start of a block; and the records before it are read.
  lemma DamageIsReported(crc: Crc, records: seq<Bytes>, file: Bytes, i: nat, s: nat)
    requires i < |records| && PlaceOf(crc, records, i) <= s <= |file| <= |Written(crc, records)|
    requires file[..PlaceOf(crc, records, i)] == Written(crc, records)[..PlaceOf(crc, records, i)]
    requires DamagedAt(crc, file, s)
    requires s == Start(PlaceOf(crc, records, i)) || (s % BLOCK_SIZE == 0 && NoFalseEnd(crc, file, PlaceOf(crc, records, i), s))
    ensures ReadAll(crc, file, 0).1 >= 1 && records[..i] <= ReadAll(crc, file, 0).0
  {
    hide Emitted, Written, ReadAll, ReadRest, PlaceOf, NoFalseEnd, Intact, DamagedAt, Start;
    PlaceOfAll(crc, records);
    var at := PlaceOf(crc, records, i);
    forall m | 0 <= m < i ensures Intact(crc, records, file, m) {
      PlacesGrow(crc, records, m + 1, i);
      PrefixIsIntact(crc, records, file, m, at);
    }
    ReadsUpTo(crc, records, file, 0, i);
    assert records[0..i] == records[..i];
    RestIsAll(crc, file, at);
    if s == Start(at) {
      DamageIsBad(crc, file, at, false, []);
    } else {
      StartIsAligned(s);
      var mid, in', sc' := PassesBoundary(crc, file, at, s, false, []);
      DamageIsBad(crc, file, s, in', sc');
    }
  }

  lemma StartIsAligned(s: nat)
    requires s % BLOCK_SIZE == 0
    ensures Start(s) == s
  {
  }

  lemma PrefixIsIntact(crc: Crc, records: seq<Bytes>, file: Bytes, i: nat, lo: nat)
    requires i < |records| && lo <= |file| && lo <= |Written(crc, records)|
    requires file[..lo] == Written(crc, records)[..lo] && PlaceOf(crc, records, i + 1) <= lo
    ensures Intact(crc, records, file, i)
  {
    hide Emitted, Written;
    RecordIsAt(crc, records, i);
    var all, a, b := Written(crc, records), PlaceOf(crc, records, i), PlaceOf(crc, records, i + 1);
    SliceOfTake(file, lo, a, b);
    SliceOfTake(all, lo, a, b);
  }
}
