/**
 The records of a version edit in the manifest (db/version_edit).  Keys are encoded internal
 keys; the set of deleted files is kept in its iteration order.
 */
module VersionEdits {
  import opened Coding
  import opened Entries

  const TAG_COMPARATOR: nat := 1
  const TAG_LOG_NUMBER: nat := 2
  const TAG_NEXT_FILE: nat := 3
  const TAG_LAST_SEQUENCE: nat := 4
  const TAG_COMPACT_POINTER: nat := 5
  const TAG_DELETED_FILE: nat := 6
  const TAG_NEW_FILE: nat := 7
  const TAG_PREV_LOG_NUMBER: nat := 9

  datatype FileMeta = FileMeta(number: nat, size: nat, smallest: Bytes, largest: Bytes)

  datatype Edit = Edit(
    comparator: Option<Bytes>, logNumber: Option<nat>, prevLogNumber: Option<nat>,
    nextFile: Option<nat>, lastSequence: Option<nat>,
    pointers: seq<(nat, Bytes)>, deleted: seq<(nat, nat)>, added: seq<(nat, FileMeta)>)

  const EMPTY := Edit(None, None, None, None, None, [], [], [])

  datatype Record =
    | Comparator(name: Bytes) | LogNumber(n: nat) | PrevLogNumber(n: nat) | NextFile(n: nat) | LastSequence(n: nat)
    | Pointer(level: nat, key: Bytes) | Deleted(level: nat, n: nat) | NewFile(level: nat, file: FileMeta)

  // ---------- the deleted files, in the order of the set

  predicate FileLess(a: (nat, nat), b: (nat, nat)) {
    a.0 < b.0 || (a.0 == b.0 && a.1 < b.1)
  }

  ghost predicate Ordered(d: seq<(nat, nat)>) {
    forall i, j | 0 <= i < j < |d| :: FileLess(d[i], d[j])
  }

  function Insert(d: seq<(nat, nat)>, x: (nat, nat)): (r: seq<(nat, nat)>)
    ensures forall y :: y in r <==> y in d || y == x
  {
    if d == [] then [x]
    else if d[|d| - 1] == x then d
    else if FileLess(d[|d| - 1], x) then d + [x]
    else Insert(d[..|d| - 1], x) + [d[|d| - 1]]
  }

  lemma {:induction false} InsertKeepsOrder(d: seq<(nat, nat)>, x: (nat, nat))
    requires Ordered(d)
    ensures Ordered(Insert(d, x))
  {
    if d != [] && d[|d| - 1] != x && !FileLess(d[|d| - 1], x) {
      InsertKeepsOrder(d[..|d| - 1], x);
      var r := Insert(d[..|d| - 1], x);
      forall i | 0 <= i < |r| ensures FileLess(r[i], d[|d| - 1]) {
        assert r[i] in r;
      }
    }
  }

  // ---------- records

  function RecordBytes(r: Record): Bytes {
    Varint(TagOf(r)) + BodyBytes(r)
  }

  function BodyBytes(r: Record): Bytes {
    match r
    case Comparator(name) => LengthPrefixed(name)
    case Pointer(level, key) => Varint(level) + LengthPrefixed(key)
    case Deleted(level, n) => Varint(level) + Varint(n)
    case NewFile(level, f) =>
      Varint(level) + (Varint(f.number) + (Varint(f.size) + (LengthPrefixed(f.smallest) + LengthPrefixed(f.largest))))
    case _ => Varint(r.n)
  }

  predicate Storable(r: Record) {
    match r
    case Comparator(name) => |name| < TWO32
    case Pointer(level, key) => level < NUM_LEVELS && |key| < TWO32
    case Deleted(level, n) => level < NUM_LEVELS && n < TWO64
    case NewFile(level, f) =>
      level < NUM_LEVELS && f.number < TWO64 && f.size < TWO64 && |f.smallest| < TWO32 && |f.largest| < TWO32
    case _ => r.n < TWO64
  }

  function GetLevel(b: Bytes): (r: Parsed<nat>)
    ensures r.Parsed? ==> |r.rest| < |b| && r.value < NUM_LEVELS
  {
    var r := GetVarint32(b);
    if r.Parsed? && r.value < NUM_LEVELS then Parsed(r.value, r.rest) else Failed
  }

  function ReadNumber(b: Bytes, make: nat -> Record): (r: Parsed<Record>)
    ensures r.Parsed? ==> |r.rest| < |b|
  {
    match GetVarint64(b)
    case Failed => Failed
    case Parsed(n, rest) => Parsed(make(n), rest)
  }

  // The record behind a tag.
  function ReadRecord(tag: nat, b: Bytes): (r: Parsed<Record>)
    ensures r.Parsed? ==> |r.rest| < |b|
  {
    if tag == TAG_COMPARATOR then
      match GetLengthPrefixed(b)
      case Failed => Failed
      case Parsed(name, rest) => Parsed(Comparator(name), rest)
    else if tag == TAG_LOG_NUMBER then ReadNumber(b, (n: nat) => LogNumber(n))
    else if tag == TAG_PREV_LOG_NUMBER then ReadNumber(b, (n: nat) => PrevLogNumber(n))
    else if tag == TAG_NEXT_FILE then ReadNumber(b, (n: nat) => NextFile(n))
    else if tag == TAG_LAST_SEQUENCE then ReadNumber(b, (n: nat) => LastSequence(n))
    else if tag == TAG_COMPACT_POINTER then
      match GetLevel(b)
      case Failed => Failed
      case Parsed(level, b1) =>
        match GetLengthPrefixed(b1)
        case Failed => Failed
        case Parsed(key, rest) => Parsed(Pointer(level, key), rest)
    else if tag == TAG_DELETED_FILE then
      match GetLevel(b)
      case Failed => Failed
      case Parsed(level, b1) => ReadNumber(b1, (n: nat) => Deleted(level, n))
    else if tag == TAG_NEW_FILE then ReadNewFile(b)
    else Failed
  }

  function ReadNewFile(b: Bytes): (r: Parsed<Record>)
    ensures r.Parsed? ==> |r.rest| < |b|
  {
    match GetLevel(b)
    case Failed => Failed
    case Parsed(level, b1) =>
      match GetVarint64(b1)
      case Failed => Failed
      case Parsed(number, b2) =>
        match GetVarint64(b2)
        case Failed => Failed
        case Parsed(size, b3) =>
          match GetLengthPrefixed(b3)
          case Failed => Failed
          case Parsed(smallest, b4) =>
            match GetLengthPrefixed(b4)
            case Failed => Failed
            case Parsed(largest, rest) => Parsed(NewFile(level, FileMeta(number, size, smallest, largest)), rest)
  }

  lemma ReadsNewFile(level: nat, f: FileMeta, rest: Bytes)
    requires Storable(NewFile(level, f))
    ensures ReadNewFile(Varint(level) + (Varint(f.number) + (Varint(f.size)
                        + (LengthPrefixed(f.smallest) + (LengthPrefixed(f.largest) + rest)))))
            == Parsed(NewFile(level, f), rest)
  {
    hide GetVarint32, GetVarint64, GetLengthPrefixed, Varint, LengthPrefixed;
    var b4 := LengthPrefixed(f.largest) + rest;
    var b3 := LengthPrefixed(f.smallest) + b4;
    var b2 := Varint(f.size) + b3;
    var b1 := Varint(f.number) + b2;
    Varint32RoundTrip(level, b1);
    Varint64RoundTrip(f.number, b2);
    Varint64RoundTrip(f.size, b3);
    LengthPrefixedRoundTrip(f.smallest, b4);
    LengthPrefixedRoundTrip(f.largest, rest);
  }

  function TagOf(r: Record): (tag: nat)
    ensures tag < 16
  {
    match r
    case Comparator(_) => TAG_COMPARATOR
    case LogNumber(_) => TAG_LOG_NUMBER
    case PrevLogNumber(_) => TAG_PREV_LOG_NUMBER
    case NextFile(_) => TAG_NEXT_FILE
    case LastSequence(_) => TAG_LAST_SEQUENCE
    case Pointer(_, _) => TAG_COMPACT_POINTER
    case Deleted(_, _) => TAG_DELETED_FILE
    case NewFile(_, _) => TAG_NEW_FILE
  }

  lemma TagNumbers(r: Record)
    ensures r.Comparator? <==> TagOf(r) == 1
    ensures r.LogNumber? <==> TagOf(r) == 2
    ensures r.NextFile? <==> TagOf(r) == 3
    ensures r.LastSequence? <==> TagOf(r) == 4
    ensures r.Pointer? <==> TagOf(r) == 5
    ensures r.Deleted? <==> TagOf(r) == 6
    ensures r.NewFile? <==> TagOf(r) == 7
    ensures r.PrevLogNumber? <==> TagOf(r) == 9
  {
  }

  lemma ReadsBody(r: Record, rest: Bytes)
    requires Storable(r)
    ensures ReadRecord(TagOf(r), BodyBytes(r) + rest) == Parsed(r, rest)
  {
    hide GetVarint32, GetVarint64, GetLengthPrefixed, Varint, LengthPrefixed, ReadNewFile;
    var body := BodyBytes(r) + rest;
    match r
    case Comparator(name) => LengthPrefixedRoundTrip(name, rest);
    case Pointer(level, key) =>
      assert body == Varint(level) + (LengthPrefixed(key) + rest);
      Varint32RoundTrip(level, LengthPrefixed(key) + rest);
      LengthPrefixedRoundTrip(key, rest);
    case Deleted(level, n) =>
      assert body == Varint(level) + (Varint(n) + rest);
      Varint32RoundTrip(level, Varint(n) + rest);
      Varint64RoundTrip(n, rest);
    case NewFile(level, f) =>
      Regroup(Varint(level), Varint(f.number), Varint(f.size), LengthPrefixed(f.smallest), LengthPrefixed(f.largest), rest);
      ReadsNewFile(level, f, rest);
    case _ =>
      Varint64RoundTrip(r.n, rest);
  }

  lemma Regroup(a: Bytes, b: Bytes, c: Bytes, d: Bytes, e: Bytes, f: Bytes)
    ensures (a + (b + (c + (d + e)))) + f == a + (b + (c + (d + (e + f))))
  {
    assert (d + e) + f == d + (e + f);
    assert (c + (d + e)) + f == c + (d + (e + f));
    assert (b + (c + (d + e))) + f == b + (c + (d + (e + f)));
  }

  // A record is read back behind its tag, whatever follows it.
  lemma ReadsRecord(r: Record, rest: Bytes)
    requires Storable(r)
    ensures GetVarint32(RecordBytes(r) + rest) == Parsed(TagOf(r), BodyBytes(r) + rest)
    ensures ReadRecord(TagOf(r), BodyBytes(r) + rest) == Parsed(r, rest)
  {
    hide GetVarint32, ReadRecord, BodyBytes, Varint;
    assert RecordBytes(r) + rest == Varint(TagOf(r)) + (BodyBytes(r) + rest);
    Varint32RoundTrip(TagOf(r), BodyBytes(r) + rest);
    ReadsBody(r, rest);
  }

  // ---------- edits

  function Apply(e: Edit, r: Record): Edit {
    match r
    case Comparator(name) => e.(comparator := Some(name))
    case LogNumber(n) => e.(logNumber := Some(n))
    case PrevLogNumber(n) => e.(prevLogNumber := Some(n))
    case NextFile(n) => e.(nextFile := Some(n))
    case LastSequence(n) => e.(lastSequence := Some(n))
    case Pointer(level, key) => e.(pointers := e.pointers + [(level, key)])
    case Deleted(level, n) => e.(deleted := Insert(e.deleted, (level, n)))
    case NewFile(level, f) => e.(added := e.added + [(level, f)])
  }

  // DecodeFrom, on top of what was read so far; None when the rest is corrupt.
  function Decode(b: Bytes, e: Edit): Option<Edit>
    decreases |b|
  {
    match GetVarint32(b)
    case Failed => if b == [] then Some(e) else None
    case Parsed(tag, b1) =>
      match ReadRecord(tag, b1)
      case Failed => None
      case Parsed(r, rest) => Decode(rest, Apply(e, r))
  }

  function BytesOf(rs: seq<Record>): Bytes {
    if rs == [] then [] else RecordBytes(rs[0]) + BytesOf(rs[1..])
  }

  function ApplyAll(e: Edit, rs: seq<Record>): Edit
    decreases |rs|
  {
    if rs == [] then e else ApplyAll(Apply(e, rs[0]), rs[1..])
  }

  // Whatever records were written are read and applied in order.
  lemma {:induction false} DecodesRecords(rs: seq<Record>, e: Edit)
    requires forall i | 0 <= i < |rs| :: Storable(rs[i])
    ensures Decode(BytesOf(rs), e) == Some(ApplyAll(e, rs))
  {
    hide RecordBytes, ReadRecord, GetVarint32;
    if rs == [] {
      NothingLeft();
    } else {
      ReadsRecord(rs[0], BytesOf(rs[1..]));
      DecodesRecords(rs[1..], Apply(e, rs[0]));
    }
  }

  lemma NothingLeft()
    ensures GetVarint32([]) == Failed
  {
  }

  // ---------- bytes of any origin

  predicate IsNumber32(x: Bytes, v: nat) {
    IsNumber(x, 5, TWO32, v)
  }

  predicate IsNumber64(x: Bytes, v: nat) {
    IsNumber(x, 10, TWO64, v)
  }

  // A level of the store, in any form.
  predicate IsLevel(x: Bytes, level: nat) {
    IsNumber32(x, level) && level < NUM_LEVELS
  }

  ghost predicate IsNewFile(y: Bytes, level: nat, f: FileMeta) {
    exists a: nat, b: nat, c: nat, d: nat ::
      && a <= b <= c <= d <= |y|
      && IsLevel(y[..a], level) && IsNumber64(y[a..b], f.number) && IsNumber64(y[b..c], f.size)
      && IsSlice(y[c..d], f.smallest) && IsSlice(y[d..], f.largest)
  }

  // All of y is what stands behind the record's tag.
  ghost predicate IsBody(y: Bytes, r: Record) {
    match r
    case Comparator(name) => IsSlice(y, name)
    case Pointer(level, key) => exists m: nat :: m <= |y| && IsLevel(y[..m], level) && IsSlice(y[m..], key)
    case Deleted(level, n) => exists m: nat :: m <= |y| && IsLevel(y[..m], level) && IsNumber64(y[m..], n)
    case NewFile(level, f) => IsNewFile(y, level, f)
    case _ => IsNumber64(y, r.n)
  }

  ghost predicate IsRecord(x: Bytes, r: Record) {
    exists m: nat :: m <= |x| && IsNumber32(x[..m], TagOf(r)) && IsBody(x[m..], r)
  }

  // The bytes are these records, one behind the other.
  ghost predicate Lists(b: Bytes, rs: seq<Record>)
    decreases |rs|
  {
    if rs == [] then b == []
    else exists n: nat :: 0 < n <= |b| && IsRecord(b[..n], rs[0]) && Lists(b[n..], rs[1..])
  }

  lemma ReadsAnyNewFile(y: Bytes, level: nat, f: FileMeta, rest: Bytes)
    requires IsNewFile(y, level, f)
    ensures ReadNewFile(y + rest) == Parsed(NewFile(level, f), rest)
  {
    hide IsNumber, IsSlice, GetVarint32, GetVarint64, GetLengthPrefixed;
    var a: nat, b: nat, c: nat, d: nat :|
      && a <= b <= c <= d <= |y|
      && IsLevel(y[..a], level) && IsNumber64(y[a..b], f.number) && IsNumber64(y[b..c], f.size)
      && IsSlice(y[c..d], f.smallest) && IsSlice(y[d..], f.largest);
    var b4 := y[d..] + rest;
    var b3 := y[c..d] + b4;
    var b2 := y[b..c] + b3;
    var b1 := y[a..b] + b2;
    ReadsAnyVarint(y[..a], level, b1);
    ReadsAnyVarint(y[a..b], f.number, b2);
    ReadsAnyVarint(y[b..c], f.size, b3);
    ReadsSlice(y[c..d], f.smallest, b4);
    ReadsSlice(y[d..], f.largest, rest);
    JoinsPieces(y, a, b, c, d, rest);
  }

  lemma JoinsPieces(y: Bytes, a: nat, b: nat, c: nat, d: nat, rest: Bytes)
    requires a <= b <= c <= d <= |y|
    ensures y + rest == y[..a] + (y[a..b] + (y[b..c] + (y[c..d] + (y[d..] + rest))))
  {
    assert y[c..] + rest == y[c..d] + (y[d..] + rest);
    assert y[b..] + rest == y[b..c] + (y[c..] + rest);
    assert y[a..] + rest == y[a..b] + (y[b..] + rest);
    assert y + rest == y[..a] + (y[a..] + rest);
  }

  lemma ReadsAnyBody(y: Bytes, r: Record, rest: Bytes)
    requires IsBody(y, r)
    ensures ReadRecord(TagOf(r), y + rest) == Parsed(r, rest)
  {
    hide IsNumber, IsSlice, GetVarint32, GetVarint64, GetLengthPrefixed, ReadNewFile, IsNewFile;
    match r
    case Comparator(name) => ReadsSlice(y, name, rest);
    case Pointer(level, key) =>
      var m: nat :| m <= |y| && IsLevel(y[..m], level) && IsSlice(y[m..], key);
      ReadsAnyVarint(y[..m], level, y[m..] + rest);
      ReadsSlice(y[m..], key, rest);
      assert y + rest == y[..m] + (y[m..] + rest);
    case Deleted(level, n) =>
      var m: nat :| m <= |y| && IsLevel(y[..m], level) && IsNumber64(y[m..], n);
      ReadsAnyVarint(y[..m], level, y[m..] + rest);
      ReadsAnyVarint(y[m..], n, rest);
      assert y + rest == y[..m] + (y[m..] + rest);
    case NewFile(level, f) => ReadsAnyNewFile(y, level, f, rest);
    case _ => ReadsAnyVarint(y, r.n, rest);
  }

  lemma NewFileOf(level: nat, f: FileMeta, p: Bytes, q: Bytes, r: Bytes, s: Bytes, t: Bytes)
    requires IsLevel(p, level) && IsNumber64(q, f.number) && IsNumber64(r, f.size) && IsSlice(s, f.smallest) && IsSlice(t, f.largest)
    ensures IsNewFile(p + (q + (r + (s + t))), level, f)
  {
    hide IsNumber, IsSlice;
    var y := p + (q + (r + (s + t)));
    var a, b, c, d := |p|, |p| + |q|, |p| + |q| + |r|, |p| + |q| + |r| + |s|;
    assert y[..a] == p && y[a..b] == q && y[b..c] == r && y[c..d] == s && y[d..] == t;
  }

  lemma NewFileWasThere(b: Bytes)
    ensures var r := ReadNewFile(b);
            r.Parsed? ==>
              && r.value.NewFile? && IsNewFile(b[..|b| - |r.rest|], r.value.level, r.value.file) && b[|b| - |r.rest|..] == r.rest
  {
    hide IsNumber, IsSlice, IsNewFile, GetVarint32, GetVarint64, GetLengthPrefixed;
    var r := ReadNewFile(b);
    if r.Parsed? {
      var b1 := GetLevel(b).rest;
      var b2 := GetVarint64(b1).rest;
      var b3 := GetVarint64(b2).rest;
      var b4 := GetLengthPrefixed(b3).rest;
      var p := LevelWasThere(b);
      var q := Number64WasThere(b1);
      var m := Number64WasThere(b2);
      var s := SliceWasThere(b3);
      var t := SliceWasThere(b4);
      NewFileOf(r.value.level, r.value.file, p, q, m, s, t);
      Regroup(p, q, m, s, t, r.rest);
      var y := p + (q + (m + (s + t)));
      assert b == y + r.rest;
      assert b[..|b| - |r.rest|] == y;
    }
  }

  lemma LevelWasThere(b: Bytes) returns (x: Bytes)
    ensures var r := GetLevel(b); r.Parsed? ==> IsLevel(x, r.value) && x + r.rest == b
  {
    hide IsNumber, GetVarint32;
    VarintWasThere(b);
    var r := GetVarint32(b);
    x := if r.Parsed? then b[..|b| - |r.rest|] else [];
  }

  lemma Number64WasThere(b: Bytes) returns (x: Bytes)
    ensures var r := GetVarint64(b); r.Parsed? ==> IsNumber64(x, r.value) && x + r.rest == b
  {
    hide IsNumber, GetVarint64;
    VarintWasThere(b);
    var r := GetVarint64(b);
    x := if r.Parsed? then b[..|b| - |r.rest|] else [];
  }

  lemma BodyWasThere(tag: nat, b: Bytes)
    ensures var r := ReadRecord(tag, b);
            r.Parsed? ==> TagOf(r.value) == tag && IsBody(b[..|b| - |r.rest|], r.value) && b[|b| - |r.rest|..] == r.rest
  {
    hide IsNumber, IsSlice, GetVarint32, GetVarint64, GetLengthPrefixed, ReadNewFile, IsNewFile, GetLevel, IsLevel;
    var r := ReadRecord(tag, b);
    if r.Parsed? {
      var n := |b| - |r.rest|;
      if tag == TAG_NEW_FILE {
        NewFileWasThere(b);
      } else if tag == TAG_COMPARATOR {
        var x := SliceWasThere(b);
        assert b[..n] == x;
      } else if tag == TAG_COMPACT_POINTER {
        var x := LevelWasThere(b);
        var y := SliceWasThere(GetLevel(b).rest);
        TwoPieces(b, x, y, r.rest);
      } else if tag == TAG_DELETED_FILE {
        var x := LevelWasThere(b);
        var y := Number64WasThere(GetLevel(b).rest);
        TwoPieces(b, x, y, r.rest);
      } else {
        var x := Number64WasThere(b);
        assert b[..n] == x;
      }
    }
  }

  lemma TwoPieces(b: Bytes, x: Bytes, y: Bytes, rest: Bytes)
    requires b == x + (y + rest)
    ensures b[..|b| - |rest|][..|x|] == x && b[..|b| - |rest|][|x|..] == y && |x| <= |b| - |rest|
    ensures b[|b| - |rest|..] == rest
  {
  }

  lemma TailAfter(b: Bytes, b1: Bytes, x: Bytes, rest: Bytes)
    requires |b1| <= |b| && b[|b| - |b1|..] == b1 && b1 == x + rest
    ensures b[..|b| - |rest|][..|b| - |b1|] == b[..|b| - |b1|] && b[..|b| - |rest|][|b| - |b1|..] == x
    ensures b[|b| - |rest|..] == rest
  {
  }

  lemma ReadsAnyRecord(x: Bytes, r: Record, rest: Bytes)
    requires IsRecord(x, r)
    ensures var t := GetVarint32(x + rest);
            t.Parsed? && t.value == TagOf(r) && ReadRecord(t.value, t.rest) == Parsed(r, rest)
  {
    hide IsNumber, IsBody, GetVarint32, ReadRecord;
    var m: nat :| m <= |x| && IsNumber32(x[..m], TagOf(r)) && IsBody(x[m..], r);
    assert x + rest == x[..m] + (x[m..] + rest);
    ReadsAnyVarint(x[..m], TagOf(r), x[m..] + rest);
    ReadsAnyBody(x[m..], r, rest);
  }

  lemma RecordWasThere(b: Bytes)
    ensures var t := GetVarint32(b);
            t.Parsed? ==>
              var r := ReadRecord(t.value, t.rest);
              r.Parsed? ==> IsRecord(b[..|b| - |r.rest|], r.value) && b[|b| - |r.rest|..] == r.rest
  {
    hide IsNumber, IsBody, GetVarint32, ReadRecord;
    VarintWasThere(b);
    var t := GetVarint32(b);
    if t.Parsed? {
      BodyWasThere(t.value, t.rest);
      var r := ReadRecord(t.value, t.rest);
      if r.Parsed? {
        TailAfter(b, t.rest, t.rest[..|t.rest| - |r.rest|], r.rest);
      }
    }
  }

  // Decoding succeeds if and only if the bytes list records, and then it applies them: no
  // other tags, levels or leftovers.
  lemma {:induction false} DecodeIff(b: Bytes, e: Edit, result: Edit)
    ensures Decode(b, e) == Some(result) <==> exists rs :: Lists(b, rs) && result == ApplyAll(e, rs)
    decreases |b|
  {
    hide GetVarint32, ReadRecord, Lists, ApplyAll, IsRecord, Apply;
    RecordWasThere(b);
    var t := GetVarint32(b);
    if b == [] {
      NothingLeft();
      NoRecords(e);
    } else if t.Parsed? && ReadRecord(t.value, t.rest).Parsed? {
      var r := ReadRecord(t.value, t.rest);
      DecodeIff(r.rest, Apply(e, r.value), result);
      if Decode(b, e) == Some(result) {
        var rs :| Lists(r.rest, rs) && result == ApplyAll(Apply(e, r.value), rs);
        OneMore(b, |b| - |r.rest|, r.value, rs, e);
      }
    }
    forall rs | Lists(b, rs) && b != [] ensures Decode(b, e) == Some(ApplyAll(e, rs)) {
      FirstListed(b, rs, e);
    }
    forall rs | Lists(b, rs) && b == [] ensures rs == [] {
      ListsNothing(rs);
    }
  }

  lemma ListsNothing(rs: seq<Record>)
    ensures Lists([], rs) <==> rs == []
  {
  }

  lemma NoRecords(e: Edit)
    ensures Lists([], []) && ApplyAll(e, []) == e
  {
  }

  lemma OneMore(b: Bytes, n: nat, r: Record, rs: seq<Record>, e: Edit)
    requires 0 < n <= |b| && IsRecord(b[..n], r) && Lists(b[n..], rs)
    ensures Lists(b, [r] + rs) && ApplyAll(e, [r] + rs) == ApplyAll(Apply(e, r), rs)
  {
    hide IsRecord, Apply;
    assert ([r] + rs)[1..] == rs;
  }

  lemma {:induction false} FirstListed(b: Bytes, rs: seq<Record>, e: Edit)
    requires Lists(b, rs)
    ensures Decode(b, e) == Some(ApplyAll(e, rs))
    decreases |rs|
  {
    hide GetVarint32, ReadRecord, IsRecord, Apply;
    if rs == [] {
      NothingLeft();
    } else {
      var n: nat :| 0 < n <= |b| && IsRecord(b[..n], rs[0]) && Lists(b[n..], rs[1..]);
      ReadsAnyRecord(b[..n], rs[0], b[n..]);
      assert b[..n] + b[n..] == b;
      FirstListed(b[n..], rs[1..], Apply(e, rs[0]));
    }
  }

  // ---------- the round trip

  function One(n: Option<nat>, make: nat -> Record): seq<Record> {
    if n.Some? then [make(n.value)] else []
  }

  function Header(e: Edit): seq<Record> {
    (if e.comparator.Some? then [Comparator(e.comparator.value)] else [])
    + One(e.logNumber, (n: nat) => LogNumber(n)) + One(e.prevLogNumber, (n: nat) => PrevLogNumber(n))
    + One(e.nextFile, (n: nat) => NextFile(n)) + One(e.lastSequence, (n: nat) => LastSequence(n))
  }

  function Pointers(ps: seq<(nat, Bytes)>): (r: seq<Record>)
    ensures |r| == |ps|
  {
    seq(|ps|, i requires 0 <= i < |ps| => Pointer(ps[i].0, ps[i].1))
  }

  function Deletions(ds: seq<(nat, nat)>): (r: seq<Record>)
    ensures |r| == |ds|
  {
    seq(|ds|, i requires 0 <= i < |ds| => Deleted(ds[i].0, ds[i].1))
  }

  function NewFiles(fs: seq<(nat, FileMeta)>): (r: seq<Record>)
    ensures |r| == |fs|
  {
    seq(|fs|, i requires 0 <= i < |fs| => NewFile(fs[i].0, fs[i].1))
  }

  // The records that EncodeTo writes.
  function RecordsOf(e: Edit): seq<Record> {
    Header(e) + Pointers(e.pointers) + Deletions(e.deleted) + NewFiles(e.added)
  }

  ghost predicate WellFormed(e: Edit) {
    Ordered(e.deleted) && forall r | r in RecordsOf(e) :: Storable(r)
  }

  lemma {:induction false} ApplyBoth(e: Edit, a: seq<Record>, b: seq<Record>)
    ensures ApplyAll(e, a + b) == ApplyAll(ApplyAll(e, a), b)
    decreases |a|
  {
    if a == [] {
      assert a + b == b;
    } else {
      ApplyBoth(Apply(e, a[0]), a[1..], b);
      assert (a + b)[1..] == a[1..] + b;
    }
  }

  lemma {:induction false} AppliesPointers(e: Edit, ps: seq<(nat, Bytes)>)
    ensures ApplyAll(e, Pointers(ps)) == e.(pointers := e.pointers + ps)
    decreases |ps|
  {
    if ps == [] {
      assert e.pointers + ps == e.pointers;
    } else {
      AppliesPointers(e.(pointers := e.pointers + [ps[0]]), ps[1..]);
      assert Pointers(ps)[1..] == Pointers(ps[1..]);
      assert e.pointers + ps == (e.pointers + [ps[0]]) + ps[1..];
    }
  }

  lemma {:induction false} AppliesDeletions(e: Edit, ds: seq<(nat, nat)>)
    requires Ordered(e.deleted + ds)
    ensures ApplyAll(e, Deletions(ds)) == e.(deleted := e.deleted + ds)
    decreases |ds|
  {
    if ds == [] {
      assert e.deleted + ds == e.deleted;
    } else {
      var all := e.deleted + ds;
      assert e.deleted != [] ==> FileLess(all[|e.deleted| - 1], all[|e.deleted|]);
      assert Insert(e.deleted, ds[0]) == e.deleted + [ds[0]];
      assert all == (e.deleted + [ds[0]]) + ds[1..];
      AppliesDeletions(e.(deleted := e.deleted + [ds[0]]), ds[1..]);
      assert Deletions(ds)[1..] == Deletions(ds[1..]);
    }
  }

  lemma {:induction false} AppliesNewFiles(e: Edit, fs: seq<(nat, FileMeta)>)
    ensures ApplyAll(e, NewFiles(fs)) == e.(added := e.added + fs)
    decreases |fs|
  {
    if fs == [] {
      assert e.added + fs == e.added;
    } else {
      AppliesNewFiles(e.(added := e.added + [fs[0]]), fs[1..]);
      assert NewFiles(fs)[1..] == NewFiles(fs[1..]);
      assert e.added + fs == (e.added + [fs[0]]) + fs[1..];
    }
  }

  lemma AppliesHeader(e: Edit)
    ensures ApplyAll(EMPTY, Header(e)) == e.(pointers := [], deleted := [], added := [])
  {
    var c := if e.comparator.Some? then [Comparator(e.comparator.value)] else [];
    var l := One(e.logNumber, (n: nat) => LogNumber(n));
    var p := One(e.prevLogNumber, (n: nat) => PrevLogNumber(n));
    var f := One(e.nextFile, (n: nat) => NextFile(n));
    var s := One(e.lastSequence, (n: nat) => LastSequence(n));
    ApplyBoth(EMPTY, c + l + p + f, s);
    ApplyBoth(EMPTY, c + l + p, f);
    ApplyBoth(EMPTY, c + l, p);
    ApplyBoth(EMPTY, c, l);
  }

  // The records of an edit, applied to a fresh edit, give it back.
  lemma RecordsRestore(e: Edit)
    requires Ordered(e.deleted)
    ensures ApplyAll(EMPTY, RecordsOf(e)) == e
  {
    hide ApplyAll, Header;
    var h, p, d, n := Header(e), Pointers(e.pointers), Deletions(e.deleted), NewFiles(e.added);
    ApplyBoth(EMPTY, h + p + d, n);
    ApplyBoth(EMPTY, h + p, d);
    ApplyBoth(EMPTY, h, p);
    AppliesHeader(e);
    var e0 := e.(pointers := [], deleted := [], added := []);
    AppliesPointers(e0, e.pointers);
    assert [] + e.pointers == e.pointers && [] + e.deleted == e.deleted && [] + e.added == e.added;
    AppliesDeletions(e0.(pointers := e.pointers), e.deleted);
    AppliesNewFiles(e.(added := []), e.added);
  }

  // Decoding an encoded edit gives the edit back.
  lemma EditRoundTrip(e: Edit)
    requires WellFormed(e)
    ensures Decode(BytesOf(RecordsOf(e)), EMPTY) == Some(e)
  {
    hide RecordsOf, Decode, BytesOf;
    forall i | 0 <= i < |RecordsOf(e)| ensures Storable(RecordsOf(e)[i]) {
      assert RecordsOf(e)[i] in RecordsOf(e);
    }
    DecodesRecords(RecordsOf(e), EMPTY);
    RecordsRestore(e);
  }

  // ---------- the class

  lemma {:induction false} BytesBoth(a: seq<Record>, b: seq<Record>)
    ensures BytesOf(a + b) == BytesOf(a) + BytesOf(b)
  {
    hide RecordBytes;
    if a == [] {
      assert a + b == b;
    } else {
      var rest := a[1..];
      BytesBoth(rest, b);
      assert (a + b)[1..] == rest + b && (a + b)[0] == a[0];
      hide BytesOf;
      assert RecordBytes(a[0]) + (BytesOf(rest) + BytesOf(b)) == RecordBytes(a[0]) + BytesOf(rest) + BytesOf(b);
    }
  }

  lemma NoBytes()
    ensures BytesOf([]) == []
  {
  }

  lemma BytesOne(rs: seq<Record>, r: Record)
    ensures BytesOf(rs + [r]) == BytesOf(rs) + RecordBytes(r)
  {
    BytesBoth(rs, [r]);
    assert [r][1..] == [];
  }

  class VersionEdit {
    var edit: Edit

    constructor ()
      ensures edit == EMPTY
    {
      edit := EMPTY;
    }

    method Emit(dst: Bytes, r: Record, ghost rs: seq<Record>) returns (out: Bytes)
      requires dst == BytesOf(rs)
      ensures out == BytesOf(rs + [r])
    {
      BytesOne(rs, r);
      out := dst + RecordBytes(r);
    }

    method EncodeTo() returns (dst: Bytes)
      ensures dst == BytesOf(RecordsOf(edit))
    {
      hide BytesOf, Header;
      ghost var rs: seq<Record>;
      dst, rs := EncodeHeader();
      for i := 0 to |edit.pointers|
        invariant rs == Header(edit) + Pointers(edit.pointers)[..i] && dst == BytesOf(rs)
      {
        dst := Emit(dst, Pointer(edit.pointers[i].0, edit.pointers[i].1), rs);
        rs := rs + [Pointer(edit.pointers[i].0, edit.pointers[i].1)];
      }
      ghost var before := rs;
      for i := 0 to |edit.deleted|
        invariant rs == before + Deletions(edit.deleted)[..i] && dst == BytesOf(rs)
      {
        dst := Emit(dst, Deleted(edit.deleted[i].0, edit.deleted[i].1), rs);
        rs := rs + [Deleted(edit.deleted[i].0, edit.deleted[i].1)];
      }
      before := rs;
      for i := 0 to |edit.added|
        invariant rs == before + NewFiles(edit.added)[..i] && dst == BytesOf(rs)
      {
        dst := Emit(dst, NewFile(edit.added[i].0, edit.added[i].1), rs);
        rs := rs + [NewFile(edit.added[i].0, edit.added[i].1)];
      }
      assert rs == RecordsOf(edit);
    }

    method EncodeHeader() returns (dst: Bytes, ghost rs: seq<Record>)
      ensures rs == Header(edit) && dst == BytesOf(rs)
    {
      hide RecordBytes, BytesOf;
      NoBytes();
      dst, rs := [], [];
      if edit.comparator.Some? {
        dst := Emit(dst, Comparator(edit.comparator.value), rs);
        rs := rs + [Comparator(edit.comparator.value)];
      }
      if edit.logNumber.Some? {
        dst := Emit(dst, LogNumber(edit.logNumber.value), rs);
        rs := rs + [LogNumber(edit.logNumber.value)];
      }
      if edit.prevLogNumber.Some? {
        dst := Emit(dst, PrevLogNumber(edit.prevLogNumber.value), rs);
        rs := rs + [PrevLogNumber(edit.prevLogNumber.value)];
      }
      if edit.nextFile.Some? {
        dst := Emit(dst, NextFile(edit.nextFile.value), rs);
        rs := rs + [NextFile(edit.nextFile.value)];
      }
      if edit.lastSequence.Some? {
        dst := Emit(dst, LastSequence(edit.lastSequence.value), rs);
        rs := rs + [LastSequence(edit.lastSequence.value)];
      }
    }

    // False for a corrupt record; otherwise the edit is what the bytes hold.
    method DecodeFrom(src: Bytes) returns (ok: bool)
      modifies this
      ensures if ok then Decode(src, EMPTY) == Some(edit) else Decode(src, EMPTY) == None
    {
      hide ReadRecord, GetVarint32, Apply;
      edit := EMPTY;
      var input := src;
      while true
        invariant Decode(src, EMPTY) == Decode(input, edit)
        decreases |input|
      {
        var tag := GetVarint32(input);
        if tag.Failed? {
          break;
        }
        var r := ReadRecord(tag.value, tag.rest);
        if r.Failed? {
          return false;
        }
        edit := Apply(edit, r.value);
        input := r.rest;
      }
      ok := input == [];
    }
  }
}
