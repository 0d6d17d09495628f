/**
 Blocks (table/block_builder, table/block): keys are stored as the part that differs from
 the previous key, with a full key at each restart point; the iterator rebuilds the keys,
 moves both ways and seeks by binary search over the restart points.

 The comparator is a rank: any total order on countably many byte strings embeds in the
 order of the reals.
 */
module Blocks {
  import opened Coding
  import opened Entries

  datatype Pair = Pair(key: Bytes, value: Bytes)

  // ---------- the format

  // The length of the longest common prefix.
  function SharedPrefix(a: Bytes, b: Bytes): (n: nat)
    ensures n <= |a| && n <= |b| && a[..n] == b[..n]
    ensures n < |a| && n < |b| ==> a[n] != b[n]
  {
    if a == [] || b == [] || a[0] != b[0] then 0 else 1 + SharedPrefix(a[1..], b[1..])
  }

  function EntryBytes(prev: Bytes, p: Pair, restart: bool): (r: Bytes)
    ensures |r| >= 3
  {
    var shared := if restart then 0 else SharedPrefix(prev, p.key);
    Header(shared, |p.key| - shared, |p.value|) + p.key[shared..] + p.value
  }

  function Header(shared: nat, nonShared: nat, valueSize: nat): (r: Bytes)
    ensures |r| >= 3
  {
    Varint(shared) + Varint(nonShared) + Varint(valueSize)
  }

  // How many entries follow the last restart point once n are written.
  function Count(k: nat, n: nat): (c: nat)
  {
    if n == 0 then 0 else if Count(k, n - 1) < k then Count(k, n - 1) + 1 else 1
  }

  predicate IsRestart(k: nat, i: nat) {
    Count(k, i) == k
  }

  // Every k-th entry is a restart point.
  lemma {:induction false} RestartsEveryInterval(k: nat, n: nat) returns (m: nat)
    requires k >= 1 && n >= 1
    ensures n == m * k + Count(k, n) && 1 <= Count(k, n) <= k
    ensures IsRestart(k, n) ==> n == (m + 1) * k
  {
    if n == 1 {
      m := 0;
    } else {
      m := RestartsEveryInterval(k, n - 1);
      if Count(k, n - 1) == k {
        m := m + 1;
      }
    }
  }

  function PrevKey(ps: seq<Pair>, i: nat): Bytes
    requires i <= |ps|
  {
    if i == 0 then [] else ps[i - 1].key
  }

  // The first n entries.
  function Body(ps: seq<Pair>, k: nat, n: nat): Bytes
    requires n <= |ps|
  {
    if n == 0 then []
    else Body(ps, k, n - 1) + EntryBytes(PrevKey(ps, n - 1), ps[n - 1], IsRestart(k, n - 1))
  }

  // Where entry i starts.
  function Off(ps: seq<Pair>, k: nat, i: nat): nat
    requires i <= |ps|
  {
    |Body(ps, k, i)|
  }

  // The entries that are restart points; the first one is there even in an empty block.
  function RestartEntries(k: nat, n: nat): (r: seq<nat>)
    ensures |r| >= 1 && r[0] == 0
  {
    if n == 0 then [0]
    else if IsRestart(k, n - 1) && n > 1 then RestartEntries(k, n - 1) + [n - 1]
    else RestartEntries(k, n - 1)
  }

  function RestartOffsets(ps: seq<Pair>, k: nat, n: nat): (r: seq<nat>)
    requires n <= |ps|
    ensures |r| == |RestartEntries(k, n)|
  {
    RestartsInRange(k, n);
    seq(|RestartEntries(k, n)|, i requires 0 <= i < |RestartEntries(k, n)| => Off(ps, k, RestartEntries(k, n)[i]))
  }

  lemma {:induction false} RestartsInRange(k: nat, n: nat)
    ensures forall r | 0 <= r < |RestartEntries(k, n)| ::
              RestartEntries(k, n)[r] <= n && (r > 0 ==> RestartEntries(k, n)[r] < n && IsRestart(k, RestartEntries(k, n)[r]))
    ensures forall q, r | 0 <= q < r < |RestartEntries(k, n)| :: RestartEntries(k, n)[q] < RestartEntries(k, n)[r]
    ensures |RestartEntries(k, n)| <= n + 1
  {
    if n > 0 {
      RestartsInRange(k, n - 1);
    }
  }

  // A block with all its parts, when its offsets fit in 32 bits.
  ghost predicate IsBlock(data: Bytes, ps: seq<Pair>, k: nat) {
    var offsets := RestartOffsets(ps, k, |ps|);
    && |data| < TWO32
    && |data| == Off(ps, k, |ps|) + 4 * |offsets| + 4
    && data[..Off(ps, k, |ps|)] == Body(ps, k, |ps|)
    && (forall r | 0 <= r < |offsets| ::
          DecodeFixed32(data[Off(ps, k, |ps|) + 4 * r..]) == offsets[r])
    && DecodeFixed32(data[|data| - 4..]) == |offsets|
  }

  // ---------- facts about the format

  lemma {:induction false} BodyFrame(ps: seq<Pair>, p: Pair, k: nat, n: nat)
    requires n <= |ps|
    ensures Body(ps + [p], k, n) == Body(ps, k, n)
  {
    hide EntryBytes;
    if n > 0 {
      BodyFrame(ps, p, k, n - 1);
    }
  }

  // Entry i lies between its offset and the next.
  lemma {:induction false} EntryAtOffset(ps: seq<Pair>, k: nat, i: nat, n: nat)
    requires i < n <= |ps|
    ensures Off(ps, k, i) + 3 <= Off(ps, k, i + 1) <= Off(ps, k, n)
    ensures Body(ps, k, n)[Off(ps, k, i)..Off(ps, k, i + 1)]
            == EntryBytes(PrevKey(ps, i), ps[i], IsRestart(k, i))
  {
    hide EntryBytes, IsRestart;
    var before, last := Body(ps, k, n - 1), EntryBytes(PrevKey(ps, n - 1), ps[n - 1], IsRestart(k, n - 1));
    assert Body(ps, k, n) == before + last;
    hide Body;
    if i < n - 1 {
      EntryAtOffset(ps, k, i, n - 1);
      SliceOfPrefix(before, last, Off(ps, k, i), Off(ps, k, i + 1));
    }
  }

  lemma SliceOfPrefix(a: Bytes, b: Bytes, x: nat, y: nat)
    requires x <= y <= |a|
    ensures (a + b)[x..y] == a[x..y]
  {
  }

  lemma OffsetsIncrease(ps: seq<Pair>, k: nat, i: nat, j: nat)
    requires i <= |ps| && j <= |ps|
    ensures i < j <==> Off(ps, k, i) < Off(ps, k, j)
    ensures i == j <==> Off(ps, k, i) == Off(ps, k, j)
  {
    if i < j {
      EntryAtOffset(ps, k, i, j);
    } else if j < i {
      EntryAtOffset(ps, k, j, i);
    }
  }

  // ---------- decoding an entry

  datatype Decoded = Decoded(shared: nat, nonShared: nat, valueSize: nat, headerSize: nat)

  // Block's DecodeEntry on the bytes from p to the limit; the fast path reads three one-byte
  // lengths.
  function DecodeEntry(b: Bytes): (r: Option<Decoded>)
    ensures r.Some? ==> r.value.headerSize <= |b|
  {
    if |b| < 3 then None
    else
      var header := if b[0] < 128 && b[1] < 128 && b[2] < 128
                    then Some(Decoded(b[0], b[1], b[2], 3))
                    else DecodeLengths(b);
      if header.Some?
         && |b| - header.value.headerSize >= (header.value.nonShared + header.value.valueSize) % TWO32
      then header else None
  }

  function DecodeLengths(b: Bytes): (r: Option<Decoded>)
    ensures r.Some? ==> r.value.headerSize <= |b|
  {
    match GetVarint32(b)
    case Failed => None
    case Parsed(shared, b1) =>
      match GetVarint32(b1)
      case Failed => None
      case Parsed(nonShared, b2) =>
        match GetVarint32(b2)
        case Failed => None
        case Parsed(valueSize, b3) => Some(Decoded(shared, nonShared, valueSize, |b| - |b3|))
  }

  lemma DecodesLengths(shared: U32, nonShared: U32, valueSize: U32, rest: Bytes)
    ensures DecodeLengths(Header(shared, nonShared, valueSize) + rest)
            == Some(Decoded(shared, nonShared, valueSize, |Header(shared, nonShared, valueSize)|))
  {
    hide Varint, GetVarint32;
    var b2 := Varint(valueSize) + rest;
    var b1 := Varint(nonShared) + b2;
    assert Header(shared, nonShared, valueSize) + rest == Varint(shared) + b1;
    Varint32RoundTrip(shared, b1);
    Varint32RoundTrip(nonShared, b2);
    Varint32RoundTrip(valueSize, rest);
  }

  // When the first three bytes are single-byte lengths, both paths read the same.
  lemma FastPathAgrees(b: Bytes)
    requires |b| >= 3 && b[0] < 128 && b[1] < 128 && b[2] < 128
    ensures DecodeLengths(b) == Some(Decoded(b[0], b[1], b[2], 3))
  {
    assert b[1..][0] == b[1] && b[1..][1..] == b[2..];
    assert b[2..][0] == b[2] && b[2..][1..] == b[3..];
  }

  lemma EntryRoundTrip(shared: nat, suffix: Bytes, value: Bytes, rest: Bytes)
    requires shared < TWO32 && |suffix| + |value| < TWO32
    ensures var h := Header(shared, |suffix|, |value|);
            DecodeEntry(h + suffix + value + rest) == Some(Decoded(shared, |suffix|, |value|, |h|))
  {
    hide Header, DecodeLengths;
    var h := Header(shared, |suffix|, |value|);
    var b := h + suffix + value + rest;
    assert b == h + (suffix + value + rest);
    DecodesLengths(shared, |suffix|, |value|, suffix + value + rest);
    if b[0] < 128 && b[1] < 128 && b[2] < 128 {
      FastPathAgrees(b);
    }
  }

  // The bytes of an entry read back as its lengths, the rest of its key, and its value.
  ghost predicate EntryReadsAs(b: Bytes, d: Decoded, shared: nat, p: Pair) {
    && shared <= |p.key|
    && d.shared == shared && d.nonShared == |p.key| - shared && d.valueSize == |p.value|
    && d.headerSize + d.nonShared + d.valueSize <= |b|
    && b[d.headerSize..d.headerSize + d.nonShared] == p.key[shared..]
    && b[d.headerSize + d.nonShared..d.headerSize + d.nonShared + d.valueSize] == p.value
  }

  function SharedAt(ps: seq<Pair>, k: nat, i: nat): (n: nat)
    requires i < |ps|
    ensures n <= |ps[i].key| && n <= |PrevKey(ps, i)| && PrevKey(ps, i)[..n] == ps[i].key[..n]
    ensures IsRestart(k, i) || i == 0 ==> n == 0
  {
    if IsRestart(k, i) then 0 else SharedPrefix(PrevKey(ps, i), ps[i].key)
  }

  lemma DecodesEntry(prev: Bytes, p: Pair, restart: bool, rest: Bytes)
    requires |EntryBytes(prev, p, restart)| < TWO32 && |p.key| < TWO32
    ensures var shared := if restart then 0 else SharedPrefix(prev, p.key);
            var entry := EntryBytes(prev, p, restart);
            var d := DecodeEntry(entry + rest);
            && d.Some? && EntryReadsAs(entry + rest, d.value, shared, p)
            && d.value.headerSize + d.value.nonShared + d.value.valueSize == |entry|
  {
    hide Header, DecodeEntry, SharedPrefix;
    var shared := if restart then 0 else SharedPrefix(prev, p.key);
    var suffix := p.key[shared..];
    var h := Header(shared, |suffix|, |p.value|);
    var b := EntryBytes(prev, p, restart) + rest;
    assert b == h + suffix + p.value + rest;
    EntryRoundTrip(shared, suffix, p.value, rest);
    Pieces(h, suffix, p.value, rest);
  }

  lemma Pieces(a: Bytes, b: Bytes, c: Bytes, d: Bytes)
    ensures (a + b + c + d)[|a|..|a| + |b|] == b
    ensures (a + b + c + d)[|a| + |b|..|a| + |b| + |c|] == c
  {
    var all := a + b + c + d;
    assert forall k | 0 <= k < |b| :: all[|a| + k] == b[k];
    assert forall k | 0 <= k < |c| :: all[|a| + |b| + k] == c[k];
  }

  // A key is no longer than the entries up to its own: it is built from what they hold.
  lemma {:induction false} KeyFits(ps: seq<Pair>, k: nat, i: nat)
    requires i < |ps|
    ensures |ps[i].key| <= Off(ps, k, i + 1)
  {
    hide EntryBytes, IsRestart;
    if i > 0 {
      KeyFits(ps, k, i - 1);
    }
    KeyFitsEntry(PrevKey(ps, i), ps[i], IsRestart(k, i));
    assert Off(ps, k, i + 1) == Off(ps, k, i) + |EntryBytes(PrevKey(ps, i), ps[i], IsRestart(k, i))|;
  }

  lemma KeyFitsEntry(prev: Bytes, p: Pair, restart: bool)
    ensures |p.key| <= |prev| + |EntryBytes(prev, p, restart)|
  {
    hide Header;
  }

  // What stands at entry i of a block.
  lemma DecodesEntryAt(data: Bytes, ps: seq<Pair>, k: nat, i: nat)
    requires IsBlock(data, ps, k) && i < |ps|
    ensures var o, limit := Off(ps, k, i), Off(ps, k, |ps|);
            o < limit <= |data| &&
            var d := DecodeEntry(data[o..limit]);
            && d.Some? && EntryReadsAs(data[o..limit], d.value, SharedAt(ps, k, i), ps[i])
            && o + d.value.headerSize + d.value.nonShared + d.value.valueSize == Off(ps, k, i + 1) <= limit
  {
    hide IsRestart, EntryReadsAs, DecodeEntry, EntryBytes, RestartOffsets, Body;
    var o, e, limit := Off(ps, k, i), Off(ps, k, i + 1), Off(ps, k, |ps|);
    EntryAtOffset(ps, k, i, |ps|);
    KeyFits(ps, k, i);
    var entry := EntryBytes(PrevKey(ps, i), ps[i], IsRestart(k, i));
    assert data[o..e] == data[..limit][o..e];
    assert data[o..limit] == entry + data[e..limit];
    DecodesEntry(PrevKey(ps, i), ps[i], IsRestart(k, i), data[e..limit]);
  }

  // ---------- the builder

  class BlockBuilder {
    const interval: nat
    var buffer: Bytes
    var restarts: seq<nat>
    var counter: nat
    var finished: bool
    var lastKey: Bytes
    ghost var ps: seq<Pair>

    ghost predicate Ok()
      reads this
    {
      && interval >= 1
      && lastKey == PrevKey(ps, |ps|)
      && counter == Count(interval, |ps|) <= interval
      && restarts == RestartOffsets(ps, interval, |ps|)
      && (!finished ==> buffer == Body(ps, interval, |ps|))
    }

    constructor (interval: nat)
      requires interval >= 1
      ensures Ok() && !finished && ps == [] && this.interval == interval
    {
      this.interval := interval;
      buffer, restarts, counter, finished, lastKey := [], [0], 0, false, [];
      ps := [];
    }

    method Reset()
      requires interval >= 1
      modifies this
      ensures Ok() && !finished && ps == []
    {
      buffer, restarts, counter, finished, lastKey := [], [0], 0, false, [];
      ps := [];
    }

    method Add(key: Bytes, value: Bytes)
      requires Ok() && !finished
      modifies this
      ensures Ok() && !finished && ps == old(ps) + [Pair(key, value)]
    {
      hide Body, RestartOffsets, SharedPrefix, Varint;
      var shared := 0;
      if counter < interval {
        var minLength := if |lastKey| < |key| then |lastKey| else |key|;
        while shared < minLength && lastKey[shared] == key[shared]
          invariant shared <= minLength && lastKey[..shared] == key[..shared]
        {
          shared := shared + 1;
        }
        SharedPrefixIs(lastKey, key, shared);
      } else {
        restarts := restarts + [|buffer|];
        counter := 0;
      }
      var nonShared := |key| - shared;
      buffer := buffer + (Varint(shared) + Varint(nonShared) + Varint(|value|));
      buffer := buffer + key[shared..];
      buffer := buffer + value;
      lastKey := lastKey[..shared] + key[shared..];
      counter := counter + 1;
      ps := ps + [Pair(key, value)];
      Added(old(ps), Pair(key, value), interval);
      assert old(lastKey)[..shared] + key[shared..] == key;
      Regroup(old(buffer), Header(shared, nonShared, |value|), key[shared..], value);
    }

    // The finished block reads back as the entries that were added.
    method Finish() returns (data: Bytes)
      requires Ok() && !finished
      requires |buffer| + 4 * |restarts| + 4 < TWO32
      modifies this
      ensures Ok() && finished && ps == old(ps)
      ensures IsBlock(data, ps, interval)
    {
      hide Body, RestartOffsets, Fixed32, Count, IsBlock, Fixed32s;
      ghost var body := buffer;
      Fixed32sNone(body);
      OffsetsFit(ps, interval);
      var i := 0;
      while i < |restarts|
        invariant i <= |restarts| && ps == old(ps) && restarts == old(restarts)
        invariant counter == old(counter) && lastKey == old(lastKey)
        invariant buffer == body + Fixed32s(restarts[..i])
      {
        assert restarts[..i + 1] == restarts[..i] + [restarts[i]];
        Fixed32sSnoc(restarts[..i], restarts[i]);
        buffer := buffer + Fixed32(restarts[i]);
        i := i + 1;
      }
      assert restarts[..i] == restarts;
      buffer := buffer + Fixed32(|restarts|);
      finished := true;
      data := buffer;
      FinishedBlock(data, ps, interval);
    }
  }

  lemma Regroup(a: Bytes, b: Bytes, c: Bytes, d: Bytes)
    ensures a + b + c + d == a + (b + c + d)
  {
  }

  lemma {:induction false} SharedPrefixIs(a: Bytes, b: Bytes, n: nat)
    requires n <= |a| && n <= |b| && a[..n] == b[..n]
    requires n == |a| || n == |b| || a[n] != b[n]
    ensures SharedPrefix(a, b) == n
  {
    if n > 0 {
      assert a[..n][0] == a[0] && b[..n][0] == b[0];
      assert a[1..][..n - 1] == a[..n][1..] && b[1..][..n - 1] == b[..n][1..];
      SharedPrefixIs(a[1..], b[1..], n - 1);
    }
  }

  lemma Added(ps: seq<Pair>, p: Pair, k: nat)
    requires k >= 1
    ensures var now := ps + [p];
            && Body(now, k, |now|) == Body(ps, k, |ps|) + EntryBytes(PrevKey(ps, |ps|), p, IsRestart(k, |ps|))
            && RestartOffsets(now, k, |now|) ==
               RestartOffsets(ps, k, |ps|) + if IsRestart(k, |ps|) then [Off(ps, k, |ps|)] else []
  {
    var now := ps + [p];
    RestartsInRange(k, |ps|);
    RestartsInRange(k, |now|);
    forall i | 0 <= i <= |ps| ensures Body(now, k, i) == Body(ps, k, i) {
      BodyFrame(ps, p, k, i);
    }
    assert PrevKey(now, |ps|) == PrevKey(ps, |ps|);
    assert ps == [] ==> !IsRestart(k, 0);
  }

  lemma OffsetsFit(ps: seq<Pair>, k: nat)
    ensures forall r | 0 <= r < |RestartEntries(k, |ps|)| ::
              RestartOffsets(ps, k, |ps|)[r] <= Off(ps, k, |ps|)
  {
    RestartsInRange(k, |ps|);
    forall r | 0 <= r < |RestartEntries(k, |ps|)|
      ensures RestartOffsets(ps, k, |ps|)[r] <= Off(ps, k, |ps|)
    {
      OffsetsIncrease(ps, k, RestartEntries(k, |ps|)[r], |ps|);
    }
  }

  lemma FinishedBlock(data: Bytes, ps: seq<Pair>, k: nat)
    requires forall r | 0 <= r < |RestartOffsets(ps, k, |ps|)| :: RestartOffsets(ps, k, |ps|)[r] < TWO32
    requires |RestartOffsets(ps, k, |ps|)| < TWO32 && |data| < TWO32
    requires data == Body(ps, k, |ps|) + Fixed32s(RestartOffsets(ps, k, |ps|))
                     + Fixed32(|RestartOffsets(ps, k, |ps|)|)
    ensures IsBlock(data, ps, k)
  {
    hide Body, Fixed32s, RestartOffsets, Fixed32, DecodeFixed32;
    var offsets := RestartOffsets(ps, k, |ps|);
    var body := Body(ps, k, |ps|);
    var tail := Fixed32(|offsets|);
    assert data[..|body|] == body;
    forall r | 0 <= r < |offsets| ensures DecodeFixed32(data[|body| + 4 * r..]) == offsets[r] {
      Fixed32At(offsets, r, tail);
      assert data[|body| + 4 * r..] == (Fixed32s(offsets) + tail)[4 * r..];
    }
    Fixed32RoundTrip(|offsets|, []);
    assert data[|data| - 4..] == tail + [];
  }

  // From the previous key, or any key at a restart point, the entry at i is rebuilt.
  lemma RebuildsEntry(data: Bytes, ps: seq<Pair>, k: nat, i: nat, key: Bytes)
    requires IsBlock(data, ps, k) && i < |ps|
    requires SharedAt(ps, k, i) == 0 || key == PrevKey(ps, i)
    ensures var o, limit := Off(ps, k, i), Off(ps, k, |ps|);
            o < limit <= |data| &&
            var d := DecodeEntry(data[o..limit]);
            && d.Some? && d.value.shared <= |key|
            && var p, v := o + d.value.headerSize, o + d.value.headerSize + d.value.nonShared;
            && v + d.value.valueSize == Off(ps, k, i + 1) <= limit
            && key[..d.value.shared] + data[p..v] == ps[i].key
            && data[v..v + d.value.valueSize] == ps[i].value
  {
    hide IsBlock, Off, SharedAt, DecodeEntry, SharedPrefix, IsRestart, EntryReadsAs;
    DecodesEntryAt(data, ps, k, i);
    var o, limit := Off(ps, k, i), Off(ps, k, |ps|);
    Rebuilt(data, o, limit, DecodeEntry(data[o..limit]).value, SharedAt(ps, k, i), ps[i], key);
  }

  lemma Rebuilt(data: Bytes, o: nat, limit: nat, d: Decoded, shared: nat, p: Pair, key: Bytes)
    requires o <= limit <= |data| && EntryReadsAs(data[o..limit], d, shared, p)
    requires shared <= |key| && key[..shared] == p.key[..shared]
    ensures d.shared == shared
    ensures var x, v := o + d.headerSize, o + d.headerSize + d.nonShared;
            && v + d.valueSize <= limit
            && key[..shared] + data[x..v] == p.key && data[v..v + d.valueSize] == p.value
  {
    Shift(data, o, limit, d.headerSize, d.headerSize + d.nonShared);
    Shift(data, o, limit, d.headerSize + d.nonShared, d.headerSize + d.nonShared + d.valueSize);
    Rejoin(p.key, key, shared);
  }

  lemma Shift(data: Bytes, o: nat, limit: nat, x: nat, y: nat)
    requires o <= limit <= |data| && x <= y <= limit - o
    ensures data[o..limit][x..y] == data[o + x..o + y]
  {
    var b := data[o..limit];
    assert forall k | 0 <= k < y - x :: b[x..y][k] == b[x + k] == data[o + x..o + y][k];
  }

  lemma Rejoin(key: Bytes, prev: Bytes, n: nat)
    requires n <= |key| && n <= |prev| && prev[..n] == key[..n]
    ensures prev[..n] + key[n..] == key
  {
  }

  // ---------- the iterator

  ghost predicate Increasing(ps: seq<Pair>, rank: Rank) {
    forall i, j | 0 <= i < j < |ps| :: rank(ps[i].key) < rank(ps[j].key)
  }

  // The entry at restart point r.
  function RestartEntry(ps: seq<Pair>, k: nat, r: nat): (i: nat)
    requires r < |RestartEntries(k, |ps|)|
    ensures i <= |ps|
  {
    RestartsInRange(k, |ps|);
    RestartEntries(k, |ps|)[r]
  }

  lemma RestartPointIs(data: Bytes, ps: seq<Pair>, k: nat, r: nat)
    requires IsBlock(data, ps, k) && r < |RestartEntries(k, |ps|)|
    ensures Off(ps, k, |ps|) + 4 * r + 4 <= |data|
    ensures DecodeFixed32(data[Off(ps, k, |ps|) + 4 * r..]) == Off(ps, k, RestartEntry(ps, k, r))
    ensures r == 0 ==> RestartEntry(ps, k, r) == 0
    ensures r > 0 ==> RestartEntry(ps, k, r) < |ps| && IsRestart(k, RestartEntry(ps, k, r))
  {
    RestartsInRange(k, |ps|);
    assert RestartOffsets(ps, k, |ps|)[r] == Off(ps, k, RestartEntry(ps, k, r));
  }

  // A block's contents as the reader receives them.
  class Block {
    const data: Bytes

    constructor (data: Bytes)
      ensures this.data == data
    {
      this.data := data;
    }

    method NewIterator(rank: Rank, ghost ps: seq<Pair>, ghost k: nat) returns (iter: Iter)
      requires IsBlock(data, ps, k) && Increasing(ps, rank)
      ensures fresh(iter) && iter.Ok() && iter.ps == ps && iter.rank == rank && iter.at == |ps|
    {
      var n := DecodeFixed32(data[|data| - 4..]);
      iter := new Iter(rank, data, |data| - (1 + n) * 4, n, ps, k);
    }
  }

  class Iter {
    const rank: Rank
    const data: Bytes
    const restarts: nat
    const numRestarts: nat
    ghost const ps: seq<Pair>
    ghost const k: nat
    // The current entry's offset; at least restarts when not valid.
    var current: nat
    var restartIndex: nat
    var key: Bytes
    var valueStart: nat
    var valueSize: nat
    var corrupt: bool
    // The index of the current entry; |ps| when not valid.
    ghost var at: nat

    ghost predicate Built() {
      && IsBlock(data, ps, k) && Increasing(ps, rank)
      && restarts == Off(ps, k, |ps|)
      && numRestarts == |RestartEntries(k, |ps|)| >= 1
      && |data| == restarts + 4 * numRestarts + 4
    }

    ghost predicate Ok()
      reads this
    {
      && Built() && !corrupt && at <= |ps|
      && current == Off(ps, k, at)
      && (at < |ps| ==>
            && key == ps[at].key
            && valueStart + valueSize == Off(ps, k, at + 1) <= |data|
            && data[valueStart..valueStart + valueSize] == ps[at].value
            && InRestart(restartIndex, at))
    }

    // Entry i lies in the run of restart point r: i may be the next restart entry itself.
    ghost predicate InRestart(r: nat, i: nat)
      requires Built()
    {
      && r < numRestarts && RestartEntry(ps, k, r) <= i
      && (r + 1 < numRestarts ==> i <= RestartEntry(ps, k, r + 1))
    }

    // ParseNextKey will read entry i.
    ghost predicate Ready(i: nat)
      reads this
    {
      && Built() && !corrupt && i <= |ps|
      && valueStart + valueSize == Off(ps, k, i)
      && restartIndex < numRestarts && RestartEntry(ps, k, restartIndex) <= i
      && (i < |ps| ==> SharedAt(ps, k, i) == 0 || key == PrevKey(ps, i))
    }

    constructor (rank: Rank, data: Bytes, restarts: nat, numRestarts: nat, ghost ps: seq<Pair>, ghost k: nat)
      requires IsBlock(data, ps, k) && Increasing(ps, rank)
      requires restarts == Off(ps, k, |ps|) && numRestarts == |RestartEntries(k, |ps|)|
      ensures Ok() && at == |ps| && this.ps == ps && this.k == k && this.rank == rank
    {
      this.rank, this.data, this.restarts, this.numRestarts := rank, data, restarts, numRestarts;
      this.ps, this.k := ps, k;
      current, restartIndex := restarts, numRestarts;
      key, valueStart, valueSize, corrupt := [], 0, 0, false;
      at := |ps|;
    }

    predicate Valid(): (r: bool)
      requires Ok()
      reads this
      ensures r <==> at < |ps|
    {
      OffsetsIncrease(ps, k, at, |ps|);
      current < restarts
    }

    function Key(): (r: Bytes)
      requires Ok() && at < |ps|
      reads this
      ensures r == ps[at].key
    {
      key
    }

    function Value(): (r: Bytes)
      requires Ok() && at < |ps|
      reads this
      ensures r == ps[at].value
    {
      data[valueStart..valueStart + valueSize]
    }

    function NextEntryOffset(): nat
      reads this
    {
      valueStart + valueSize
    }

    method GetRestartPoint(r: nat) returns (offset: nat)
      requires Built() && r < numRestarts
      ensures offset == Off(ps, k, RestartEntry(ps, k, r))
    {
      hide IsBlock, Increasing, Off;
      RestartPointIs(data, ps, k, r);
      offset := DecodeFixed32(data[restarts + 4 * r..]);
    }

    method SeekToRestartPoint(r: nat)
      requires Built() && !corrupt && r < numRestarts
      modifies this
      ensures Ready(RestartEntry(ps, k, r)) && restartIndex == r && at == old(at)
    {
      hide IsBlock, Increasing, Off;
      key := [];
      restartIndex := r;
      RestartPointIs(data, ps, k, r);
      valueStart := GetRestartPoint(r);
      valueSize := 0;
    }

    method CorruptionErrorIf(bad: bool)
      modifies this
      ensures if bad then corrupt && current == restarts && restartIndex == numRestarts && key == []
              else unchanged(this)
    {
      if bad {
        current, restartIndex, key, valueStart, valueSize, corrupt := restarts, numRestarts, [], 0, 0, true;
      }
    }

    method ParseNextKey(ghost i: nat) returns (ok: bool)
      requires Ready(i)
      modifies this
      ensures Ok() && at == i
      ensures ok <==> i < |ps|
    {
      hide IsBlock, Increasing, Off, DecodeEntry, SharedAt;
      OffsetsIncrease(ps, k, i, |ps|);
      at := i;
      current := NextEntryOffset();
      if current >= restarts {
        current := restarts;
        restartIndex := numRestarts;
        return false;
      }
      RebuildsEntry(data, ps, k, i, key);
      var d := DecodeEntry(data[current..restarts]);
      var bad := d.None? || |key| < d.value.shared;
      CorruptionErrorIf(bad);
      if bad {
        return false;
      }
      TakeEntry(d.value, current + d.value.headerSize);
      Advance(i);
      return true;
    }

    method TakeEntry(d: Decoded, p: nat)
      requires d.shared <= |key| && p + d.nonShared <= |data|
      modifies `key, `valueStart, `valueSize
      ensures key == old(key)[..d.shared] + data[p..p + d.nonShared]
      ensures valueStart == p + d.nonShared && valueSize == d.valueSize
    {
      key := key[..d.shared] + data[p..p + d.nonShared];
      valueStart, valueSize := p + d.nonShared, d.valueSize;
    }

    method SeekToFirst()
      requires Ok()
      modifies this
      ensures Ok() && at == 0
    {
      hide IsBlock, Increasing, Off, SharedAt;
      RestartPointIs(data, ps, k, 0);
      SeekToRestartPoint(0);
      var _ := ParseNextKey(0);
    }

    // Where parsing after the current entry continues.
    lemma ReadyForNext()
      requires Ok() && at < |ps|
      ensures Ready(at + 1)
    {
    }

    method Next()
      requires Ok() && at < |ps|
      modifies this
      ensures Ok() && at == old(at) + 1
    {
      hide *;
      ReadyForNext();
      var _ := ParseNextKey(at + 1);
    }

    // From entry i, moves to entry last, which ends at limit; past the end at once if i is there.
    method SkipTo(limit: nat, ghost i: nat, ghost last: nat)
      requires Ready(i) && i <= last <= |ps|
      requires if last < |ps| then limit == Off(ps, k, last + 1) else i == last
      modifies this
      ensures Ok() && at == last
    {
      hide IsBlock, Increasing, SharedAt, Off;
      ghost var j := i;
      while true
        invariant Ready(j) && i <= j <= last
        decreases last - j
      {
        var ok := ParseNextKey(j);
        if last < |ps| {
          OffsetsIncrease(ps, k, j + 1, last + 1);
        }
        if !(ok && NextEntryOffset() < limit) {
          break;
        }
        ReadyForNext();
        j := j + 1;
      }
    }

    method SeekToLast()
      requires Ok()
      modifies this
      ensures Ok() && at == if ps == [] then |ps| else |ps| - 1
    {
      hide IsBlock, Increasing, SharedAt, Off;
      SeekToRestartPoint(numRestarts - 1);
      ghost var i := RestartEntry(ps, k, numRestarts - 1);
      RestartPointIs(data, ps, k, numRestarts - 1);
      SkipTo(restarts, i, if ps == [] then 0 else |ps| - 1);
    }

    method Prev()
      requires Ok() && at < |ps|
      modifies this
      ensures Ok() && at == if old(at) == 0 then |ps| else old(at) - 1
    {
      hide IsBlock, Increasing, SharedAt, Off;
      var original := current;
      ghost var a := at;
      while true
        invariant Built() && !corrupt && restartIndex < numRestarts
        invariant restartIndex + 1 < numRestarts ==> a <= RestartEntry(ps, k, restartIndex + 1)
        decreases restartIndex
      {
        var point := GetRestartPoint(restartIndex);
        OffsetsIncrease(ps, k, RestartEntry(ps, k, restartIndex), a);
        if point < original {
          break;
        }
        if restartIndex == 0 {
          RestartPointIs(data, ps, k, 0);
          current, restartIndex := restarts, numRestarts;
          at := |ps|;
          return;
        }
        restartIndex := restartIndex - 1;
      }
      ghost var i := RestartEntry(ps, k, restartIndex);
      SeekToRestartPoint(restartIndex);
      SkipTo(original, i, a - 1);
    }

    // The last restart point with a key before target, or the first one.
    method FindRestart(target: Bytes) returns (left: nat)
      requires Ok()
      modifies this
      ensures Built() && !corrupt && left < numRestarts
      ensures left > 0 ==> KeyBelow(RestartEntry(ps, k, left), target)
    {
      hide IsBlock, Increasing, SharedAt, Off, DecodeEntry;
      left := 0;
      var right := numRestarts - 1;
      while left < right
        invariant 0 <= left <= right < numRestarts
        invariant left > 0 ==> KeyBelow(RestartEntry(ps, k, left), target)
        invariant Built() && !corrupt
      {
        var mid := (left + right + 1) / 2;
        var offset := GetRestartPoint(mid);
        RestartPointIs(data, ps, k, mid);
        ghost var i := RestartEntry(ps, k, mid);
        RebuildsEntry(data, ps, k, i, []);
        var d := DecodeEntry(data[offset..restarts]);
        var bad := d.None? || d.value.shared != 0;
        CorruptionErrorIf(bad);
        if bad {
          return;
        }
        var midKey := data[offset + d.value.headerSize..offset + d.value.headerSize + d.value.nonShared];
        assert midKey == ps[i].key;
        if rank(midKey) < rank(target) {
          left := mid;
        } else {
          right := mid - 1;
        }
      }
    }

    // The first entry whose key is not before target.
    method Seek(target: Bytes)
      requires Ok()
      modifies this
      ensures Ok()
      ensures forall i | 0 <= i < at :: rank(ps[i].key) < rank(target)
      ensures at < |ps| ==> rank(ps[at].key) >= rank(target)
    {
      hide IsBlock, SharedAt, Off, DecodeEntry;
      var left := FindRestart(target);
      if corrupt {
        return;
      }
      RestartPointIs(data, ps, k, left);
      SeekToRestartPoint(left);
      ghost var j := RestartEntry(ps, k, left);
      while true
        invariant Ready(j) && forall i | 0 <= i < j :: rank(ps[i].key) < rank(target)
        decreases |ps| - j
      {
        var ok := ParseNextKey(j);
        if !ok || rank(key) >= rank(target) {
          return;
        }
        ReadyForNext();
        j := j + 1;
      }
    }

    ghost predicate KeyBelow(i: nat, target: Bytes) {
      i < |ps| && rank(ps[i].key) < rank(target)
    }

    // Moves restartIndex up to the last restart point before entry i.
    method Advance(ghost i: nat)
      requires Built() && i <= |ps| && current == Off(ps, k, i)
      requires restartIndex < numRestarts && RestartEntry(ps, k, restartIndex) <= i
      modifies this`restartIndex
      ensures InRestart(restartIndex, i)
    {
      hide IsBlock, Increasing, Off;
      while restartIndex + 1 < numRestarts
        invariant restartIndex < numRestarts && RestartEntry(ps, k, restartIndex) <= i
        decreases numRestarts - restartIndex
      {
        var next := GetRestartPoint(restartIndex + 1);
        OffsetsIncrease(ps, k, RestartEntry(ps, k, restartIndex + 1), i);
        if next >= current {
          break;
        }
        restartIndex := restartIndex + 1;
      }
    }
  }
}
