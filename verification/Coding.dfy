/**
 Bytes, fixed-width little-endian integers and base-128 varints (util/coding).
 */
module Coding {
  datatype Option<+T> = None | Some(value: T)

  type Byte = b: int | 0 <= b < 256
  type Bytes = seq<Byte>

  const TWO32 := 0x1_0000_0000
  const TWO64 := 0x1_0000_0000_0000_0000

  type U32 = v: int | 0 <= v < TWO32
  type U64 = v: int | 0 <= v < TWO64

  // ---------- fixed width

  function Fixed32(v: U32): (r: Bytes)
    ensures |r| == 4
  {
    var a := v / 256;
    var b := a / 256;
    [v % 256, a % 256, b % 256, b / 256]
  }

  function DecodeFixed32(b: Bytes): U32
    requires |b| >= 4
  {
    (b[0] as int) + 256 * (b[1] as int) + 65536 * (b[2] as int) + 16777216 * (b[3] as int)
  }

  lemma Fixed32RoundTrip(v: U32, rest: Bytes)
    ensures DecodeFixed32(Fixed32(v) + rest) == v
  {
    var a := v / 256;
    var b := a / 256;
    assert v == v % 256 + 256 * a && a == a % 256 + 256 * b && b == b % 256 + 256 * (b / 256);
  }

  function Fixed64(v: U64): (r: Bytes)
    ensures |r| == 8
  {
    Fixed32(v % TWO32) + Fixed32(v / TWO32)
  }

  function DecodeFixed64(b: Bytes): (v: U64)
    requires |b| >= 8
  {
    DecodeFixed32(b) + TWO32 * DecodeFixed32(b[4..])
  }

  lemma Fixed64RoundTrip(v: U64, rest: Bytes)
    ensures DecodeFixed64(Fixed64(v) + rest) == v && (Fixed64(v) + rest)[8..] == rest
  {
    var b := Fixed64(v) + rest;
    assert b == Fixed32(v % TWO32) + (Fixed32(v / TWO32) + rest);
    Fixed32RoundTrip(v % TWO32, Fixed32(v / TWO32) + rest);
    Fixed32RoundTrip(v / TWO32, rest);
    assert b[4..] == Fixed32(v / TWO32) + rest;
  }

  // Any eight bytes are the encoding of what they decode to.
  lemma Fixed64Restores(b: Bytes)
    requires |b| == 8
    ensures Fixed64(DecodeFixed64(b)) == b
  {
    hide DecodeFixed32, Fixed32;
    Halves(DecodeFixed32(b), DecodeFixed32(b[4..]));
    Fixed32Restores(b[..4]);
    Fixed32Restores(b[4..]);
    SameStart(b);
    assert b == b[..4] + b[4..];
  }

  lemma Halves(lo: U32, hi: U32)
    ensures (lo + TWO32 * hi) % TWO32 == lo && (lo + TWO32 * hi) / TWO32 == hi
  {
  }

  lemma SameStart(b: Bytes)
    requires |b| >= 4
    ensures DecodeFixed32(b) == DecodeFixed32(b[..4])
  {
  }

  lemma Fixed32Restores(b: Bytes)
    requires |b| == 4
    ensures Fixed32(DecodeFixed32(b)) == b
  {
    var v := DecodeFixed32(b);
    assert v / 256 == (b[1] as int) + 256 * (b[2] as int) + 65536 * (b[3] as int);
    assert v / 256 / 256 == (b[2] as int) + 256 * (b[3] as int);
  }

  function Fixed32s(vs: seq<U32>): (r: Bytes)
    ensures |r| == 4 * |vs|
  {
    if vs == [] then [] else Fixed32s(vs[..|vs| - 1]) + Fixed32(vs[|vs| - 1])
  }

  lemma Fixed32sNone(b: Bytes)
    ensures b + Fixed32s([]) == b
  {
  }

  lemma Fixed32sSnoc(vs: seq<U32>, v: U32)
    ensures Fixed32s(vs + [v]) == Fixed32s(vs) + Fixed32(v)
  {
    assert (vs + [v])[..|vs|] == vs;
  }

  lemma {:induction false} Fixed32At(vs: seq<U32>, i: nat, rest: Bytes)
    requires i < |vs|
    ensures DecodeFixed32((Fixed32s(vs) + rest)[4 * i..]) == vs[i]
  {
    var last := vs[|vs| - 1];
    var more := Fixed32(last) + rest;
    assert Fixed32s(vs) + rest == Fixed32s(vs[..|vs| - 1]) + more;
    if i == |vs| - 1 {
      Fixed32RoundTrip(last, rest);
      assert (Fixed32s(vs) + rest)[4 * i..] == more;
    } else {
      Fixed32At(vs[..|vs| - 1], i, more);
    }
  }

  // ---------- varints

  // Seven bits a byte, low bits first, the high bit marking that more follow.
  function Varint(v: nat): (r: Bytes)
    ensures |r| >= 1
  {
    if v < 128 then [v] else [v % 128 + 128] + Varint(v / 128)
  }

  datatype Parsed<T> = Failed | Parsed(value: T, rest: Bytes)

  // Reads at most limit bytes; None when they end without a final byte.
  function ReadVarint(b: Bytes, limit: nat): (r: Parsed<nat>)
    ensures r.Parsed? ==> |r.rest| < |b| && r.rest == b[|b| - |r.rest|..]
  {
    if limit == 0 || b == [] then Failed
    else if b[0] < 128 then Parsed(b[0], b[1..])
    else match ReadVarint(b[1..], limit - 1)
      case Failed => Failed
      case Parsed(v, rest) => Parsed((b[0] as int) - 128 + 128 * v, rest)
  }

  // Bits above the width of the result fall off the shift.
  function GetVarint32(b: Bytes): (r: Parsed<nat>)
    ensures r.Parsed? ==> r.value < TWO32 && |r.rest| < |b|
  {
    var r := ReadVarint(b, 5);
    if r.Parsed? then Parsed(r.value % TWO32, r.rest) else Failed
  }

  function GetVarint64(b: Bytes): (r: Parsed<nat>)
    ensures r.Parsed? ==> r.value < TWO64 && |r.rest| < |b|
  {
    var r := ReadVarint(b, 10);
    if r.Parsed? then Parsed(r.value % TWO64, r.rest) else Failed
  }

  function Power128(n: nat): nat {
    if n == 0 then 1 else 128 * Power128(n - 1)
  }

  lemma {:induction false} VarintFits(v: nat, n: nat)
    requires v < Power128(n) && n >= 1
    ensures |Varint(v)| <= n
  {
    if v >= 128 {
      assert n >= 2 by {
        assert Power128(1) == 128 * Power128(0);
      }
      VarintFits(v / 128, n - 1);
    }
  }

  lemma ReadVarintStep(b: Bytes, limit: nat)
    requires limit > 0 && b != []
    ensures var d, next := b[0] as int % 128, ReadVarint(b[1..], limit - 1);
            ReadVarint(b, limit) ==
              if b[0] < 128 then Parsed(d, b[1..])
              else if next.Failed? then Failed
              else Parsed(d + 128 * next.value, next.rest)
  {
  }

  lemma VarintStep(v: nat)
    ensures Varint(v) == if v < 128 then [v] else [v % 128 + 128] + Varint(v / 128)
  {
  }

  lemma LowSeven(v: nat)
    ensures (v % 128 + 128) % 128 == v % 128 && v % 128 + 128 * (v / 128) == v
    ensures v < 128 ==> v % 128 == v
  {
  }

  lemma {:induction false} ReadsVarint(v: nat, rest: Bytes, limit: nat)
    requires |Varint(v)| <= limit
    ensures ReadVarint(Varint(v) + rest, limit) == Parsed(v, rest)
  {
    hide ReadVarint, Varint;
    var b := Varint(v) + rest;
    var low, high := v % 128, v / 128;
    VarintStep(v);
    LowSeven(v);
    ReadVarintStep(b, limit);
    if v < 128 {
      FirstAndRest(v, [], rest);
    } else {
      FirstAndRest(low + 128, Varint(high), rest);
      ReadsVarint(high, rest, limit - 1);
    }
  }

  lemma FirstAndRest(x: Byte, a: Bytes, b: Bytes)
    ensures ([x] + a + b)[0] == x && ([x] + a + b)[1..] == a + b
    ensures a == [] ==> [x] + b == [x] + a + b && a + b == b
  {
  }

  // Every 32-bit value is read back from its varint, whatever follows.
  lemma Varint32RoundTrip(v: U32, rest: Bytes)
    ensures GetVarint32(Varint(v) + rest) == Parsed(v, rest)
  {
    hide ReadVarint, Varint;
    assert Power128(5) == 34359738368;
    VarintFits(v, 5);
    ReadsVarint(v, rest, 5);
  }

  lemma Varint64RoundTrip(v: U64, rest: Bytes)
    ensures GetVarint64(Varint(v) + rest) == Parsed(v, rest)
  {
    hide ReadVarint, Varint;
    assert Power128(10) == 1180591620717411303424;
    VarintFits(v, 10);
    ReadsVarint(v, rest, 10);
  }

  // ---------- length-prefixed slices

  function LengthPrefixed(b: Bytes): Bytes {
    Varint(|b|) + b
  }

  function GetLengthPrefixed(b: Bytes): (r: Parsed<Bytes>)
    ensures r.Parsed? ==> |r.rest| < |b|
  {
    match GetVarint32(b)
    case Failed => Failed
    case Parsed(len, rest) => if |rest| >= len then Parsed(rest[..len], rest[len..]) else Failed
  }

  lemma LengthPrefixedRoundTrip(b: Bytes, rest: Bytes)
    requires |b| < TWO32
    ensures GetLengthPrefixed(LengthPrefixed(b) + rest) == Parsed(b, rest)
  {
    assert LengthPrefixed(b) + rest == Varint(|b|) + (b + rest);
    Varint32RoundTrip(|b|, b + rest);
  }

  // ---------- bytes of any origin

  // Seven bits of each byte, low ones first.
  function Digits(b: Bytes): nat {
    if b == [] then 0 else b[0] as int % 128 + 128 * Digits(b[1..])
  }

  // The first n bytes are a varint: only the last of them is small.
  predicate IsVarint(b: Bytes, n: nat) {
    0 < n <= |b| && b[n - 1] < 128 && forall i | 0 <= i < n - 1 :: b[i] >= 128
  }

  lemma {:induction false} ReadsShape(b: Bytes, limit: nat, n: nat)
    requires IsVarint(b, n) && n <= limit
    ensures ReadVarint(b, limit) == Parsed(Digits(b[..n]), b[n..])
    decreases n
  {
    hide ReadVarint;
    ReadVarintStep(b, limit);
    if n > 1 {
      var after := b[1..];
      forall i | 0 <= i < n - 2 ensures after[i] >= 128 {
        assert after[i] == b[i + 1];
      }
      ReadsShape(after, limit - 1, n - 1);
      assert b[..n][1..] == after[..n - 1] && after[n - 1..] == b[n..];
    } else {
      assert b[..1][1..] == [];
    }
  }

  // A varint is read, with the value of its digits, if and only if a small byte is among the
  // first limit.
  lemma ReadVarintIff(b: Bytes, limit: nat)
    ensures ReadVarint(b, limit).Parsed? <==> exists n: nat :: n <= limit && IsVarint(b, n)
    ensures forall n: nat | n <= limit && IsVarint(b, n) :: ReadVarint(b, limit) == Parsed(Digits(b[..n]), b[n..])
  {
    hide ReadVarint, Digits;
    ReadVarintShape(b, limit);
    forall n: nat | n <= limit && IsVarint(b, n) ensures ReadVarint(b, limit) == Parsed(Digits(b[..n]), b[n..]) {
      ReadsShape(b, limit, n);
    }
  }

  // Reading stops within the limit.
  lemma {:induction false} ReadVarintShape(b: Bytes, limit: nat)
    ensures var r := ReadVarint(b, limit);
            r.Parsed? ==> |b| - |r.rest| <= limit && IsVarint(b, |b| - |r.rest|) && r.value == Digits(b[..|b| - |r.rest|])
    decreases limit
  {
    hide ReadVarint;
    if limit > 0 && b != [] {
      ReadVarintStep(b, limit);
      ReadVarintShape(b[1..], limit - 1);
      var r := ReadVarint(b, limit);
      if r.Parsed? {
        var n, after := |b| - |r.rest|, b[1..];
        assert b[..n][1..] == after[..n - 1];
        forall i | 0 <= i < n - 1 ensures b[i] >= 128 {
          assert i > 0 ==> after[i - 1] == b[i];
        }
      }
    } else {
      NoVarint(b, limit);
    }
  }

  lemma NoVarint(b: Bytes, limit: nat)
    requires limit == 0 || b == []
    ensures ReadVarint(b, limit) == Failed
  {
  }

  // All of x is a varint of at most limit bytes whose low bits are v.
  predicate IsNumber(x: Bytes, limit: nat, width: nat, v: nat)
    requires width > 0
  {
    IsVarint(x, |x|) && |x| <= limit && Digits(x) % width == v
  }

  // All of x is a length and the bytes of s.
  predicate IsSlice(x: Bytes, s: Bytes) {
    exists n: nat :: n <= |x| && IsNumber(x[..n], 5, TWO32, |s|) && x[n..] == s
  }

  // Any number that is read was there in some form, and any form is read.
  lemma ReadsNumber(b: Bytes, limit: nat, width: nat, n: nat)
    requires width > 0 && n <= |b| && IsVarint(b[..n], n) && n <= limit
    ensures ReadVarint(b, limit) == Parsed(Digits(b[..n]), b[n..])
  {
    hide ReadVarint, Digits;
    forall i | 0 <= i < n ensures b[i] == b[..n][i] {
    }
    ReadsShape(b, limit, n);
  }

  lemma NumberWasThere(b: Bytes, limit: nat)
    ensures var r := ReadVarint(b, limit);
            r.Parsed? ==> var x := b[..|b| - |r.rest|]; IsVarint(x, |x|) && |x| <= limit && Digits(x) == r.value && x + r.rest == b
  {
    hide ReadVarint, Digits;
    ReadVarintShape(b, limit);
    var r := ReadVarint(b, limit);
    if r.Parsed? {
      var n := |b| - |r.rest|;
      forall i | 0 <= i < n ensures b[i] == b[..n][i] {
      }
      assert r.rest == b[n..];
    }
  }

  lemma ReadsSlice(x: Bytes, s: Bytes, rest: Bytes)
    requires IsSlice(x, s)
    ensures GetLengthPrefixed(x + rest) == Parsed(s, rest)
  {
    hide ReadVarint, Digits;
    var n: nat :| n <= |x| && IsNumber(x[..n], 5, TWO32, |s|) && x[n..] == s;
    assert (x + rest)[..n] == x[..n] && (x + rest)[n..] == s + rest;
    ReadsNumber(x + rest, 5, TWO32, n);
    assert (s + rest)[..|s|] == s && (s + rest)[|s|..] == rest;
  }

  lemma SliceWasThere(b: Bytes) returns (x: Bytes)
    ensures var r := GetLengthPrefixed(b); r.Parsed? ==> IsSlice(x, r.value) && x + r.rest == b && x != []
  {
    hide ReadVarint, Digits;
    NumberWasThere(b, 5);
    x := [];
    var r := GetLengthPrefixed(b);
    if r.Parsed? {
      var v := ReadVarint(b, 5);
      var n := |b| - |v.rest|;
      x := b[..n + |r.value|];
      assert x[..n] == b[..n] && x[n..] == v.rest[..|r.value|];
      assert b == b[..n] + v.rest;
      assert x + r.rest == b;
    }
  }

  lemma ReadsAnyVarint(x: Bytes, v: nat, rest: Bytes)
    ensures IsNumber(x, 5, TWO32, v) ==> GetVarint32(x + rest) == Parsed(v, rest)
    ensures IsNumber(x, 10, TWO64, v) ==> GetVarint64(x + rest) == Parsed(v, rest)
  {
    hide ReadVarint, Digits;
    assert (x + rest)[..|x|] == x && (x + rest)[|x|..] == rest;
    if IsNumber(x, 5, TWO32, v) {
      ReadsNumber(x + rest, 5, TWO32, |x|);
    }
    if IsNumber(x, 10, TWO64, v) {
      ReadsNumber(x + rest, 10, TWO64, |x|);
    }
  }

  lemma VarintWasThere(b: Bytes)
    ensures var r := GetVarint32(b);
            r.Parsed? ==> var x := b[..|b| - |r.rest|]; IsNumber(x, 5, TWO32, r.value) && x + r.rest == b && x != []
    ensures var r := GetVarint64(b);
            r.Parsed? ==> var x := b[..|b| - |r.rest|]; IsNumber(x, 10, TWO64, r.value) && x + r.rest == b && x != []
  {
    hide ReadVarint, Digits;
    NumberWasThere(b, 5);
    NumberWasThere(b, 10);
  }
}
