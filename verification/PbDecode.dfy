/**
 nanopb's decoder (nanopb/pb_decode.c): fields are found by a circular search, unknown ones
 are skipped, and required ones are ticked off in a bit set.
 */
module PbDecode {
  import opened Coding
  import opened PbCommon
  import opened PbEncode

  // ---------- what is read

  // A value and what follows it, or where reading stopped.
  datatype Got<T> = Got(value: T, rest: Bytes) | Lost(rest: Bytes)

  // The low bits of a value, in a result of the given width.
  function Low(v: nat, width: nat): (r: nat)
    requires width >= 1
    ensures r < width
  {
    v % width
  }

  // A varint of at most limit bytes; bits above the width of the result fall off.
  function PbVarint(b: Bytes, limit: nat, width: nat): (r: Got<nat>)
    requires width >= 1
    ensures |r.rest| <= |b|
    ensures r.Got? ==> |r.rest| < |b| && r.value < width
  {
    match ReadVarint(b, limit)
    case Parsed(v, rest) => Got(Low(v, width), rest)
    case Failed => Lost(if |b| >= limit then b[limit..] else [])
  }

  function Varint32(b: Bytes): Got<nat> {
    PbVarint(b, 5, TWO32)
  }

  function Varint64(b: Bytes): Got<nat> {
    PbVarint(b, 10, TWO64)
  }

  // A cast to a signed integer of the given size.
  function AsSigned(v: nat, size: nat): (r: int)
    requires ValidSize(size)
    ensures FitsSigned(r, size)
  {
    var m := v % Bound(size);
    if m < Bound(size) / 2 then m else m - Bound(size)
  }

  // pb_decode_svarint.
  function UnZigZag(v: nat): (r: int)
    requires v < TWO64
    ensures FitsSigned(r, 8)
  {
    if v % 2 == 1 then AsSigned(Complement(v / 2), 8) else AsSigned(v / 2, 8)
  }

  // pb_decode_tag.
  datatype TagRead = Tag(wire: nat, number: nat, rest: Bytes) | End | BadTag

  function ReadTag(b: Bytes): (r: TagRead)
    ensures r.Tag? ==> |r.rest| < |b|
  {
    match Varint32(b)
    case Lost(rest) => if rest == [] then End else BadTag
    case Got(t, rest) => if t == 0 then End else Tag(t % 8, t / 8, rest)
  }

  function SkipVarint(b: Bytes): (r: Option<Bytes>)
    ensures r.Some? ==> |r.value| < |b|
  {
    if b == [] then None else if b[0] < 128 then Some(b[1..]) else SkipVarint(b[1..])
  }

  function Skip(b: Bytes, n: nat): (r: Option<Bytes>)
    ensures r.Some? ==> |r.value| <= |b|
  {
    if |b| < n then None else Some(b[n..])
  }

  // pb_skip_field.
  function SkipField(wire: nat, b: Bytes): (r: Option<Bytes>)
    ensures r.Some? ==> |r.value| <= |b|
  {
    if wire == WT_VARINT then SkipVarint(b)
    else if wire == WT_64BIT then Skip(b, 8)
    else if wire == WT_32BIT then Skip(b, 4)
    else if wire == WT_STRING then
      match Varint32(b)
      case Lost(_) => None
      case Got(n, rest) => Skip(rest, n)
    else None
  }

  // A length and that many bytes: pb_make_string_substream and what closing it leaves.
  function Substream(b: Bytes): (r: Got<Bytes>)
    ensures |r.rest| <= |b| && (r.Got? ==> |r.value| < |b|)
    ensures r.Got? ==> |r.rest| < |b|
  {
    match Varint32(b)
    case Lost(rest) => Lost(rest)
    case Got(n, rest) => if |rest| < n then Lost(rest) else Got(rest[..n], rest[n..])
  }

  // The decoder of the field's type; None is a decoding error.
  function ReadValue(l: LType, b: Bytes, old': Value): (r: Option<(Value, Bytes)>)
    ensures r.Some? ==> |r.value.1| < |b|
    decreases l
  {
    match l
    case VarintT(size) =>
      (match Varint64(b)
       case Lost(_) => None
       case Got(v, rest) =>
         if !ValidSize(size) then None
         else
           var s := if size == 8 then AsSigned(v, 8) else AsSigned(v, 4);
           if FitsSigned(s, size) then Some((Int(s), rest)) else None)
    case UVarintT(size) =>
      (match Varint64(b)
       case Lost(_) => None
       case Got(v, rest) => if ValidSize(size) && FitsUnsigned(v, size) then Some((Int(v), rest)) else None)
    case SVarintT(size) =>
      (match Varint64(b)
       case Lost(_) => None
       case Got(v, rest) =>
         if ValidSize(size) && FitsSigned(UnZigZag(v), size) then Some((Int(UnZigZag(v)), rest)) else None)
    case Fixed32T => if |b| < 4 then None else Some((Int(DecodeFixed32(b)), b[4..]))
    case Fixed64T =>
      if |b| < 8 then None else Some((Int(DecodeFixed64(b)), b[8..]))
    case BytesT(capacity) =>
      (match Varint32(b)
       case Lost(_) => None
       case Got(n, rest) => if n > capacity || |rest| < n then None else Some((Raw(rest[..n]), rest[n..])))
    case StringT(size) =>
      (match Varint32(b)
       case Lost(_) => None
       case Got(n, rest) => if n + 1 > size || |rest| < n then None else Some((Raw(rest[..n]), rest[n..])))
    case FixedBytesT(size) =>
      (match Varint32(b)
       case Lost(_) => None
       case Got(n, rest) =>
         if n == 0 then Some((Raw(Zeros(size)), rest))
         else if n != size || |rest| < size then None
         else Some((Raw(rest[..size]), rest[size..])))
    case SubMessageT(fs) =>
      (match Substream(b)
       case Lost(_) => None
       case Got(sub, rest) =>
         if !(old'.Msg? && |old'.slots| == |fs|) then None
         else
           match ReadMsg(fs, sub, old'.slots)
           case None => None
           case Some(slots) => Some((Msg(slots), rest)))
  }

  // The packed items up to the array's size; what is left over is an error.
  function ReadPacked(f: Field, b: Bytes, items: seq<Value>): (r: Option<seq<Value>>)
    requires Packable(f.ltype) && f.htype.Repeated?
    decreases f, 0, |b|
  {
    if b == [] then Some(items)
    else if |items| >= f.htype.arraySize then None
    else
      match ReadValue(f.ltype, b, Int(0))
      case None => None
      case Some((v, rest)) => ReadPacked(f, rest, items + [v])
  }

  // decode_static_field.  An array entry or oneof field that is a submessage starts from its
  // defaults.
  function ReadSlot(f: Field, wire: nat, b: Bytes, s: Slot): (r: Option<(Slot, Bytes)>)
    ensures r.Some? ==> |r.value.1| <= |b|
    decreases f, 1
  {
    match (f.htype, s)
    case (Required, Single(v)) =>
      (match ReadValue(f.ltype, b, v) case None => None case Some((w, rest)) => Some((Single(w), rest)))
    case (Implicit, Single(v)) =>
      (match ReadValue(f.ltype, b, v) case None => None case Some((w, rest)) => Some((Single(w), rest)))
    case (Optional, Opt(_, v)) =>
      (match ReadValue(f.ltype, b, v) case None => None case Some((w, rest)) => Some((Opt(true, w), rest)))
    case (OneOf(_), One(_, _)) =>
      (match ReadValue(f.ltype, b, InitValue(f.ltype))
       case None => None
       case Some((w, rest)) => Some((One(true, w), rest)))
    case (Repeated(arraySize), Rep(items)) =>
      if wire == WT_STRING && Packable(f.ltype) then
        match Substream(b)
        case Lost(_) => None
        case Got(sub, rest) =>
          match ReadPacked(f, sub, items)
          case None => None
          case Some(all) => Some((Rep(all), rest))
      else if |items| >= arraySize then None
      else
        (match ReadValue(f.ltype, b, InitValue(f.ltype))
         case None => None
         case Some((w, rest)) => Some((Rep(items + [w]), rest)))
    case _ => None
  }

  // pb_decode_noinit's loop over the fields of the stream.
  function ReadFields(fields: seq<Field>, b: Bytes, slots: seq<Slot>, seen: seq<Word>)
    : (r: Option<(seq<Slot>, seq<Word>)>)
    requires |slots| == |fields| && |seen| == 2
    ensures r.Some? ==> |r.value.0| == |fields| && |r.value.1| == 2
    decreases fields, 0, |b|
  {
    if b == [] then Some((slots, seen))
    else
      match ReadTag(b)
      case End => Some((slots, seen))
      case BadTag => None
      case Tag(wire, number, rest) =>
        if fields == [] && number == 0 then None
        else
          match FindTag(fields, number)
          case None =>
            (match SkipField(wire, rest)
             case None => None
             case Some(after) => ReadFields(fields, after, slots, seen))
          case Some(i) =>
            match ReadSlot(fields[i], wire, rest, slots[i])
            case None => None
            case Some((s, after)) => ReadFields(fields, after, Stored(fields, slots, i, s), Tick(fields, i, seen))
  }

  // Storing a oneof field makes it the active one and overwrites the others.
  function Stored(fields: seq<Field>, slots: seq<Slot>, i: nat, s: Slot): (r: seq<Slot>)
    requires i < |fields| == |slots|
    ensures |r| == |fields|
  {
    seq(|fields|, j requires 0 <= j < |fields| =>
      if j == i then s else if SameOneof(fields[i], fields[j]) then InitSlot(fields[j]) else slots[j])
  }

  function Tick(fields: seq<Field>, i: nat, seen: seq<Word>): (r: seq<Word>)
    requires i < |fields| && |seen| == 2
    ensures |r| == 2
  {
    if fields[i].htype.Required? && RequiredBefore(fields, i) < MAX_REQUIRED_FIELDS
    then Mark(seen, RequiredBefore(fields, i))
    else seen
  }

  // pb_decode_noinit; None also where the check for required fields is undefined.
  function ReadMsg(fields: seq<Field>, b: Bytes, slots: seq<Slot>): (r: Option<seq<Slot>>)
    requires |slots| == |fields|
    ensures r.Some? ==> |r.value| == |fields|
    decreases fields, 1
  {
    match ReadFields(fields, b, slots, [{}, {}])
    case None => None
    case Some((all, seen)) =>
      if AllSeen(seen, RequiredBefore(fields, |fields|)) == Some(true) then Some(all) else None
  }

  // Tags are unique at every depth, so that a tag names one field.
  ghost predicate UniqueTagsDeep(fields: seq<Field>)
    decreases fields
  {
    UniqueTags(fields) && forall i | 0 <= i < |fields| :: UniqueTagsBelow(fields[i])
  }

  ghost predicate UniqueTagsBelow(f: Field)
    decreases f
  {
    UniqueTagsIn(f.ltype)
  }

  ghost predicate UniqueTagsIn(l: LType)
    decreases l
  {
    l.SubMessageT? ==> UniqueTagsDeep(l.fields)
  }

  // ---------- the stream

  // v << 7k, without loss.
  function Shifted(v: nat, k: nat): nat {
    if k == 0 then v else 128 * Shifted(v, k - 1)
  }

  // What is known of a varint after k of its bytes, all with more to follow.
  ghost predicate VarintSoFar(b: Bytes, limit: nat, k: nat, acc: nat, rest: Bytes) {
    && k <= limit && k <= |b| && rest == b[k..]
    && ReadVarint(b, limit) ==
       match ReadVarint(rest, limit - k)
       case Failed => Failed
       case Parsed(v, after) => Parsed(acc + Shifted(v, k), after)
  }

  lemma VarintStarts(b: Bytes, limit: nat)
    ensures VarintSoFar(b, limit, 0, 0, b)
  {
    assert b[0..] == b;
  }

  lemma VarintByte(b: Bytes, limit: nat, k: nat, acc: nat, rest: Bytes)
    requires VarintSoFar(b, limit, k, acc, rest) && k < limit && rest != []
    ensures var here := acc + Shifted(rest[0] as int % 128, k);
            if rest[0] < 128 then ReadVarint(b, limit) == Parsed(here, rest[1..])
            else VarintSoFar(b, limit, k + 1, here, rest[1..])
  {
    hide ReadVarint;
    var d := rest[0] as int % 128;
    assert rest[1..] == b[k + 1..];
    ReadVarintStep(rest, limit - k);
    var next := ReadVarint(rest[1..], limit - k - 1);
    if rest[0] >= 128 && next.Parsed? {
      ShiftsAdd(d, next.value, k);
    }
  }

  lemma ShiftedZero(v: nat)
    ensures Shifted(v, 0) == v
  {
  }

  lemma {:induction false} ShiftsAdd(d: nat, v: nat, k: nat)
    ensures Shifted(d + 128 * v, k) == Shifted(d, k) + Shifted(v, k + 1)
  {
    if k > 0 {
      ShiftsAdd(d, v, k - 1);
    }
  }

  lemma VarintEnds(b: Bytes, limit: nat, k: nat, acc: nat, rest: Bytes)
    requires VarintSoFar(b, limit, k, acc, rest) && (k == limit || rest == [])
    ensures ReadVarint(b, limit) == Failed && (if |b| >= limit then b[limit..] else []) == rest
  {
  }

  lemma AddModulo(a: nat, b: nat, m: nat)
    requires m == TWO32 || m == TWO64
    ensures Low(Low(a, m) + b, m) == Low(a + b, m)
  {
  }

  lemma LowIsSmall(v: nat, m: nat)
    requires v < m
    ensures Low(v, m) == v
  {
  }

  class IStream {
    const buf: Bytes
    var pos: nat
    var bytesLeft: nat

    ghost predicate Ok()
      reads this
    {
      pos + bytesLeft <= |buf|
    }

    ghost function Rest(): Bytes
      requires Ok()
      reads this
    {
      buf[pos..pos + bytesLeft]
    }

    constructor (buf: Bytes, pos: nat, bytesLeft: nat)
      requires pos + bytesLeft <= |buf|
      ensures Ok() && Rest() == buf[pos..pos + bytesLeft]
      ensures this.buf == buf && this.pos == pos && this.bytesLeft == bytesLeft
    {
      this.buf, this.pos, this.bytesLeft := buf, pos, bytesLeft;
    }

    method Read(n: nat) returns (ok: bool, bytes: Bytes)
      requires Ok()
      modifies this
      ensures Ok() && pos + bytesLeft == old(pos + bytesLeft)
      ensures ok <==> n <= |old(Rest())|
      ensures if ok then bytes == old(Rest())[..n] && Rest() == old(Rest())[n..] else Rest() == old(Rest())
    {
      if bytesLeft < n {
        return false, [];
      }
      ok, bytes := true, buf[pos..pos + n];
      pos, bytesLeft := pos + n, bytesLeft - n;
    }

    method ReadByte() returns (ok: bool, byte: Byte)
      requires Ok()
      modifies this
      ensures Ok() && pos + bytesLeft == old(pos + bytesLeft)
      ensures ok <==> old(Rest()) != []
      ensures if ok then byte == old(Rest())[0] && Rest() == old(Rest())[1..] else Rest() == []
    {
      if bytesLeft == 0 {
        return false, 0;
      }
      ok, byte := true, buf[pos];
      pos, bytesLeft := pos + 1, bytesLeft - 1;
    }

    // Seven bits a byte; bits shifted past the width fall off.
    method DecodeVarint32() returns (r: Option<nat>)
      requires Ok()
      modifies this
      ensures Ok() && pos + bytesLeft == old(pos + bytesLeft) && Rest() == Varint32(old(Rest())).rest
      ensures r == match Varint32(old(Rest())) case Got(v, _) => Some(v) case Lost(_) => None
    {
      hide ReadVarint, Shifted, VarintSoFar, Low;
      ghost var b, k: nat, acc: nat := Rest(), 0, 0;
      VarintStarts(b, 5);
      var ok, byte := ReadByte();
      if !ok {
        return None;
      }
      VarintByte(b, 5, 0, 0, b);
      ShiftedZero(byte as int % 128);
      LowIsSmall(byte as int % 128, TWO32);
      if byte < 128 {
        return Some(byte);
      }
      var bitpos, result: nat := 7, byte % 128;
      k, acc := 1, byte as int % 128;
      while byte >= 128
        invariant Ok() && pos + bytesLeft == old(pos + bytesLeft)
        invariant 1 <= k <= 5 && bitpos == 7 * k
        invariant byte >= 128 ==> VarintSoFar(b, 5, k, acc, Rest())
        invariant byte < 128 ==> ReadVarint(b, 5) == Parsed(acc, Rest())
        invariant result == Low(acc, TWO32)
        decreases 5 - k
      {
        if bitpos >= 32 {
          VarintEnds(b, 5, k, acc, Rest());
          return None;
        }
        ghost var rest := Rest();
        ok, byte := ReadByte();
        if !ok {
          VarintEnds(b, 5, k, acc, rest);
          return None;
        }
        VarintByte(b, 5, k, acc, rest);
        var part := Shifted(byte as int % 128, bitpos / 7);
        AddModulo(acc, part, TWO32);
        acc := acc + part;
        result := Low(result + part, TWO32);
        bitpos, k := bitpos + 7, k + 1;
      }
      return Some(result);
    }

    method DecodeVarint() returns (r: Option<nat>)
      requires Ok()
      modifies this
      ensures Ok() && pos + bytesLeft == old(pos + bytesLeft) && Rest() == Varint64(old(Rest())).rest
      ensures r == match Varint64(old(Rest())) case Got(v, _) => Some(v) case Lost(_) => None
    {
      hide ReadVarint, Shifted, VarintSoFar, Low;
      ghost var b, k: nat, acc: nat := Rest(), 0, 0;
      VarintStarts(b, 10);
      var bitpos, result: nat, byte: Byte := 0, 0, 128;
      LowIsSmall(0, TWO64);
      while byte >= 128
        invariant Ok() && pos + bytesLeft == old(pos + bytesLeft)
        invariant 0 <= k <= 10 && bitpos == 7 * k
        invariant byte >= 128 ==> VarintSoFar(b, 10, k, acc, Rest())
        invariant byte < 128 ==> ReadVarint(b, 10) == Parsed(acc, Rest())
        invariant result == Low(acc, TWO64)
        decreases 10 - k
      {
        if bitpos >= 64 {
          VarintEnds(b, 10, k, acc, Rest());
          return None;
        }
        ghost var rest := Rest();
        var ok;
        ok, byte := ReadByte();
        if !ok {
          VarintEnds(b, 10, k, acc, rest);
          return None;
        }
        VarintByte(b, 10, k, acc, rest);
        var part := Shifted(byte as int % 128, bitpos / 7);
        AddModulo(acc, part, TWO64);
        acc := acc + part;
        result := Low(result + part, TWO64);
        bitpos, k := bitpos + 7, k + 1;
      }
      return Some(result);
    }

    // The wire type and field number; at the end of the stream or at a zero tag there is none.
    method DecodeTag() returns (ok: bool, eof: bool, wire: nat, number: nat)
      requires Ok()
      modifies this
      ensures Ok() && pos + bytesLeft == old(pos + bytesLeft)
      ensures match ReadTag(old(Rest()))
              case Tag(w, n, rest) => ok && wire == w && number == n && Rest() == rest
              case End => !ok && eof
              case BadTag => !ok && !eof
    {
      ok, eof, wire, number := false, false, 0, 0;
      var t := DecodeVarint32();
      if t.None? {
        eof := bytesLeft == 0;
      } else if t.value == 0 {
        eof := true;
      } else {
        ok, wire, number := true, t.value % 8, t.value / 8;
      }
    }

    method SkipOver(wire: nat) returns (ok: bool)
      requires Ok()
      modifies this
      ensures Ok() && pos + bytesLeft == old(pos + bytesLeft)
      ensures match SkipField(wire, old(Rest())) case None => !ok case Some(rest) => ok && Rest() == rest
    {
      if wire == WT_VARINT {
        ok := SkipVarintBytes();
      } else if wire == WT_64BIT {
        var bytes;
        ok, bytes := Read(8);
      } else if wire == WT_STRING {
        var n := DecodeVarint32();
        if n.None? {
          return false;
        }
        var bytes;
        ok, bytes := Read(n.value);
      } else if wire == WT_32BIT {
        var bytes;
        ok, bytes := Read(4);
      } else {
        ok := false;
      }
    }

    method SkipVarintBytes() returns (ok: bool)
      requires Ok()
      modifies this
      ensures Ok() && pos + bytesLeft == old(pos + bytesLeft)
      ensures match SkipVarint(old(Rest())) case None => !ok case Some(rest) => ok && Rest() == rest
    {
      var byte: Byte := 128;
      while byte >= 128
        invariant Ok() && pos + bytesLeft == old(pos + bytesLeft)
        invariant if byte >= 128 then SkipVarint(old(Rest())) == SkipVarint(Rest())
                  else SkipVarint(old(Rest())) == Some(Rest())
        decreases bytesLeft, byte
      {
        ok, byte := ReadByte();
        if !ok {
          return;
        }
      }
      ok := true;
    }

    // A stream over the next length-prefixed bytes.  Until it is closed this one has given
    // the bytes up but has not moved past them.
    method MakeSubstream() returns (ok: bool, sub: IStream)
      requires Ok()
      modifies this
      ensures Ok() && fresh(sub) && pos + bytesLeft <= old(pos + bytesLeft)
      ensures match Substream(old(Rest()))
              case Lost(_) => !ok
              case Got(inner, rest) =>
                && ok && sub.Ok() && sub.Rest() == inner && sub.buf == buf && sub.pos == pos
                && pos + |inner| + bytesLeft == old(pos + bytesLeft)
                && buf[pos + |inner|..pos + |inner| + bytesLeft] == rest
    {
      hide PbVarint;
      var n := DecodeVarint32();
      sub := new IStream(buf, pos, bytesLeft);
      if n.None? || sub.bytesLeft < n.value {
        return false, sub;
      }
      ok := true;
      ghost var rest := Rest();
      ghost var from, left := pos, bytesLeft;
      SplitRest(buf, from, left, n.value);
      sub.bytesLeft := n.value;
      bytesLeft := bytesLeft - n.value;
      assert sub.Rest() == buf[from..from + n.value];
    }

    // Skips what the substream left over, and moves past it.
    method CloseSubstream(sub: IStream)
      requires sub != this && sub.Ok() && sub.buf == buf && sub.pos + sub.bytesLeft + bytesLeft <= |buf|
      modifies this, sub
      ensures Ok() && pos == old(sub.pos + sub.bytesLeft) && bytesLeft == old(bytesLeft)
    {
      if sub.bytesLeft > 0 {
        var _, _ := sub.Read(sub.bytesLeft);
      }
      pos := sub.pos;
    }

    // The decoder of the field's type, on top of the value that is there.
    method DecodeValue(l: LType, was: Value) returns (ok: bool, v: Value)
      requires Ok() && UniqueTagsIn(l)
      modifies this
      ensures Ok() && pos + bytesLeft <= old(pos + bytesLeft)
      ensures ok ==> pos + bytesLeft == old(pos + bytesLeft)
      ensures match ReadValue(l, old(Rest()), was)
              case None => !ok
              case Some((w, rest)) => ok && v == w && Rest() == rest
      decreases l
    {
      hide PbVarint, ReadMsg;
      ok, v := false, was;
      match l
      case VarintT(size) =>
        var u := DecodeVarint();
        if u.Some? && ValidSize(size) {
          var s := if size == 8 then AsSigned(u.value, 8) else AsSigned(u.value, 4);
          ok, v := FitsSigned(s, size), Int(s);
        }
      case UVarintT(size) =>
        var u := DecodeVarint();
        if u.Some? && ValidSize(size) {
          ok, v := FitsUnsigned(u.value, size), Int(u.value);
        }
      case SVarintT(size) =>
        var u := DecodeVarint();
        if u.Some? && ValidSize(size) {
          ok, v := FitsSigned(UnZigZag(u.value), size), Int(UnZigZag(u.value));
        }
      case Fixed32T =>
        var b;
        ok, b := Read(4);
        if ok {
          v := Int(DecodeFixed32(b));
        }
      case Fixed64T =>
        var b;
        ok, b := Read(8);
        if ok {
          v := Int(DecodeFixed64(b));
        }
      case BytesT(capacity) => ok, v := DecodeBytes(capacity, was);
      case StringT(size) => ok, v := DecodeBytes(size - 1, was);
      case FixedBytesT(size) => ok, v := DecodeFixedBytes(size, was);
      case SubMessageT(fs) => ok, v := DecodeSubmessage(fs, was);
    }

    // A length of at most max, and the bytes.
    method DecodeBytes(max: int, was: Value) returns (ok: bool, v: Value)
      requires Ok()
      modifies this
      ensures Ok() && pos + bytesLeft == old(pos + bytesLeft)
      ensures match Varint32(old(Rest()))
              case Lost(_) => !ok
              case Got(n, rest) =>
                if n > max || |rest| < n then !ok else ok && v == Raw(rest[..n]) && Rest() == rest[n..]
    {
      ok, v := false, was;
      var n := DecodeVarint32();
      if n.None? || n.value > max {
        return;
      }
      var b;
      ok, b := Read(n.value);
      if ok {
        v := Raw(b);
      }
    }

    method DecodeFixedBytes(size: nat, was: Value) returns (ok: bool, v: Value)
      requires Ok()
      modifies this
      ensures Ok() && pos + bytesLeft == old(pos + bytesLeft)
      ensures match ReadValue(FixedBytesT(size), old(Rest()), was)
              case None => !ok
              case Some((w, rest)) => ok && v == w && Rest() == rest
    {
      hide PbVarint;
      ok, v := false, was;
      var n := DecodeVarint32();
      if n.None? {
        return;
      }
      if n.value == 0 {
        return true, Raw(Zeros(size));
      }
      if n.value != size {
        return;
      }
      var b;
      ok, b := Read(size);
      if ok {
        v := Raw(b);
      }
    }

    method DecodeSubmessage(fields: seq<Field>, was: Value) returns (ok: bool, v: Value)
      requires Ok() && UniqueTagsDeep(fields)
      modifies this
      ensures Ok() && pos + bytesLeft <= old(pos + bytesLeft)
      ensures ok ==> pos + bytesLeft == old(pos + bytesLeft)
      ensures match ReadValue(SubMessageT(fields), old(Rest()), was)
              case None => !ok
              case Some((w, rest)) => ok && v == w && Rest() == rest
      decreases fields, 2
    {
      hide Substream, ReadMsg, UniqueTagsDeep;
      v := was;
      var sub;
      ok, sub := MakeSubstream();
      if !ok || !(was.Msg? && |was.slots| == |fields|) {
        return false, v;
      }
      var slots;
      ok, slots := sub.DecodeMsg(fields, was.slots);
      CloseSubstream(sub);
      v := Msg(slots);
    }

    // pb_decode_noinit: the fields of the rest of the stream, onto the values that are there.
    method DecodeMsg(fields: seq<Field>, was: seq<Slot>) returns (ok: bool, slots: seq<Slot>)
      requires Ok() && UniqueTagsDeep(fields) && |was| == |fields|
      modifies this
      ensures Ok() && pos + bytesLeft <= old(pos + bytesLeft)
      ensures ok ==> pos + bytesLeft == old(pos + bytesLeft)
      ensures ReadMsg(fields, old(Rest()), was) == if ok then Some(slots) else None
      decreases fields, 1
    {
      hide ReadFields, AllSeen, Tick, RequiredBefore;
      var seen: seq<Word>;
      var iter := new FieldIter(fields);
      ok, slots, seen := DecodeFields(iter, was);
      if ok {
        var count := CountRequired(iter);
        ok := AllSeen(seen, count) == Some(true);
      }
    }

    method DecodeFields(iter: FieldIter, was: seq<Slot>) returns (ok: bool, slots: seq<Slot>, seen: seq<Word>)
      requires Ok() && iter.Ok() && UniqueTagsDeep(iter.fields) && |was| == |iter.fields|
      modifies this, iter
      ensures Ok() && iter.Ok() && pos + bytesLeft <= old(pos + bytesLeft)
      ensures ok ==> pos + bytesLeft == old(pos + bytesLeft)
      ensures ReadFields(iter.fields, old(Rest()), was, [{}, {}]) == if ok then Some((slots, seen)) else None
      decreases iter.fields, 0
    {
      hide ReadTag, ReadSlot, SkipField, Tick, RequiredBefore;
      ok, slots, seen := true, was, [{}, {}];
      var fields := iter.fields;
      while bytesLeft > 0
        invariant Ok() && iter.Ok() && pos + bytesLeft == old(pos + bytesLeft)
        invariant |slots| == |fields| && |seen| == 2
        invariant ReadFields(fields, old(Rest()), was, [{}, {}]) == ReadFields(fields, Rest(), slots, seen)
        decreases bytesLeft
      {
        var tagged, eof, wire, number := DecodeTag();
        if !tagged {
          ok := eof;
          return;
        }
        var found := iter.Find(number);
        if found && fields == [] {
          // The terminator has no decodable type.
          ok := false;
          return;
        }
        FindsTag(fields, number, found, iter.pos);
        if !found {
          ok := SkipOver(wire);
          if !ok {
            return;
          }
        } else {
          seen := TickOff(iter, seen);
          var slot;
          ok, slot := DecodeSlot(fields[iter.pos], wire, slots[iter.pos]);
          if !ok {
            return;
          }
          slots := Stored(fields, slots, iter.pos, slot);
        }
      }
    }

    // decode_static_field.
    method DecodeSlot(f: Field, wire: nat, was: Slot) returns (ok: bool, slot: Slot)
      requires Ok() && UniqueTagsBelow(f)
      modifies this
      ensures Ok() && pos + bytesLeft <= old(pos + bytesLeft)
      ensures ok ==> pos + bytesLeft == old(pos + bytesLeft)
      ensures ReadSlot(f, wire, old(Rest()), was) == if ok then Some((slot, Rest())) else None
      decreases f, 1
    {
      hide ReadValue, ReadPacked, Substream;
      ok, slot := false, was;
      var v;
      match (f.htype, was)
      case (Required, Single(old')) =>
        ok, v := DecodeValue(f.ltype, old');
        slot := Single(v);
      case (Implicit, Single(old')) =>
        ok, v := DecodeValue(f.ltype, old');
        slot := Single(v);
      case (Optional, Opt(_, old')) =>
        ok, v := DecodeValue(f.ltype, old');
        slot := Opt(true, v);
      case (OneOf(_), One(_, _)) =>
        ok, v := DecodeValue(f.ltype, InitValue(f.ltype));
        slot := One(true, v);
      case (Repeated(arraySize), Rep(items)) =>
        if wire == WT_STRING && Packable(f.ltype) {
          ok, slot := DecodePacked(f, items);
        } else if |items| < arraySize {
          ok, v := DecodeValue(f.ltype, InitValue(f.ltype));
          slot := Rep(items + [v]);
        }
      case _ =>
    }

    method DecodePacked(f: Field, items: seq<Value>) returns (ok: bool, slot: Slot)
      requires Ok() && UniqueTagsBelow(f) && f.htype.Repeated? && Packable(f.ltype)
      modifies this
      ensures Ok() && pos + bytesLeft <= old(pos + bytesLeft)
      ensures ok ==> pos + bytesLeft == old(pos + bytesLeft)
      ensures ReadSlot(f, WT_STRING, old(Rest()), Rep(items)) == if ok then Some((slot, Rest())) else None
      decreases f, 0
    {
      hide ReadValue, Substream;
      slot := Rep(items);
      var sub;
      ok, sub := MakeSubstream();
      if !ok {
        return;
      }
      ghost var inner := sub.Rest();
      ghost var end := pos + |inner| + bytesLeft;
      var all := items;
      var status := true;
      while sub.bytesLeft > 0 && |all| < f.htype.arraySize
        modifies sub
        invariant status && sub.Ok() && sub.buf == buf && sub.pos + sub.bytesLeft == pos + |inner|
        invariant ReadPacked(f, inner, items) == ReadPacked(f, sub.Rest(), all)
        decreases sub.bytesLeft
      {
        var v;
        ghost var left := sub.Rest();
        status, v := sub.DecodeValue(f.ltype, Int(0));
        assert status ==> |sub.Rest()| < |left|;
        if !status {
          break;
        }
        all := all + [v];
      }
      if sub.bytesLeft != 0 {
        return false, slot;
      }
      CloseSubstream(sub);
      ok, slot := status, Rep(all);
    }
  }

  lemma SplitRest(buf: Bytes, pos: nat, left: nat, n: nat)
    requires n <= left && pos + left <= |buf|
    ensures buf[pos..pos + left][..n] == buf[pos..pos + n]
    ensures buf[pos..pos + left][n..] == buf[pos + n..pos + left]
  {
  }

  // Unique tags make the circular search find the one field that a search from the front finds.
  lemma FindsTag(fields: seq<Field>, tag: nat, found: bool, pos: nat)
    requires UniqueTags(fields)
    requires found <==> exists i :: 0 <= i < |fields| && fields[i].tag == tag
    requires found ==> pos < |fields| && fields[pos].tag == tag
    ensures FindTag(fields, tag) == if found then Some(pos) else None
  {
    var r := FindTag(fields, tag);
  }

  // Notes that the field the iterator is on was seen, if it is required.
  method TickOff(iter: FieldIter, seen: seq<Word>) returns (r: seq<Word>)
    requires iter.Ok() && iter.fields != [] && |seen| == 2
    ensures r == Tick(iter.fields, iter.pos, seen)
  {
    r := seen;
    if iter.fields[iter.pos].htype.Required? && iter.requiredFieldIndex < MAX_REQUIRED_FIELDS {
      r := Mark(seen, iter.requiredFieldIndex);
    }
  }

  // Goes on to the end of the fields to count the required ones.
  method CountRequired(iter: FieldIter) returns (count: nat)
    requires iter.Ok()
    modifies iter
    ensures count == RequiredBefore(iter.fields, |iter.fields|)
  {
    var more := true;
    var lastRequired := false;
    count := iter.requiredFieldIndex;
    while more
      invariant iter.Ok()
      invariant !more ==> iter.fields == [] || (count == RequiredBefore(iter.fields, |iter.fields| - 1)
                          && lastRequired == iter.fields[|iter.fields| - 1].htype.Required?)
      invariant !more && iter.fields == [] ==> count == 0
      decreases more, |iter.fields| - iter.pos
    {
      count := iter.requiredFieldIndex;
      lastRequired := iter.fields != [] && iter.fields[iter.pos].htype.Required?;
      more := iter.Next();
    }
    if lastRequired && iter.fields != [] {
      count := count + 1;
    }
  }

  // pb_decode: defaults first, then the fields of the buffer.
  method Decode(buffer: Bytes, fields: seq<Field>) returns (r: Option<seq<Slot>>)
    requires UniqueTagsDeep(fields)
    ensures r == ReadMsg(fields, buffer, InitMsg(fields))
  {
    var stream := new IStream(buffer, 0, |buffer|);
    assert stream.Rest() == buffer;
    var ok, slots := stream.DecodeMsg(fields, InitMsg(fields));
    r := if ok then Some(slots) else None;
  }
}
