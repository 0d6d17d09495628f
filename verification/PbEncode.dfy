/**
 nanopb's encoder (nanopb/pb_encode.c): a message is written in one pass, every submessage
 and packed array after a pass that only counts its bytes.
 */
module PbEncode {
  import opened Coding
  import opened PbCommon

  const WT_VARINT: nat := 0
  const WT_64BIT: nat := 1
  const WT_STRING: nat := 2
  const WT_32BIT: nat := 5

  // ---------- what is written

  // A 64-bit integer as unsigned, and shifted left by one.
  function AsUnsigned(v: int): (r: nat)
    requires FitsSigned(v, 8)
    ensures r < TWO64
  {
    if v < 0 then v + TWO64 else v
  }

  function Shl1(v: nat): nat {
    2 * v % TWO64
  }

  function Complement(v: nat): (r: nat)
    requires v < TWO64
    ensures r < TWO64
  {
    TWO64 - 1 - v
  }

  // pb_encode_svarint's zigzag.
  function ZigZag(v: int): (r: nat)
    requires FitsSigned(v, 8)
    ensures r < TWO64
  {
    if v < 0 then Complement(Shl1(AsUnsigned(v))) else Shl1(AsUnsigned(v))
  }

  function WireType(l: LType): nat {
    if l.VarintT? || l.UVarintT? || l.SVarintT? then WT_VARINT
    else if l.Fixed32T? then WT_32BIT
    else if l.Fixed64T? then WT_64BIT
    else WT_STRING
  }

  function TagBytes(wire: nat, tag: nat): Bytes {
    Varint(8 * tag + wire)
  }

  function Cat(a: Option<Bytes>, b: Option<Bytes>): Option<Bytes> {
    if a.Some? && b.Some? then Some(a.value + b.value) else None
  }

  // The bytes of a value after its tag; None when a size is exceeded.
  function ValueBytes(l: LType, v: Value): Option<Bytes>
    requires TypedValue(l, v)
    decreases l
  {
    match l
    case VarintT(_) => Some(Varint(AsUnsigned(v.v)))
    case UVarintT(_) => Some(Varint(v.v))
    case SVarintT(_) => Some(Varint(ZigZag(v.v)))
    case Fixed32T => Some(Fixed32(v.v))
    case Fixed64T => Some(Fixed64(v.v))
    case BytesT(capacity) => if |v.bytes| > capacity then None else Some(LengthPrefixed(v.bytes))
    case StringT(size) => Some(LengthPrefixed(CString(v.bytes, size)))
    case FixedBytesT(_) => Some(LengthPrefixed(v.bytes))
    case SubMessageT(fs) =>
      match MsgBytes(fs, v.slots, |fs|)
      case None => None
      case Some(b) => Some(LengthPrefixed(b))
  }

  // The values one after the other.
  function PackedBytes(f: Field, items: seq<Value>, n: nat): Option<Bytes>
    requires n <= |items| && forall i | 0 <= i < |items| :: TypedValue(f.ltype, items[i])
    decreases f, 1, n
  {
    if n == 0 then Some([]) else Cat(PackedBytes(f, items, n - 1), ValueBytes(f.ltype, items[n - 1]))
  }

  // The values one after the other, each behind the tag.
  function TaggedBytes(f: Field, items: seq<Value>, n: nat): Option<Bytes>
    requires n <= |items| && forall i | 0 <= i < |items| :: TypedValue(f.ltype, items[i])
    decreases f, 1, n
  {
    if n == 0 then Some([]) else Cat(TaggedBytes(f, items, n - 1), OneBytes(f, items[n - 1]))
  }

  function OneBytes(f: Field, v: Value): Option<Bytes>
    requires TypedValue(f.ltype, v)
    decreases f, 0
  {
    Cat(Some(TagBytes(WireType(f.ltype), f.tag)), ValueBytes(f.ltype, v))
  }

  function SlotBytes(f: Field, s: Slot): Option<Bytes>
    requires TypedSlot(f, s)
    decreases f, 2
  {
    match f.htype
    case Required => OneBytes(f, s.v)
    case Optional => if s.has then OneBytes(f, s.v) else Some([])
    case Implicit => if LooksZero(f.ltype, s.v) then Some([]) else OneBytes(f, s.v)
    case OneOf(_) => if s.active then OneBytes(f, s.v) else Some([])
    case Repeated(arraySize) =>
      if s.items == [] then Some([])
      else if |s.items| > arraySize then None
      else if Packable(f.ltype) then
        match PackedBytes(f, s.items, |s.items|)
        case None => None
        case Some(b) => Some(TagBytes(WT_STRING, f.tag) + LengthPrefixed(b))
      else TaggedBytes(f, s.items, |s.items|)
  }

  // The first n fields.
  function MsgBytes(fields: seq<Field>, slots: seq<Slot>, n: nat): Option<Bytes>
    requires TypedMsg(fields, slots) && n <= |fields|
    decreases fields, 0, n
  {
    if n == 0 then Some([])
    else Cat(MsgBytes(fields, slots, n - 1), SlotBytes(fields[n - 1], slots[n - 1]))
  }

  lemma {:induction false} PackedGrows(f: Field, items: seq<Value>, n: nat)
    requires n <= |items| && forall i | 0 <= i < |items| :: TypedValue(f.ltype, items[i])
    ensures var all, some := PackedBytes(f, items, |items|), PackedBytes(f, items, n);
            all.Some? ==> some.Some? && |some.value| <= |all.value|
    decreases |items| - n
  {
    if n < |items| {
      PackedGrows(f, items, n + 1);
    }
  }

  lemma PackedStarts(f: Field, items: seq<Value>)
    requires forall i | 0 <= i < |items| :: TypedValue(f.ltype, items[i])
    ensures PackedBytes(f, items, 0) == Some([])
  {
  }

  lemma PackedStep(f: Field, items: seq<Value>, n: nat)
    requires n < |items| && forall i | 0 <= i < |items| :: TypedValue(f.ltype, items[i])
    ensures PackedBytes(f, items, n + 1) == Cat(PackedBytes(f, items, n), ValueBytes(f.ltype, items[n]))
  {
  }

  lemma {:induction false} TaggedGrows(f: Field, items: seq<Value>, n: nat)
    requires n <= |items| && forall i | 0 <= i < |items| :: TypedValue(f.ltype, items[i])
    ensures var all, some := TaggedBytes(f, items, |items|), TaggedBytes(f, items, n);
            all.Some? ==> some.Some? && |some.value| <= |all.value|
    decreases |items| - n
  {
    if n < |items| {
      TaggedGrows(f, items, n + 1);
    }
  }

  lemma TaggedStarts(f: Field, items: seq<Value>)
    requires forall i | 0 <= i < |items| :: TypedValue(f.ltype, items[i])
    ensures TaggedBytes(f, items, 0) == Some([])
  {
  }

  lemma TaggedStep(f: Field, items: seq<Value>, n: nat)
    requires n < |items| && forall i | 0 <= i < |items| :: TypedValue(f.ltype, items[i])
    ensures TaggedBytes(f, items, n + 1) == Cat(TaggedBytes(f, items, n), OneBytes(f, items[n]))
  {
  }

  lemma {:induction false} MsgGrows(fields: seq<Field>, slots: seq<Slot>, n: nat)
    requires TypedMsg(fields, slots) && n <= |fields|
    ensures var all, some := MsgBytes(fields, slots, |fields|), MsgBytes(fields, slots, n);
            all.Some? ==> some.Some? && |some.value| <= |all.value|
    decreases |fields| - n
  {
    if n < |fields| {
      MsgGrows(fields, slots, n + 1);
    }
  }

  lemma NoFields(slots: seq<Slot>)
    requires TypedMsg([], slots)
    ensures MsgBytes([], slots, 0) == Some([])
  {
  }

  lemma MsgStep(fields: seq<Field>, slots: seq<Slot>, n: nat)
    requires TypedMsg(fields, slots) && n < |fields|
    ensures |slots| == |fields| && TypedSlot(fields[n], slots[n])
    ensures MsgBytes(fields, slots, 0) == Some([])
    ensures MsgBytes(fields, slots, n + 1) == Cat(MsgBytes(fields, slots, n), SlotBytes(fields[n], slots[n]))
  {
  }

  // Fixed-size items need no counting pass.
  lemma {:induction false} FixedPackedSize(f: Field, items: seq<Value>, n: nat)
    requires f.ltype.Fixed32T? || f.ltype.Fixed64T?
    requires n <= |items| && forall i | 0 <= i < |items| :: TypedValue(f.ltype, items[i])
    ensures var b := PackedBytes(f, items, n);
            b.Some? && |b.value| == (if f.ltype.Fixed32T? then 4 else 8) * n
  {
    if n > 0 {
      FixedPackedSize(f, items, n - 1);
    }
  }

  // ---------- which messages can be encoded

  // No array that is written is longer, and no bytes value that is written is larger, than its
  // descriptor allows.
  ghost predicate Encodable(l: LType, v: Value)
    decreases l
  {
    match l
    case BytesT(capacity) => v.Raw? ==> |v.bytes| <= capacity
    case SubMessageT(fs) => v.Msg? && |v.slots| == |fs| ==> MsgEncodable(fs, v.slots)
    case _ => true
  }

  ghost predicate SlotEncodable(f: Field, s: Slot)
    decreases f
  {
    match s
    case Single(v) => (f.htype.Implicit? && LooksZero(f.ltype, v)) || Encodable(f.ltype, v)
    case Opt(has, v) => has ==> Encodable(f.ltype, v)
    case One(active, v) => active ==> Encodable(f.ltype, v)
    case Rep(items) =>
      && (f.htype.Repeated? ==> |items| <= f.htype.arraySize)
      && forall i | 0 <= i < |items| :: Encodable(f.ltype, items[i])
  }

  ghost predicate MsgEncodable(fields: seq<Field>, slots: seq<Slot>)
    requires |slots| == |fields|
    decreases fields
  {
    forall i | 0 <= i < |fields| :: SlotEncodable(fields[i], slots[i])
  }

  lemma {:induction false} ValueEncodableIff(l: LType, v: Value)
    requires TypedValue(l, v)
    ensures ValueBytes(l, v).Some? <==> Encodable(l, v)
    decreases l
  {
    if l.SubMessageT? {
      MsgEncodableIff(l.fields, v.slots, |l.fields|);
    }
  }

  lemma {:induction false} SlotEncodableIff(f: Field, s: Slot)
    requires TypedSlot(f, s)
    ensures SlotBytes(f, s).Some? <==> SlotEncodable(f, s)
    decreases f, 1
  {
    hide TypedValue, ValueBytes, Encodable, LooksZero;
    if s.Rep? {
      ItemsEncodableIff(f, s.items, |s.items|);
    } else {
      ValueEncodableIff(f.ltype, s.v);
    }
  }

  lemma {:induction false} ItemsEncodableIff(f: Field, items: seq<Value>, n: nat)
    requires n <= |items| && forall i | 0 <= i < |items| :: TypedValue(f.ltype, items[i])
    ensures PackedBytes(f, items, n).Some? <==> forall i | 0 <= i < n :: Encodable(f.ltype, items[i])
    ensures TaggedBytes(f, items, n).Some? <==> forall i | 0 <= i < n :: Encodable(f.ltype, items[i])
    decreases f, 0, n
  {
    hide TypedValue, ValueBytes, Encodable;
    if n > 0 {
      ItemsEncodableIff(f, items, n - 1);
      ValueEncodableIff(f.ltype, items[n - 1]);
    }
  }

  // A message has an encoding if and only if every array and every bytes value in what is
  // written of it fits.
  lemma {:induction false} MsgEncodableIff(fields: seq<Field>, slots: seq<Slot>, n: nat)
    requires TypedMsg(fields, slots) && n <= |fields|
    ensures |slots| == |fields|
    ensures MsgBytes(fields, slots, n).Some? <==> forall i | 0 <= i < n :: SlotEncodable(fields[i], slots[i])
    ensures n == |fields| ==> (MsgBytes(fields, slots, n).Some? <==> MsgEncodable(fields, slots))
    decreases fields, 2, n
  {
    hide SlotBytes, SlotEncodable, TypedSlot;
    if n > 0 {
      MsgEncodableIff(fields, slots, n - 1);
      assert TypedSlot(fields[n - 1], slots[n - 1]);
      SlotEncodableIff(fields[n - 1], slots[n - 1]);
    }
  }

  // Tags and values that the description of the wire format gives as examples.
  lemma TagExamples()
    ensures TagBytes(WireType(UVarintT(4)), 1) == TagBytes(WireType(VarintT(4)), 1) == TagBytes(WireType(SVarintT(4)), 1) == [0x08]
    ensures TagBytes(WireType(Fixed32T), 1) == [0x0D] && TagBytes(WireType(Fixed64T), 1) == [0x09]
    ensures TagBytes(WireType(StringT(8)), 2) == TagBytes(WT_STRING, 2) == [0x12]
  {
  }

  lemma NumberExamples()
    ensures ValueBytes(UVarintT(4), Int(150)) == Some([0x96, 0x01])
    ensures ValueBytes(SVarintT(4), Int(-2)) == Some([0x03])
    ensures ValueBytes(VarintT(4), Int(-2)) == Some([0xFE, 0xFF, 0xFF, 0xFF, 0xFF, 0xFF, 0xFF, 0xFF, 0xFF, 0x01])
  {
    MinusTwo();
    assert Varint(1) == [1];
    assert Varint(150) == [0x96, 0x01];
    assert ZigZag(-2) == 3;
    assert Varint(3) == [3];
    hide Varint, ZigZag;
  }

  lemma MinusTwo()
    ensures Varint(AsUnsigned(-2)) == [0xFE, 0xFF, 0xFF, 0xFF, 0xFF, 0xFF, 0xFF, 0xFF, 0xFF, 0x01]
  {
    assert Varint(1) == [1];
    assert Varint(0xFF) == [0xFF, 1];
    assert Varint(0x7FFF) == [0xFF] + Varint(0xFF);
    assert Varint(0x3F_FFFF) == [0xFF] + Varint(0x7FFF);
    assert Varint(0x1FFF_FFFF) == [0xFF] + Varint(0x3F_FFFF);
    assert Varint(0xF_FFFF_FFFF) == [0xFF] + Varint(0x1FFF_FFFF);
    assert Varint(0x7FF_FFFF_FFFF) == [0xFF] + Varint(0xF_FFFF_FFFF);
    assert Varint(0x3_FFFF_FFFF_FFFF) == [0xFF] + Varint(0x7FF_FFFF_FFFF);
    assert Varint(0x1FF_FFFF_FFFF_FFFF) == [0xFF] + Varint(0x3_FFFF_FFFF_FFFF);
    assert AsUnsigned(-2) / 128 == 0x1FF_FFFF_FFFF_FFFF && AsUnsigned(-2) % 128 == 126;
  }

  // ---------- the stream

  datatype Status = Ok | StreamFull | SizeChanged | ArrayTooLong | BytesTooLong

  // A stream writes to a buffer, or only counts.  out is what its buffer has received.
  class OStream {
    const sizing: bool
    const maxSize: nat
    var out: Bytes
    var bytesWritten: nat

    constructor Sizing()
      ensures sizing && out == [] && bytesWritten == 0
    {
      sizing, maxSize, out, bytesWritten := true, 0, [], 0;
    }

    constructor Buffer(maxSize: nat, out: Bytes)
      ensures !sizing && this.maxSize == maxSize && this.out == out && bytesWritten == 0
    {
      sizing, this.maxSize, this.out, bytesWritten := false, maxSize, out, 0;
    }

    ghost predicate Valid()
      reads this
    {
      sizing || bytesWritten <= maxSize
    }

    // What writing these bytes does; None stands for an encoding error met on the way.
    ghost predicate Wrote(bytesBefore: nat, outBefore: Bytes, status: Status, bytes: Option<Bytes>)
      reads this
    {
      && Valid()
      && match bytes
         case None => status != Ok && status != SizeChanged
         case Some(b) =>
           if sizing || bytesBefore + |b| <= maxSize then
             && status == Ok && bytesWritten == bytesBefore + |b|
             && out == if sizing then outBefore else outBefore + b
           else status == StreamFull
    }

    method Write(buf: Bytes) returns (status: Status)
      requires Valid()
      modifies this
      ensures Wrote(old(bytesWritten), old(out), status, Some(buf))
    {
      if !sizing {
        if bytesWritten + |buf| > maxSize {
          return StreamFull;
        }
        out := out + buf;
      }
      bytesWritten := bytesWritten + |buf|;
      return Ok;
    }

    // For a value below 2^64 at most ten bytes.
    method EncodeVarint(value: nat) returns (status: Status)
      requires Valid()
      modifies this
      ensures Wrote(old(bytesWritten), old(out), status, Some(Varint(value)))
    {
      if value <= 0x7F {
        status := Write([value]);
        return;
      }
      var buffer: Bytes := [];
      var v: nat := value;
      while v > 0
        invariant v > 0 ==> buffer + Varint(v) == Varint(value)
        invariant v == 0 ==>
          buffer != [] && buffer[|buffer| - 1] >= 128
          && buffer[..|buffer| - 1] + [buffer[|buffer| - 1] - 128] == Varint(value)
      {
        assert v >= 128 ==> Varint(v) == [v % 128 + 128] + Varint(v / 128);
        buffer := buffer + [v % 128 + 128];
        v := v / 128;
      }
      buffer := buffer[|buffer| - 1 := buffer[|buffer| - 1] - 128];
      status := Write(buffer);
    }

    method EncodeTag(wire: nat, tag: nat) returns (status: Status)
      requires Valid()
      modifies this
      ensures Wrote(old(bytesWritten), old(out), status, Some(TagBytes(wire, tag)))
    {
      status := EncodeVarint(8 * tag + wire);
    }

    method EncodeString(b: Bytes) returns (status: Status)
      requires Valid()
      modifies this
      ensures Wrote(old(bytesWritten), old(out), status, Some(LengthPrefixed(b)))
    {
      hide Varint;
      status := EncodeVarint(|b|);
      if status == Ok {
        status := Write(b);
      }
    }

    method EncodeTagForField(f: Field) returns (status: Status)
      requires Valid()
      modifies this
      ensures Wrote(old(bytesWritten), old(out), status, Some(TagBytes(WireType(f.ltype), f.tag)))
    {
      status := EncodeTag(WireType(f.ltype), f.tag);
    }

    method EncodeSubmessage(fields: seq<Field>, slots: seq<Slot>) returns (status: Status)
      requires TypedMsg(fields, slots)
      requires Valid()
      modifies this
      ensures Wrote(old(bytesWritten), old(out), status, Prefixed(MsgBytes(fields, slots, |fields|)))
      decreases fields, 1
    {
      var counter := new OStream.Sizing();
      status := counter.EncodeMessage(fields, slots);
      if status != Ok {
        return;
      }
      var size := counter.bytesWritten;
      status := EncodeVarint(size);
      if status != Ok {
        return;
      }
      if sizing {
        bytesWritten := bytesWritten + size;
        return;
      }
      if bytesWritten + size > maxSize {
        return StreamFull;
      }
      var sub := new OStream.Buffer(size, out);
      status := sub.EncodeMessage(fields, slots);
      bytesWritten := bytesWritten + sub.bytesWritten;
      out := sub.out;
      if sub.bytesWritten != size {
        return SizeChanged;
      }
    }

    // The encoder of the field's type.
    method EncodeValue(l: LType, v: Value) returns (status: Status)
      requires TypedValue(l, v)
      requires Valid()
      modifies this
      ensures Wrote(old(bytesWritten), old(out), status, ValueBytes(l, v))
      decreases l
    {
      match l
      case VarintT(_) => status := EncodeVarint(AsUnsigned(v.v));
      case UVarintT(_) => status := EncodeVarint(v.v);
      case SVarintT(_) => status := EncodeVarint(ZigZag(v.v));
      case Fixed32T => status := Write(Fixed32(v.v));
      case Fixed64T => status := Write(Fixed64(v.v));
      case BytesT(capacity) =>
        if |v.bytes| > capacity {
          return BytesTooLong;
        }
        status := EncodeString(v.bytes);
      case StringT(size) =>
        var n := 0;
        while n < size && n < |v.bytes| && v.bytes[n] != 0
          invariant n <= size && n <= |v.bytes| && forall i | 0 <= i < n :: v.bytes[i] != 0
        {
          n := n + 1;
        }
        status := EncodeString(v.bytes[..n]);
      case FixedBytesT(_) => status := EncodeString(v.bytes);
      case SubMessageT(fs) => status := EncodeSubmessage(fs, v.slots);
    }

    method EncodeTagged(f: Field, v: Value) returns (status: Status)
      requires TypedValue(f.ltype, v)
      requires Valid()
      modifies this
      ensures Wrote(old(bytesWritten), old(out), status, OneBytes(f, v))
      decreases f, 0, 0
    {
      hide TagBytes, ValueBytes, TypedValue;
      status := EncodeTagForField(f);
      if status == Ok {
        status := EncodeValue(f.ltype, v);
      }
    }

    method EncodeArray(f: Field, items: seq<Value>) returns (status: Status)
      requires f.htype.Repeated? && TypedSlot(f, Rep(items))
      requires Valid()
      modifies this
      ensures Wrote(old(bytesWritten), old(out), status, SlotBytes(f, Rep(items)))
      decreases f, 1
    {
      if items == [] {
        return Ok;
      }
      if |items| > f.htype.arraySize {
        return ArrayTooLong;
      }
      if Packable(f.ltype) {
        status := EncodePacked(f, items);
      } else {
        status := EncodeEach(f, items);
      }
    }

    method EncodeEach(f: Field, items: seq<Value>) returns (status: Status)
      requires forall i | 0 <= i < |items| :: TypedValue(f.ltype, items[i])
      requires Valid()
      modifies this
      ensures Wrote(old(bytesWritten), old(out), status, TaggedBytes(f, items, |items|))
      decreases f, 0, 1
    {
      hide TypedValue, OneBytes, TaggedBytes;
      TaggedStarts(f, items);
      for i := 0 to |items|
        invariant Wrote(old(bytesWritten), old(out), Ok, TaggedBytes(f, items, i))
      {
        TaggedGrows(f, items, i + 1);
        TaggedStep(f, items, i);
        status := EncodeTagged(f, items[i]);
        if status != Ok {
          return;
        }
      }
      status := Ok;
    }

    // The total size first, then the values.
    method EncodePacked(f: Field, items: seq<Value>) returns (status: Status)
      requires Packable(f.ltype) && forall i | 0 <= i < |items| :: TypedValue(f.ltype, items[i])
      requires Valid()
      modifies this
      ensures Wrote(old(bytesWritten), old(out), status,
                    Cat(Some(TagBytes(WT_STRING, f.tag)), Prefixed(PackedBytes(f, items, |items|))))
      decreases f, 0, 2
    {
      hide TypedValue, PackedBytes, TagBytes, Varint;
      status := EncodeTag(WT_STRING, f.tag);
      if status != Ok {
        return;
      }
      var size: nat;
      status, size := PackedSize(f, items);
      if status != Ok {
        return;
      }
      status := EncodeVarint(size);
      if status != Ok {
        return;
      }
      if sizing {
        bytesWritten := bytesWritten + size;
        return;
      }
      status := EncodeItems(f, items);
    }

    // Items of a fixed size need no counting pass.
    method PackedSize(f: Field, items: seq<Value>) returns (status: Status, size: nat)
      requires Packable(f.ltype) && forall i | 0 <= i < |items| :: TypedValue(f.ltype, items[i])
      ensures var bytes := PackedBytes(f, items, |items|);
              if bytes.Some? then status == Ok && size == |bytes.value| else status != Ok && status != SizeChanged
      decreases f, 0, 1
    {
      status := Ok;
      if f.ltype.Fixed32T? {
        size := 4 * |items|;
        FixedPackedSize(f, items, |items|);
      } else if f.ltype.Fixed64T? {
        size := 8 * |items|;
        FixedPackedSize(f, items, |items|);
      } else {
        var counter := new OStream.Sizing();
        status := counter.EncodeItems(f, items);
        size := counter.bytesWritten;
      }
    }

    method EncodeItems(f: Field, items: seq<Value>) returns (status: Status)
      requires forall i | 0 <= i < |items| :: TypedValue(f.ltype, items[i])
      requires Valid()
      modifies this
      ensures Wrote(old(bytesWritten), old(out), status, PackedBytes(f, items, |items|))
      decreases f, 0, 0
    {
      hide TypedValue, ValueBytes, PackedBytes;
      PackedStarts(f, items);
      for i := 0 to |items|
        invariant Wrote(old(bytesWritten), old(out), Ok, PackedBytes(f, items, i))
      {
        PackedGrows(f, items, i + 1);
        PackedStep(f, items, i);
        status := EncodeValue(f.ltype, items[i]);
        if status != Ok {
          return;
        }
      }
      status := Ok;
    }

    method EncodeField(f: Field, s: Slot) returns (status: Status)
      requires TypedSlot(f, s)
      requires Valid()
      modifies this
      ensures Wrote(old(bytesWritten), old(out), status, SlotBytes(f, s))
      decreases f, 2
    {
      match f.htype
      case Required => status := EncodeTagged(f, s.v);
      case Optional =>
        status := Ok;
        if s.has {
          status := EncodeTagged(f, s.v);
        }
      case Implicit =>
        status := Ok;
        if !LooksZero(f.ltype, s.v) {
          status := EncodeTagged(f, s.v);
        }
      case OneOf(_) =>
        status := Ok;
        if s.active {
          status := EncodeTagged(f, s.v);
        }
      case Repeated(_) => status := EncodeArray(f, s.items);
    }

    method EncodeMessage(fields: seq<Field>, slots: seq<Slot>) returns (status: Status)
      requires TypedMsg(fields, slots)
      requires Valid()
      modifies this
      ensures Wrote(old(bytesWritten), old(out), status, MsgBytes(fields, slots, |fields|))
      decreases fields, 0
    {
      hide MsgBytes, SlotBytes, TypedMsg, TypedSlot;
      if fields == [] {
        NoFields(slots);
        return Ok;
      }
      MsgStep(fields, slots, 0);
      var iter := new FieldIter(fields);
      var more := true;
      while more
        invariant iter.Ok() && iter.fields == fields && fresh(iter)
        invariant !more ==> iter.pos == 0
        invariant Wrote(old(bytesWritten), old(out), Ok, MsgBytes(fields, slots, if more then iter.pos else |fields|))
        decreases more, |fields| - iter.pos
      {
        MsgStep(fields, slots, iter.pos);
        MsgGrows(fields, slots, iter.pos + 1);
        status := EncodeField(fields[iter.pos], slots[iter.pos]);
        if status != Ok {
          return;
        }
        more := iter.Next();
      }
      status := Ok;
    }
  }

  function Prefixed(b: Option<Bytes>): Option<Bytes> {
    if b.Some? then Some(LengthPrefixed(b.value)) else None
  }

  // pb_get_encoded_size counts exactly the bytes that pb_encode writes.
  method GetEncodedSize(fields: seq<Field>, slots: seq<Slot>) returns (size: Option<nat>)
    requires TypedMsg(fields, slots)
    ensures var bytes := MsgBytes(fields, slots, |fields|);
            size == if bytes.Some? then Some(|bytes.value|) else None
    ensures |slots| == |fields| && (size.Some? <==> MsgEncodable(fields, slots))
  {
    MsgEncodableIff(fields, slots, |fields|);
    var stream := new OStream.Sizing();
    var status := stream.EncodeMessage(fields, slots);
    size := if status == Ok then Some(stream.bytesWritten) else None;
  }

  // pb_encode to a buffer: when the encoding fits, it is what the buffer holds.
  method Encode(fields: seq<Field>, slots: seq<Slot>, bufferSize: nat) returns (status: Status, written: Bytes)
    requires TypedMsg(fields, slots)
    ensures var bytes := MsgBytes(fields, slots, |fields|);
            && (status == Ok <==> bytes.Some? && |bytes.value| <= bufferSize)
            && (status == Ok ==> written == bytes.value)
            && status != SizeChanged && (status == StreamFull && bytes.Some? ==> |bytes.value| > bufferSize)
    ensures |slots| == |fields| && (!MsgEncodable(fields, slots) ==> status != Ok)
    ensures MsgEncodable(fields, slots) ==> status == Ok || status == StreamFull
  {
    MsgEncodableIff(fields, slots, |fields|);
    var stream := new OStream.Buffer(bufferSize, []);
    status := stream.EncodeMessage(fields, slots);
    written := stream.out;
  }
}
