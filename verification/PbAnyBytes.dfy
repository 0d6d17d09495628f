/**
 nanopb's decoder on bytes of any origin: what it gives is always a message of its
 descriptor, with every array, bytes value and string in its bounds, that can be encoded
 and decoded again.
 */
module PbAnyBytes {
  import opened Coding
  import opened PbCommon
  import opened PbEncode
  import opened PbDecode
  import opened PbMerge
  import opened PbRoundTrip

  // Numbers have a size that is supported, and strings have room for their terminator.
  ghost predicate Declared(l: LType)
    decreases l
  {
    match l
    case VarintT(n) => ValidSize(n)
    case UVarintT(n) => ValidSize(n)
    case SVarintT(n) => ValidSize(n)
    case StringT(n) => n > 0
    case SubMessageT(fs) => DeclaredMsg(fs)
    case _ => true
  }

  ghost predicate DeclaredField(f: Field)
    decreases f
  {
    Declared(f.ltype)
  }

  ghost predicate DeclaredMsg(fields: seq<Field>)
    decreases fields
  {
    forall i | 0 <= i < |fields| :: DeclaredField(fields[i])
  }

  // A value that the C structure of its type can hold.
  ghost predicate Holdable(l: LType, v: Value)
    decreases l
  {
    match l
    case BytesT(capacity) => v.Raw? && |v.bytes| <= capacity
    case StringT(size) => v.Raw? && |v.bytes| < size
    case SubMessageT(fs) => v.Msg? && HoldableMsg(fs, v.slots)
    case _ => TypedValue(l, v)
  }

  ghost predicate HoldableSlot(f: Field, s: Slot)
    decreases f
  {
    match f.htype
    case Required => s.Single? && Holdable(f.ltype, s.v)
    case Implicit => s.Single? && Holdable(f.ltype, s.v)
    case Optional => s.Opt? && Holdable(f.ltype, s.v)
    case OneOf(_) => s.One? && Holdable(f.ltype, s.v)
    case Repeated(arraySize) =>
      s.Rep? && |s.items| <= arraySize && forall i | 0 <= i < |s.items| :: Holdable(f.ltype, s.items[i])
  }

  // At most one field of a oneof is active.
  ghost predicate HoldableMsg(fields: seq<Field>, slots: seq<Slot>)
    decreases fields
  {
    && |slots| == |fields| && (forall i | 0 <= i < |fields| :: HoldableSlot(fields[i], slots[i]))
    && OneActive(fields, slots)
  }

  // ---------- holdable messages can be encoded

  lemma {:induction false} HoldableIsTyped(l: LType, v: Value)
    requires Holdable(l, v)
    ensures TypedValue(l, v) && Encodable(l, v) && Terminated(l, v)
    decreases l
  {
    if l.SubMessageT? {
      HoldableMsgIsTyped(l.fields, v.slots);
    }
  }

  lemma {:induction false} HoldableSlotIsTyped(f: Field, s: Slot)
    requires HoldableSlot(f, s)
    ensures TypedSlot(f, s) && SlotEncodable(f, s) && SlotTerminated(f, s)
    decreases f
  {
    hide Holdable, TypedValue, Encodable, Terminated, LooksZero;
    if s.Rep? {
      forall i | 0 <= i < |s.items|
        ensures TypedValue(f.ltype, s.items[i]) && Encodable(f.ltype, s.items[i]) && Terminated(f.ltype, s.items[i]) {
        HoldableIsTyped(f.ltype, s.items[i]);
      }
    } else {
      HoldableIsTyped(f.ltype, s.v);
    }
  }

  lemma {:induction false} HoldableMsgIsTyped(fields: seq<Field>, slots: seq<Slot>)
    requires HoldableMsg(fields, slots)
    ensures TypedMsg(fields, slots) && |slots| == |fields| && MsgEncodable(fields, slots) && MsgTerminated(fields, slots)
    decreases fields
  {
    hide HoldableSlot, TypedSlot, SlotEncodable, SlotTerminated, OneActive;
    forall i | 0 <= i < |fields| ensures TypedSlot(fields[i], slots[i]) && SlotEncodable(fields[i], slots[i]) && SlotTerminated(fields[i], slots[i]) {
      HoldableSlotIsTyped(fields[i], slots[i]);
    }
  }

  // ---------- what is decoded is holdable

  lemma {:induction false} DefaultIsHoldable(l: LType)
    requires Declared(l)
    ensures Holdable(l, InitValue(l))
    decreases l
  {
    if l.SubMessageT? {
      DefaultMsgIsHoldable(l.fields);
    }
  }

  lemma {:induction false} DefaultSlotIsHoldable(f: Field)
    requires DeclaredField(f)
    ensures HoldableSlot(f, InitSlot(f))
    decreases f
  {
    DefaultIsHoldable(f.ltype);
  }

  lemma {:induction false} DefaultMsgIsHoldable(fields: seq<Field>)
    requires DeclaredMsg(fields)
    ensures HoldableMsg(fields, InitMsg(fields))
    decreases fields
  {
    hide HoldableSlot, DeclaredField;
    forall i | 0 <= i < |fields| ensures HoldableSlot(fields[i], InitMsg(fields)[i]) {
      DefaultSlotIsHoldable(fields[i]);
    }
  }

  lemma {:induction false} ValueIsHoldable(l: LType, b: Bytes, was: Value)
    requires Declared(l) && (l.SubMessageT? ==> Holdable(l, was))
    ensures var r := ReadValue(l, b, was); r.Some? ==> Holdable(l, r.value.0)
    decreases l
  {
    hide Varint32, Varint64, Substream, ReadMsg, UnZigZag, AsSigned, DecodeFixed32, DecodeFixed64;
    if l.SubMessageT? {
      var sub := Substream(b);
      if sub.Got? {
        MsgIsHoldable(l.fields, sub.value, was.slots);
      }
    }
  }

  lemma {:induction false} PackedIsHoldable(f: Field, b: Bytes, items: seq<Value>)
    requires Packable(f.ltype) && f.htype.Repeated? && DeclaredField(f) && HoldableSlot(f, Rep(items))
    ensures var r := ReadPacked(f, b, items); r.Some? ==> HoldableSlot(f, Rep(r.value))
    decreases f, 0, |b|
  {
    hide ReadValue, Holdable;
    if b != [] && |items| < f.htype.arraySize {
      ValueIsHoldable(f.ltype, b, Int(0));
      var r := ReadValue(f.ltype, b, Int(0));
      if r.Some? {
        PackedIsHoldable(f, r.value.1, items + [r.value.0]);
      }
    }
  }

  lemma {:induction false} SlotIsHoldable(f: Field, wire: nat, b: Bytes, s: Slot)
    requires DeclaredField(f) && HoldableSlot(f, s)
    ensures var r := ReadSlot(f, wire, b, s); r.Some? ==> HoldableSlot(f, r.value.0)
    decreases f, 1
  {
    hide ReadValue, ReadPacked, Holdable, Substream;
    if s.Rep? && wire == WT_STRING && Packable(f.ltype) {
      var sub := Substream(b);
      if sub.Got? {
        PackedIsHoldable(f, sub.value, s.items);
      }
    } else {
      DefaultIsHoldable(f.ltype);
      ValueIsHoldable(f.ltype, b, Base(f, s));
    }
  }

  lemma StoredIsHoldable(fields: seq<Field>, slots: seq<Slot>, i: nat, s: Slot)
    requires DeclaredMsg(fields) && HoldableMsg(fields, slots) && i < |fields| && HoldableSlot(fields[i], s)
    ensures |slots| == |fields| && HoldableMsg(fields, Stored(fields, slots, i, s))
  {
    hide HoldableSlot, DeclaredField;
    var after := Stored(fields, slots, i, s);
    forall j | 0 <= j < |fields| ensures HoldableSlot(fields[j], after[j]) {
      DefaultSlotIsHoldable(fields[j]);
    }
  }

  lemma {:induction false} FieldsAreHoldable(fields: seq<Field>, b: Bytes, slots: seq<Slot>, seen: seq<Word>)
    requires DeclaredMsg(fields) && HoldableMsg(fields, slots) && |seen| == 2
    ensures |slots| == |fields|
    ensures var r := ReadFields(fields, b, slots, seen); r.Some? ==> HoldableMsg(fields, r.value.0)
    decreases fields, 0, |b|
  {
    hide ReadSlot, SkipField, HoldableSlot, DeclaredField, Stored, Tick, OneActive, FindTag;
    if b != [] && ReadTag(b).Tag? {
      var tag := ReadTag(b);
      var at := FindTag(fields, tag.number);
      if at.None? {
        var after := SkipField(tag.wire, tag.rest);
        if after.Some? {
          FieldsAreHoldable(fields, after.value, slots, seen);
        }
      } else {
        var i := at.value;
        SlotIsHoldable(fields[i], tag.wire, tag.rest, slots[i]);
        var r := ReadSlot(fields[i], tag.wire, tag.rest, slots[i]);
        if r.Some? {
          StoredIsHoldable(fields, slots, i, r.value.0);
          FieldsAreHoldable(fields, r.value.1, Stored(fields, slots, i, r.value.0), Tick(fields, i, seen));
        }
      }
    }
  }

  // Whatever the bytes are, decoding them onto a holdable message gives a holdable message.
  lemma {:induction false} MsgIsHoldable(fields: seq<Field>, b: Bytes, slots: seq<Slot>)
    requires DeclaredMsg(fields) && HoldableMsg(fields, slots)
    ensures |slots| == |fields|
    ensures var r := ReadMsg(fields, b, slots); r.Some? ==> HoldableMsg(fields, r.value)
    decreases fields, 1
  {
    hide ReadFields, AllSeen, HoldableMsg, DeclaredMsg;
    FieldsAreHoldable(fields, b, slots, [{}, {}]);
  }

  // What was decoded from any bytes can be encoded, and is decoded again from that.
  lemma DecodesAgain(fields: seq<Field>, b: Bytes)
    requires DeclaredMsg(fields) && WellFormed(fields)
    ensures var r := ReadMsg(fields, b, InitMsg(fields));
            r.Some? ==>
              && TypedMsg(fields, r.value) && MsgEncodable(fields, r.value)
              && (|MsgEncoding(fields, r.value)| < TWO32 ==>
                    ReadMsg(fields, MsgEncoding(fields, r.value), InitMsg(fields)) == Some(DecodedMsg(fields, r.value)))
  {
    hide ReadMsg, HoldableMsg, TypedMsg, MsgEncodable, MsgTerminated, DeclaredMsg, DecodedMsg, MsgBytes;
    DefaultMsgIsHoldable(fields);
    MsgIsHoldable(fields, b, InitMsg(fields));
    var r := ReadMsg(fields, b, InitMsg(fields));
    if r.Some? {
      HoldableMsgIsTyped(fields, r.value);
      if |MsgEncoding(fields, r.value)| < TWO32 {
        MsgRoundTrip(fields, r.value);
      }
    }
  }

  // ---------- messages that end early

  // A tag of zero ends the message, whatever follows it.
  lemma ZeroTagEnds(fields: seq<Field>, rest: Bytes, slots: seq<Slot>, seen: seq<Word>)
    requires |slots| == |fields| && |seen| == 2
    ensures ReadFields(fields, [0] + rest, slots, seen) == Some((slots, seen))
  {
    var b: Bytes := [0] + rest;
    assert Varint(0) == [0];
    ReadsVarint32(0, rest);
    assert ReadTag(b) == End;
  }

  // A varint that is cut has no end.
  lemma {:induction false} CutVarint(v: nat, n: nat, limit: nat)
    requires n < |Varint(v)|
    ensures ReadVarint(Varint(v)[..n], limit) == Failed && SkipVarint(Varint(v)[..n]) == None
  {
    if n > 0 {
      var b := Varint(v)[..n];
      assert b[1..] == Varint(v / 128)[..n - 1];
      if limit > 0 {
        CutVarint(v / 128, n - 1, limit - 1);
      } else {
        CutVarint(v / 128, n - 1, 0);
      }
    }
  }

  // Where a slice with its length is cut, too little is left.
  lemma CutSlice(b: Bytes, n: nat)
    requires |b| < TWO32 && n < |LengthPrefixed(b)|
    ensures var r := Varint32(LengthPrefixed(b)[..n]);
            r.Lost? || (r.Got? && r.value == |b| && |r.rest| < |b|)
  {
    hide ReadVarint, Varint;
    var x, len := LengthPrefixed(b)[..n], Varint(|b|);
    if n < |len| {
      assert x == len[..n];
      CutVarint(|b|, n, 5);
    } else {
      assert x == len + b[..n - |len|];
      ReadsVarint32(|b|, b[..n - |len|]);
    }
  }

  lemma CutNumber(v: nat, n: nat)
    requires n < |Varint(v)|
    ensures Varint64(Varint(v)[..n]).Lost? && Varint32(Varint(v)[..n]).Lost? && SkipField(WT_VARINT, Varint(v)[..n]) == None
  {
    hide ReadVarint, Varint, SkipVarint;
    CutVarint(v, n, 5);
    CutVarint(v, n, 10);
  }

  // No decoder accepts a value that is cut, and it cannot be skipped.
  lemma CutValue(w: LType, v: Value, n: nat, was: Value)
    requires TypedValue(w, v) && ValueBytes(w, v).Some? && |ValueBytes(w, v).value| < TWO32 && n < |ValueBytes(w, v).value|
    ensures ReadValue(w, ValueBytes(w, v).value[..n], was) == None && SkipField(WireType(w), ValueBytes(w, v).value[..n]) == None
  {
    hide Varint, ZigZag, Varint32, Varint64, Fixed32, Fixed64, LengthPrefixed, CString, TypedMsg, MsgBytes, ReadMsg, SkipVarint;
    match w
    case VarintT(_) => CutNumber(AsUnsigned(v.v), n);
    case UVarintT(_) => CutNumber(v.v, n);
    case SVarintT(_) => CutNumber(ZigZag(v.v), n);
    case Fixed32T =>
    case Fixed64T =>
    case BytesT(_) => CutPrefixed(v.bytes, n);
    case StringT(m) => CutPrefixed(CString(v.bytes, m), n);
    case FixedBytesT(_) => CutPrefixed(v.bytes, n);
    case SubMessageT(fs) => CutPrefixed(MsgBytes(fs, v.slots, |fs|).value, n);
  }

  lemma CutPrefixed(b: Bytes, n: nat)
    requires |LengthPrefixed(b)| < TWO32 && n < |LengthPrefixed(b)|
    ensures var r := Varint32(LengthPrefixed(b)[..n]); r.Lost? || (r.Got? && r.value == |b| && |r.rest| < |b|)
    ensures Substream(LengthPrefixed(b)[..n]).Lost? && SkipField(WT_STRING, LengthPrefixed(b)[..n]) == None
  {
    hide PbVarint;
    CutSlice(b, n);
  }

  // A record cut behind its tag is an error; cut inside the tag it reads as the end.
  lemma CutRecord(fs: seq<Field>, g: Field, v: Value, n: nat, slots: seq<Slot>, seen: seq<Word>)
    requires |fs| == |slots| && |seen| == 2 && 0 < g.tag < MAX_TAG && ShapedMsg(fs, slots)
    requires TypedValue(g.ltype, v) && OneBytes(g, v).Some? && |OneBytes(g, v).value| < TWO32 && n < |OneBytes(g, v).value|
    requires forall i | 0 <= i < |fs| && fs[i].tag == g.tag :: fs[i].ltype == g.ltype
    ensures ReadFields(fs, OneBytes(g, v).value[..n], slots, seen)
         == if n < |TagBytes(WireType(g.ltype), g.tag)| then Some((slots, seen)) else None
  {
    hide ReadFields, ReadValue, ReadSlot, SkipField, TagBytes, ValueBytes, TypedValue, ShapedSlot, FindTag;
    var wire, tag, payload := WireType(g.ltype), TagBytes(WireType(g.ltype), g.tag), ValueBytes(g.ltype, v).value;
    var b := OneBytes(g, v).value[..n];
    if n < |tag| {
      assert b == tag[..n];
      CutTag(fs, wire, g.tag, n, slots, seen);
    } else {
      var m := n - |tag|;
      assert b == tag + payload[..m];
      var at := FindTag(fs, g.tag);
      if at.Some? {
        CutValue(g.ltype, v, m, Base(fs[at.value], slots[at.value]));
        PackedIsString(g.ltype);
        ReadsOneValue(fs[at.value], wire, payload[..m], slots[at.value]);
        KnownRecord(fs, at.value, g.tag, wire, payload[..m], slots, seen);
      } else {
        CutValue(g.ltype, v, m, v);
        CannotSkip(fs, g.tag, wire, payload[..m], slots, seen);
      }
    }
  }

  lemma PackedIsString(l: LType)
    ensures WireType(l) < 8 && !(WireType(l) == WT_STRING && Packable(l))
  {
  }

  lemma CutTag(fs: seq<Field>, wire: nat, tag: nat, n: nat, slots: seq<Slot>, seen: seq<Word>)
    requires |fs| == |slots| && |seen| == 2 && n < |TagBytes(wire, tag)| && wire < 8 && 0 < tag < MAX_TAG
    ensures ReadFields(fs, TagBytes(wire, tag)[..n], slots, seen) == Some((slots, seen))
  {
    hide ReadVarint, Varint, SkipField, ReadSlot, Tick, Stored, FindTag;
    var b := TagBytes(wire, tag)[..n];
    CutVarint(8 * tag + wire, n, 5);
    assert Power128(5) == 34359738368;
    VarintFits(8 * tag + wire, 5);
    assert |b| < 5;
    assert ReadTag(b) == End;
  }

  lemma CannotSkip(fs: seq<Field>, tag: nat, wire: nat, payload: Bytes, slots: seq<Slot>, seen: seq<Word>)
    requires |fs| == |slots| && |seen| == 2 && wire < 8 && 0 < tag < MAX_TAG && FindTag(fs, tag) == None
    requires SkipField(wire, payload) == None
    ensures ReadFields(fs, TagBytes(wire, tag) + payload, slots, seen) == None
  {
    hide ReadTag, ReadSlot, SkipField, TagBytes, FindTag, Tick, Stored;
    ReadsTag(wire, tag, payload);
  }

  // ---------- numbers of any size

  // Every 64-bit varint is read by a field that can hold it, and refused by one that cannot.
  lemma UnsignedReadIff(u: nat, size: nat, rest: Bytes, was: Value)
    requires u < TWO64 && ValidSize(size)
    ensures ReadValue(UVarintT(size), Varint(u) + rest, was) == if u < Bound(size) then Some((Int(u), rest)) else None
  {
    hide PbVarint, Varint;
    ReadsVarint64(u, rest);
  }

  // A signed field of less than 64 bits looks at the low 32 bits alone, so that it also reads
  // negative numbers written with 32 bits.
  lemma SignedReadIff(u: nat, size: nat, rest: Bytes, was: Value)
    requires u < TWO64 && ValidSize(size)
    ensures var low := u % TWO32;
            var s := if size == 8 then (if u < TWO64 / 2 then u else u - TWO64) else (if low < TWO32 / 2 then low else low - TWO32);
            ReadValue(VarintT(size), Varint(u) + rest, was) ==
            if -(Bound(size) / 2) <= s < Bound(size) / 2 then Some((Int(s), rest)) else None
  {
    hide PbVarint, Varint, AsSigned;
    ReadsVarint64(u, rest);
    AsSignedIs(u);
  }

  lemma AsSignedIs(u: nat)
    requires u < TWO64
    ensures AsSigned(u, 8) == if u < TWO64 / 2 then u else u - TWO64
    ensures var low := u % TWO32; AsSigned(u, 4) == if low < TWO32 / 2 then low else low - TWO32
  {
  }

  lemma ZigZagReadIff(u: nat, size: nat, rest: Bytes, was: Value)
    requires u < TWO64 && ValidSize(size)
    ensures var s := if u % 2 == 0 then u / 2 else -(u / 2) - 1;
            ReadValue(SVarintT(size), Varint(u) + rest, was) ==
            if -(Bound(size) / 2) <= s < Bound(size) / 2 then Some((Int(s), rest)) else None
  {
    hide PbVarint, Varint, UnZigZag;
    ReadsVarint64(u, rest);
    UnZigZagIs(u);
  }

  lemma UnZigZagIs(u: nat)
    requires u < TWO64
    ensures UnZigZag(u) == if u % 2 == 0 then u / 2 else -(u / 2) - 1
  {
  }

  // A bytes value of fixed size that is empty on the wire reads as zeros; another size is refused.
  lemma FixedBytesReadIff(b: Bytes, size: nat, rest: Bytes, was: Value)
    requires |b| < TWO32
    ensures ReadValue(FixedBytesT(size), LengthPrefixed(b) + rest, was) ==
            if |b| == size then Some((Raw(b), rest))
            else if b == [] then Some((Raw(seq(size, _ => 0)), rest)) else None
  {
    hide PbVarint, LengthPrefixed;
    ReadsPrefixed(b, rest);
    assert size == 0 ==> Zeros(size) == [];
  }
}
