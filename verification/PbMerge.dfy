/**
 nanopb's decoder on what its encoder wrote, for whatever message is there already and for a
 decoder whose descriptor has fewer fields, or more: known fields are merged into the message,
 unknown ones are passed over, and an array that would get too long is an error.
 */
module PbMerge {
  import opened Coding
  import opened PbCommon
  import opened PbEncode
  import opened PbDecode

  // ---------- integers

  // Zigzag maps 0, -1, 1, -2, ... to 0, 1, 2, 3, ...
  lemma ZigZagIs(v: int)
    requires FitsSigned(v, 8)
    ensures ZigZag(v) == if v < 0 then -2 * v - 1 else 2 * v
  {
  }

  lemma ZigZagRoundTrip(v: int)
    requires FitsSigned(v, 8)
    ensures UnZigZag(ZigZag(v)) == v
  {
    ZigZagIs(v);
  }

  lemma UnZigZagRoundTrip(u: nat)
    requires u < TWO64
    ensures ZigZag(UnZigZag(u)) == u
  {
    ZigZagIs(UnZigZag(u));
  }

  lemma CastRoundTrip(v: int, size: nat)
    requires ValidSize(size) && FitsSigned(v, size)
    ensures AsSigned(AsUnsigned(v), if size == 8 then 8 else 4) == v
  {
  }

  lemma ReadsVarint32(v: nat, rest: Bytes)
    requires v < TWO32
    ensures Varint32(Varint(v) + rest) == Got(v, rest)
  {
    hide ReadVarint, Varint;
    assert Power128(5) == 34359738368;
    VarintFits(v, 5);
    ReadsVarint(v, rest, 5);
  }

  lemma ReadsVarint64(v: nat, rest: Bytes)
    requires v < TWO64
    ensures Varint64(Varint(v) + rest) == Got(v, rest)
  {
    hide ReadVarint, Varint;
    assert Power128(10) == 1180591620717411303424;
    VarintFits(v, 10);
    ReadsVarint(v, rest, 10);
  }

  lemma ReadsSubstream(b: Bytes, rest: Bytes)
    requires |b| < TWO32
    ensures Substream(LengthPrefixed(b) + rest) == Got(b, rest)
  {
    assert LengthPrefixed(b) + rest == Varint(|b|) + (b + rest);
    ReadsVarint32(|b|, b + rest);
  }

  // ---------- messages that decode

  const MAX_TAG := 0x2000_0000

  ghost predicate WellFormedType(l: LType)
    decreases l
  {
    l.SubMessageT? ==> WellFormed(l.fields)
  }

  ghost predicate WellFormedField(f: Field)
    decreases f
  {
    f.tag < MAX_TAG && WellFormedType(f.ltype)
  }

  // Unique nonzero tags of at most 29 bits, and a supported number of required fields, at
  // every depth.
  ghost predicate WellFormed(fields: seq<Field>)
    decreases fields
  {
    && WellTagged(fields) && CountSupported(RequiredBefore(fields, |fields|))
  }

  ghost predicate WellTagged(fields: seq<Field>)
    decreases fields, 0
  {
    && UniqueTags(fields)
    && forall i | 0 <= i < |fields| :: WellFormedField(fields[i])
  }

  // Every string that is encoded has its terminator within its array.
  ghost predicate Terminated(l: LType, v: Value)
    decreases l
  {
    match l
    case StringT(size) => v.Raw? ==> |CString(v.bytes, size)| < size
    case SubMessageT(fs) => v.Msg? && |v.slots| == |fs| ==> MsgTerminated(fs, v.slots)
    case _ => true
  }

  ghost predicate SlotTerminated(f: Field, s: Slot)
    decreases f
  {
    match s
    case Single(v) => (f.htype.Implicit? && LooksZero(f.ltype, v)) || Terminated(f.ltype, v)
    case Opt(has, v) => has ==> Terminated(f.ltype, v)
    case One(active, v) => active ==> Terminated(f.ltype, v)
    case Rep(items) => forall i | 0 <= i < |items| :: Terminated(f.ltype, items[i])
  }

  ghost predicate MsgTerminated(fields: seq<Field>, slots: seq<Slot>)
    requires |slots| == |fields|
    decreases fields
  {
    forall i | 0 <= i < |fields| :: SlotTerminated(fields[i], slots[i])
  }

  // ---------- descriptors that go together

  // Unique tags that fit into a record's tag, at every depth.
  ghost predicate Tagged(fields: seq<Field>)
    decreases fields
  {
    UniqueTags(fields) && forall i | 0 <= i < |fields| :: TaggedField(fields[i])
  }

  ghost predicate TaggedField(f: Field)
    decreases f
  {
    f.tag < MAX_TAG && TaggedType(f.ltype)
  }

  ghost predicate TaggedType(l: LType)
    decreases l
  {
    l.SubMessageT? ==> Tagged(l.fields)
  }

  // The decoder's type may lack fields of the encoder's, and have others that are not required.
  ghost predicate Compatible(l: LType, w: LType)
    decreases l
  {
    match l
    case SubMessageT(fs) => w.SubMessageT? && CompatibleMsg(fs, w.fields)
    case _ => l == w
  }

  ghost predicate CompatibleField(f: Field, g: Field)
    decreases f
  {
    f.tag == g.tag && f.htype == g.htype && Compatible(f.ltype, g.ltype)
  }

  ghost predicate CompatibleMsg(fs: seq<Field>, gs: seq<Field>)
    decreases fs
  {
    forall i | 0 <= i < |fs| ::
      match FindTag(gs, fs[i].tag)
      case None => !fs[i].htype.Required?
      case Some(j) => CompatibleField(fs[i], gs[j])
  }

  // A value of the right shape: submessages have a slot for every field, of its kind.
  ghost predicate Shaped(l: LType, v: Value)
    decreases l
  {
    l.SubMessageT? ==> v.Msg? && ShapedMsg(l.fields, v.slots)
  }

  ghost predicate ShapedSlot(f: Field, s: Slot)
    decreases f
  {
    match f.htype
    case Required => s.Single? && Shaped(f.ltype, s.v)
    case Implicit => s.Single? && Shaped(f.ltype, s.v)
    case Optional => s.Opt? && Shaped(f.ltype, s.v)
    case Repeated(_) => s.Rep?
    case OneOf(_) => s.One?
  }

  ghost predicate ShapedMsg(fields: seq<Field>, slots: seq<Slot>)
    decreases fields
  {
    |slots| == |fields| && forall i | 0 <= i < |fields| :: ShapedSlot(fields[i], slots[i])
  }

  // ---------- merging

  // A value v of the encoder's type w, read on top of what is there.
  function Merged(l: LType, was: Value, w: LType, v: Value): Value
    decreases l
  {
    match l
    case SubMessageT(fs) =>
      if was.Msg? && |was.slots| == |fs| && w.SubMessageT? && v.Msg? && |v.slots| == |w.fields|
      then Msg(MergedMsg(fs, was.slots, w.fields, v.slots, |w.fields|)) else v
    case StringT(n) => if v.Raw? then Raw(CString(v.bytes, n)) else v
    case _ => v
  }

  // Array entries and oneof fields start from their defaults.
  function MergedSlot(f: Field, was: Slot, g: Field, s: Slot): Slot
    decreases f
  {
    match s
    case Single(v) =>
      if !was.Single? || (f.htype.Implicit? && LooksZero(g.ltype, v)) then was
      else Single(Merged(f.ltype, was.v, g.ltype, v))
    case Opt(has, v) => if !was.Opt? || !has then was else Opt(true, Merged(f.ltype, was.v, g.ltype, v))
    case One(active, v) => if !active then was else One(true, Merged(f.ltype, InitValue(f.ltype), g.ltype, v))
    case Rep(items) =>
      if !was.Rep? then was
      else Rep(was.items + seq(|items|, i requires 0 <= i < |items| => Merged(f.ltype, InitValue(f.ltype), g.ltype, items[i])))
  }

  // One of the first n fields is the active one of field i's oneof, and is another one.
  predicate Overwritten(fs: seq<Field>, gs: seq<Field>, ws: seq<Slot>, n: nat, i: nat)
    requires i < |fs| && n <= |gs| == |ws|
  {
    exists j | 0 <= j < n :: TakesOver(fs, gs[j], ws[j], i)
  }

  predicate TakesOver(fs: seq<Field>, g: Field, s: Slot, i: nat)
    requires i < |fs|
  {
    && s.One? && s.active && FindTag(fs, g.tag).Some? && FindTag(fs, g.tag) != Some(i)
    && SameOneof(fs[FindTag(fs, g.tag).value], fs[i])
  }

  // The message after the first n fields of what was encoded.
  function MergedMsg(fs: seq<Field>, was: seq<Slot>, gs: seq<Field>, ws: seq<Slot>, n: nat): (r: seq<Slot>)
    requires |was| == |fs| && |gs| == |ws| && n <= |gs|
    ensures |r| == |fs|
    decreases fs
  {
    seq(|fs|, i requires 0 <= i < |fs| =>
      if Overwritten(fs, gs, ws, n, i) then InitSlot(fs[i])
      else
        match FindTag(gs[..n], fs[i].tag)
        case None => was[i]
        case Some(j) => MergedSlot(fs[i], was[i], gs[j], ws[j]))
  }

  // No array gets longer than it may.
  ghost predicate Roomy(l: LType, was: Value, w: LType, v: Value)
    decreases l
  {
    match l
    case SubMessageT(fs) =>
      was.Msg? && |was.slots| == |fs| && w.SubMessageT? && v.Msg? && |v.slots| == |w.fields|
      ==> RoomyMsg(fs, was.slots, w.fields, v.slots, |w.fields|)
    case _ => true
  }

  ghost predicate RoomySlot(f: Field, was: Slot, g: Field, s: Slot)
    decreases f
  {
    match s
    case Single(v) => !was.Single? || (f.htype.Implicit? && LooksZero(g.ltype, v)) || Roomy(f.ltype, was.v, g.ltype, v)
    case Opt(has, v) => !was.Opt? || !has || Roomy(f.ltype, was.v, g.ltype, v)
    case One(active, v) => !active || Roomy(f.ltype, InitValue(f.ltype), g.ltype, v)
    case Rep(items) => RoomyItems(f, was, g, items, |items|)
  }

  ghost predicate RoomyItems(f: Field, was: Slot, g: Field, items: seq<Value>, n: nat)
    requires n <= |items|
    decreases f, 0
  {
    was.Rep? && f.htype.Repeated? && n > 0 ==>
      && |was.items| + n <= f.htype.arraySize
      && forall i | 0 <= i < n :: Roomy(f.ltype, InitValue(f.ltype), g.ltype, items[i])
  }

  ghost predicate RoomyMsg(fs: seq<Field>, was: seq<Slot>, gs: seq<Field>, ws: seq<Slot>, n: nat)
    requires |was| == |fs| && |gs| == |ws| && n <= |gs|
    decreases fs
  {
    forall i | 0 <= i < |fs| ::
      match FindTag(gs[..n], fs[i].tag)
      case None => true
      case Some(j) => RoomySlot(fs[i], was[i], gs[j], ws[j])
  }

  // ---------- one value

  lemma ScalarRoundTrip(l: LType, v: Value, rest: Bytes, was: Value)
    requires TypedValue(l, v) && !l.SubMessageT? && Terminated(l, v)
    requires ValueBytes(l, v).Some? && |ValueBytes(l, v).value| < TWO32
    ensures ReadValue(l, ValueBytes(l, v).value + rest, was) == Some((Merged(l, was, l, v), rest))
  {
    hide Varint, ZigZag, UnZigZag, Varint64, Varint32, Fixed32, Fixed64, DecodeFixed32, DecodeFixed64;
    match l
    case VarintT(n) =>
      ReadsVarint64(AsUnsigned(v.v), rest);
      CastRoundTrip(v.v, n);
    case UVarintT(n) =>
      ReadsVarint64(v.v, rest);
    case SVarintT(n) =>
      ReadsVarint64(ZigZag(v.v), rest);
      ZigZagRoundTrip(v.v);
    case Fixed32T =>
      Fixed32RoundTrip(v.v, rest);
    case Fixed64T =>
      Fixed64RoundTrip(v.v, rest);
    case BytesT(_) => ReadsPrefixed(v.bytes, rest);
    case StringT(n) => ReadsPrefixed(CString(v.bytes, n), rest);
    case FixedBytesT(n) =>
      ReadsPrefixed(v.bytes, rest);
      assert n == 0 ==> v.bytes == Zeros(n);
  }

  lemma ReadsPrefixed(b: Bytes, rest: Bytes)
    requires |b| < TWO32
    ensures Varint32(LengthPrefixed(b) + rest) == Got(|b|, b + rest)
    ensures (b + rest)[..|b|] == b && (b + rest)[|b|..] == rest
  {
    assert LengthPrefixed(b) + rest == Varint(|b|) + (b + rest);
    ReadsVarint32(|b|, b + rest);
  }

  // ---------- one record

  lemma ReadsTag(wire: nat, tag: nat, payload: Bytes)
    requires 0 < tag < MAX_TAG && wire < 8
    ensures TagBytes(wire, tag) + payload != [] && ReadTag(TagBytes(wire, tag) + payload) == Tag(wire, tag, payload)
  {
    hide PbVarint;
    ReadsVarint32(8 * tag + wire, payload);
  }

  // A record of a known field goes to that field.
  lemma KnownRecord(fs: seq<Field>, i: nat, tag: nat, wire: nat, payload: Bytes, slots: seq<Slot>, seen: seq<Word>)
    requires i < |fs| == |slots| && |seen| == 2 && wire < 8 && 0 < tag < MAX_TAG && FindTag(fs, tag) == Some(i)
    ensures ReadFields(fs, TagBytes(wire, tag) + payload, slots, seen) ==
            var r := ReadSlot(fs[i], wire, payload, slots[i]);
            if r.None? then None
            else ReadFields(fs, r.value.1, Stored(fs, slots, i, r.value.0), Tick(fs, i, seen))
  {
    hide ReadTag, ReadSlot, TagBytes, Tick, Stored, FindTag;
    ReadsTag(wire, tag, payload);
  }

  // A record of an unknown field is passed over.
  lemma UnknownRecord(fs: seq<Field>, tag: nat, wire: nat, payload: Bytes, rest: Bytes, slots: seq<Slot>, seen: seq<Word>)
    requires |fs| == |slots| && |seen| == 2 && wire < 8 && 0 < tag < MAX_TAG && FindTag(fs, tag) == None
    requires SkipField(wire, payload + rest) == Some(rest)
    ensures ReadFields(fs, TagBytes(wire, tag) + payload + rest, slots, seen) == ReadFields(fs, rest, slots, seen)
  {
    hide ReadFields, SkipField, TagBytes, FindTag;
    Associate(TagBytes(wire, tag), payload, rest);
    SkipsRecord(fs, tag, wire, payload + rest, rest, slots, seen);
  }

  lemma Associate(a: Bytes, b: Bytes, c: Bytes)
    ensures a + b + c == a + (b + c)
  {
  }

  lemma SkipsRecord(fs: seq<Field>, tag: nat, wire: nat, payload: Bytes, rest: Bytes, slots: seq<Slot>, seen: seq<Word>)
    requires |fs| == |slots| && |seen| == 2 && wire < 8 && 0 < tag < MAX_TAG && FindTag(fs, tag) == None
    requires SkipField(wire, payload) == Some(rest)
    ensures ReadFields(fs, TagBytes(wire, tag) + payload, slots, seen) == ReadFields(fs, rest, slots, seen)
  {
    hide ReadTag, ReadSlot, SkipField, TagBytes, FindTag, Tick, Stored;
    ReadsTag(wire, tag, payload);
  }

  lemma {:induction false} SkipsVarint(v: nat, rest: Bytes)
    ensures SkipVarint(Varint(v) + rest) == Some(rest)
  {
    var b := Varint(v) + rest;
    if v >= 128 {
      SkipsVarint(v / 128, rest);
      assert b[1..] == Varint(v / 128) + rest;
    } else {
      assert b[1..] == rest;
    }
  }

  lemma SkipsPrefixed(b: Bytes, rest: Bytes)
    requires |b| < TWO32
    ensures SkipField(WT_STRING, LengthPrefixed(b) + rest) == Some(rest)
  {
    hide PbVarint, LengthPrefixed;
    ReadsPrefixed(b, rest);
  }

  // A value of any type is passed over by its wire type alone.
  lemma SkipsValue(w: LType, v: Value, rest: Bytes)
    requires TypedValue(w, v) && ValueBytes(w, v).Some? && |ValueBytes(w, v).value| < TWO32
    ensures SkipField(WireType(w), ValueBytes(w, v).value + rest) == Some(rest)
  {
    hide Varint, ZigZag, Varint32, Fixed32, Fixed64, LengthPrefixed, CString, TypedMsg, MsgBytes;
    match w
    case VarintT(_) => SkipsVarint(AsUnsigned(v.v), rest);
    case UVarintT(_) => SkipsVarint(v.v, rest);
    case SVarintT(_) => SkipsVarint(ZigZag(v.v), rest);
    case Fixed32T =>
    case Fixed64T =>
    case BytesT(_) => PrefixedIsSkipped(v.bytes, rest);
    case StringT(n) => PrefixedIsSkipped(CString(v.bytes, n), rest);
    case FixedBytesT(_) => PrefixedIsSkipped(v.bytes, rest);
    case SubMessageT(fs) => PrefixedIsSkipped(MsgBytes(fs, v.slots, |fs|).value, rest);
  }

  lemma PrefixedIsSkipped(b: Bytes, rest: Bytes)
    requires |LengthPrefixed(b)| < TWO32
    ensures SkipField(WT_STRING, LengthPrefixed(b) + rest) == Some(rest)
  {
    SkipsPrefixed(b, rest);
  }

  // What was written of an unknown field is passed over.
  lemma SkipsOne(fs: seq<Field>, g: Field, v: Value, rest: Bytes, slots: seq<Slot>, seen: seq<Word>)
    requires |fs| == |slots| && |seen| == 2 && 0 < g.tag < MAX_TAG && FindTag(fs, g.tag) == None
    requires TypedValue(g.ltype, v) && OneBytes(g, v).Some? && |OneBytes(g, v).value| < TWO32
    ensures ReadFields(fs, OneBytes(g, v).value + rest, slots, seen) == ReadFields(fs, rest, slots, seen)
  {
    hide ReadFields, SkipField, TagBytes, ValueBytes, TypedValue, FindTag;
    var payload := ValueBytes(g.ltype, v).value;
    SkipsValue(g.ltype, v, rest);
    UnknownRecord(fs, g.tag, WireType(g.ltype), payload, rest, slots, seen);
  }

  lemma {:induction false} SkipsItems(fs: seq<Field>, g: Field, items: seq<Value>, n: nat, rest: Bytes, slots: seq<Slot>,
                                      seen: seq<Word>)
    requires |fs| == |slots| && |seen| == 2 && 0 < g.tag < MAX_TAG && FindTag(fs, g.tag) == None
    requires n <= |items| && forall k | 0 <= k < |items| :: TypedValue(g.ltype, items[k])
    requires TaggedBytes(g, items, n).Some? && |TaggedBytes(g, items, n).value| < TWO32
    ensures ReadFields(fs, TaggedBytes(g, items, n).value + rest, slots, seen) == ReadFields(fs, rest, slots, seen)
    decreases n
  {
    hide ReadFields, OneBytes, TypedValue, FindTag;
    if n == 0 {
      assert TaggedBytes(g, items, 0).value + rest == rest;
    } else {
      var one := OneBytes(g, items[n - 1]).value;
      SkipsItems(fs, g, items, n - 1, one + rest, slots, seen);
      assert TaggedBytes(g, items, n).value + rest == TaggedBytes(g, items, n - 1).value + (one + rest);
      SkipsOne(fs, g, items[n - 1], rest, slots, seen);
    }
  }

  lemma SkipsSlot(fs: seq<Field>, g: Field, s: Slot, rest: Bytes, slots: seq<Slot>, seen: seq<Word>)
    requires |fs| == |slots| && |seen| == 2 && 0 < g.tag < MAX_TAG && FindTag(fs, g.tag) == None
    requires TypedSlot(g, s) && SlotBytes(g, s).Some? && |SlotBytes(g, s).value| < TWO32
    ensures ReadFields(fs, SlotBytes(g, s).value + rest, slots, seen) == ReadFields(fs, rest, slots, seen)
  {
    hide ReadFields, OneBytes, TaggedBytes, PackedBytes, TypedValue, FindTag, LooksZero, TagBytes, LengthPrefixed;
    if SlotBytes(g, s).value == [] {
      assert SlotBytes(g, s).value + rest == rest;
    } else if !g.htype.Repeated? {
      SkipsOne(fs, g, s.v, rest, slots, seen);
    } else if Packable(g.ltype) {
      var packed := PackedBytes(g, s.items, |s.items|).value;
      PackedIsShort(packed);
      SkipsPrefixed(packed, rest);
      UnknownRecord(fs, g.tag, WT_STRING, LengthPrefixed(packed), rest, slots, seen);
    } else {
      SkipsItems(fs, g, s.items, |s.items|, rest, slots, seen);
    }
  }

  lemma PackedIsShort(b: Bytes)
    ensures |b| < |LengthPrefixed(b)|
  {
  }

  // ---------- one field

  lemma {:induction false} DefaultsAreShaped(l: LType)
    ensures Shaped(l, InitValue(l))
    decreases l
  {
    if l.SubMessageT? {
      forall i | 0 <= i < |l.fields| ensures ShapedSlot(l.fields[i], InitMsg(l.fields)[i]) {
        DefaultSlotIsShaped(l.fields[i]);
      }
    }
  }

  lemma {:induction false} DefaultSlotIsShaped(f: Field)
    ensures ShapedSlot(f, InitSlot(f))
    decreases f
  {
    DefaultsAreShaped(f.ltype);
  }

  // What a value of the field is read on top of, and what that makes of the field.
  function Base(f: Field, s: Slot): Value {
    match s
    case Single(v) => v
    case Opt(_, v) => v
    case _ => InitValue(f.ltype)
  }

  function Put(s: Slot, v: Value): Slot {
    match s
    case Single(_) => Single(v)
    case Opt(_, _) => Opt(true, v)
    case One(_, _) => One(true, v)
    case Rep(items) => Rep(items + [v])
  }

  predicate HasRoom(f: Field, s: Slot) {
    f.htype.Repeated? && s.Rep? ==> |s.items| < f.htype.arraySize
  }

  lemma BaseIsShaped(f: Field, s: Slot)
    requires ShapedSlot(f, s)
    ensures Shaped(f.ltype, Base(f, s))
  {
    DefaultsAreShaped(f.ltype);
  }

  // Outside of packed arrays a record holds one value.
  lemma ReadsOneValue(f: Field, wire: nat, payload: Bytes, s: Slot)
    requires ShapedSlot(f, s) && (f.htype.Repeated? ==> !(wire == WT_STRING && Packable(f.ltype)))
    ensures ReadSlot(f, wire, payload, s) ==
            var r := ReadValue(f.ltype, payload, Base(f, s));
            if HasRoom(f, s) && r.Some? then Some((Put(s, r.value.0), r.value.1)) else None
  {
    hide ReadValue;
  }

  lemma {:induction false} ValueMerge(l: LType, was: Value, w: LType, v: Value, rest: Bytes)
    requires Compatible(l, w) && WellFormedType(l) && TaggedType(w) && Shaped(l, was)
    requires TypedValue(w, v) && Terminated(w, v)
    requires ValueBytes(w, v).Some? && |ValueBytes(w, v).value| < TWO32
    ensures ReadValue(l, ValueBytes(w, v).value + rest, was) == if Roomy(l, was, w, v) then Some((Merged(l, was, w, v), rest)) else None
    decreases l
  {
    if l.SubMessageT? {
      hide WellFormed, Tagged, CompatibleMsg, MsgTerminated, TypedMsg, Substream, ShapedMsg, MergedMsg, RoomyMsg;
      var bytes := MsgBytes(w.fields, v.slots, |w.fields|).value;
      ShapedIsLong(l.fields, was.slots);
      TypedIsLong(w.fields, v.slots);
      ReadsSubstream(bytes, rest);
      MsgMerge(l.fields, was.slots, w.fields, v.slots);
    } else {
      ScalarRoundTrip(l, v, rest, was);
    }
  }

  lemma ShapedIsLong(fields: seq<Field>, slots: seq<Slot>)
    requires ShapedMsg(fields, slots)
    ensures |slots| == |fields|
  {
  }

  lemma TypedIsLong(fields: seq<Field>, slots: seq<Slot>)
    requires TypedMsg(fields, slots)
    ensures |slots| == |fields|
  {
  }

  lemma {:induction false} OneMerge(fs: seq<Field>, i: nat, g: Field, v: Value, rest: Bytes, slots: seq<Slot>, seen: seq<Word>)
    requires i < |fs| == |slots| && |seen| == 2 && FindTag(fs, g.tag) == Some(i) && WellFormedField(fs[i])
    requires CompatibleField(fs[i], g) && 0 < g.tag && TaggedField(g) && ShapedSlot(fs[i], slots[i])
    requires TypedValue(g.ltype, v) && Terminated(g.ltype, v)
    requires OneBytes(g, v).Some? && |OneBytes(g, v).value| < TWO32
    ensures ReadFields(fs, OneBytes(g, v).value + rest, slots, seen) ==
            var (f, s) := (fs[i], slots[i]);
            if HasRoom(f, s) && Roomy(f.ltype, Base(f, s), g.ltype, v)
            then ReadFields(fs, rest, Stored(fs, slots, i, Put(s, Merged(f.ltype, Base(f, s), g.ltype, v))), Tick(fs, i, seen))
            else None
    decreases fs[i], 0
  {
    hide ReadSlot, ReadFields, ReadValue, TypedValue, Terminated, Stored, FindTag, TagBytes, Merged, Roomy, ShapedSlot, Compatible;
    hide ValueBytes, Tick;
    var f := fs[i];
    var payload := ValueBytes(g.ltype, v).value;
    Associate(TagBytes(WireType(g.ltype), g.tag), payload, rest);
    BaseIsShaped(f, slots[i]);
    WireIsCompatible(f.ltype, g.ltype);
    ValueMerge(f.ltype, Base(f, slots[i]), g.ltype, v, rest);
    ReadsOneValue(f, WireType(g.ltype), payload + rest, slots[i]);
    KnownRecord(fs, i, g.tag, WireType(g.ltype), payload + rest, slots, seen);
  }

  lemma WireIsCompatible(l: LType, w: LType)
    requires Compatible(l, w)
    ensures WireType(l) == WireType(w) < 8 && (Packable(l) <==> Packable(w)) && (Packable(l) ==> l == w && WireType(l) != WT_STRING)
  {
  }

  function MergedItems(f: Field, g: Field, items: seq<Value>): (r: seq<Value>)
    ensures |r| == |items|
  {
    seq(|items|, i requires 0 <= i < |items| => Merged(f.ltype, InitValue(f.ltype), g.ltype, items[i]))
  }

  lemma StoresArray(fs: seq<Field>, slots: seq<Slot>, i: nat, s: Slot)
    requires i < |fs| == |slots| && !fs[i].htype.OneOf?
    ensures Stored(fs, slots, i, s) == slots[i := s] && (s == slots[i] ==> Stored(fs, slots, i, s) == slots)
  {
  }

  lemma NotTicked(fs: seq<Field>, i: nat, seen: seq<Word>)
    requires i < |fs| && |seen| == 2 && !fs[i].htype.Required?
    ensures Tick(fs, i, seen) == seen
  {
  }

  // The entries of an array that is not packed, each behind its tag.
  lemma {:induction false} ItemsMerge(fs: seq<Field>, i: nat, g: Field, items: seq<Value>, n: nat, rest: Bytes,
                                      slots: seq<Slot>, seen: seq<Word>)
    requires i < |fs| == |slots| && |seen| == 2 && FindTag(fs, g.tag) == Some(i) && WellFormedField(fs[i])
    requires CompatibleField(fs[i], g) && 0 < g.tag && TaggedField(g) && slots[i].Rep? && fs[i].htype.Repeated?
    requires n <= |items| && forall k | 0 <= k < |items| :: TypedValue(g.ltype, items[k]) && Terminated(g.ltype, items[k])
    requires TaggedBytes(g, items, n).Some? && |TaggedBytes(g, items, n).value| < TWO32
    ensures ReadFields(fs, TaggedBytes(g, items, n).value + rest, slots, seen) ==
            if RoomyItems(fs[i], slots[i], g, items, n)
            then ReadFields(fs, rest, slots[i := Rep(slots[i].items + MergedItems(fs[i], g, items)[..n])], seen)
            else None
    decreases fs[i], 1, n
  {
    hide ReadFields, OneBytes, TypedValue, Terminated, Merged, Roomy, FindTag, WellFormedField, TaggedField, Compatible, Stored;
    hide Tick;
    var f, was, all := fs[i], slots[i].items, MergedItems(fs[i], g, items);
    if n == 0 {
      assert was + all[..0] == was && slots[i := Rep(was)] == slots;
      assert TaggedBytes(g, items, 0).value + rest == rest;
    } else {
      var one := OneBytes(g, items[n - 1]).value;
      ItemsMerge(fs, i, g, items, n - 1, one + rest, slots, seen);
      Associate(TaggedBytes(g, items, n - 1).value, one, rest);
      var before := slots[i := Rep(was + all[..n - 1])];
      OneMerge(fs, i, g, items[n - 1], rest, before, seen);
      assert was + all[..n - 1] + [all[n - 1]] == was + all[..n];
      StoresArray(fs, before, i, Rep(was + all[..n]));
      NotTicked(fs, i, seen);
      assert before[i := Rep(was + all[..n])] == slots[i := Rep(was + all[..n])];
      RoomyStep(f, slots[i], g, items, n);
    }
  }

  lemma RoomyStep(f: Field, was: Slot, g: Field, items: seq<Value>, n: nat)
    requires 0 < n <= |items| && was.Rep? && f.htype.Repeated?
    ensures RoomyItems(f, was, g, items, n) <==>
            && RoomyItems(f, was, g, items, n - 1) && |was.items| + n <= f.htype.arraySize
            && Roomy(f.ltype, InitValue(f.ltype), g.ltype, items[n - 1])
  {
    hide Roomy, InitValue;
  }

  lemma PackableBytes(l: LType, v: Value)
    requires Packable(l) && TypedValue(l, v)
    ensures ValueBytes(l, v).Some? && |ValueBytes(l, v).value| >= 1 && forall was :: Merged(l, was, l, v) == v && Roomy(l, was, l, v)
  {
  }

  lemma PackedBytesStep(g: Field, items: seq<Value>, n: nat, rest: Bytes)
    requires 0 < n <= |items| && Packable(g.ltype) && forall k | 0 <= k < |items| :: TypedValue(g.ltype, items[k])
    requires PackedBytes(g, items, n - 1).Some?
    ensures var b, one := PackedBytes(g, items, n), ValueBytes(g.ltype, items[n - 1]);
            && b.Some? && one.Some? && b.value + rest == PackedBytes(g, items, n - 1).value + (one.value + rest)
            && |b.value| == |PackedBytes(g, items, n - 1).value| + |one.value|
  {
    hide ValueBytes, TypedValue;
    PackableBytes(g.ltype, items[n - 1]);
  }

  // Values packed one after the other.
  lemma {:induction false} PackedMerge(f: Field, was: seq<Value>, g: Field, items: seq<Value>, n: nat, rest: Bytes)
    requires f.ltype == g.ltype && f.htype.Repeated? && Packable(f.ltype)
    requires n <= |items| && forall k | 0 <= k < |items| :: TypedValue(g.ltype, items[k])
    ensures var b := PackedBytes(g, items, n);
            && b.Some?
            && (|b.value| < TWO32 ==>
                  ReadPacked(f, b.value + rest, was) ==
                  if n == 0 || |was| + n <= f.htype.arraySize then ReadPacked(f, rest, was + items[..n]) else None)
    decreases n
  {
    hide ReadPacked, TypedValue, ValueBytes;
    if n == 0 {
      assert PackedBytes(g, items, 0).value + rest == rest && was + items[..0] == was;
    } else {
      var one := ValueBytes(g.ltype, items[n - 1]);
      PackableBytes(g.ltype, items[n - 1]);
      PackedMerge(f, was, g, items, n - 1, one.value + rest);
      PackedBytesStep(g, items, n, rest);
      if |one.value| < TWO32 {
        PackedItem(f, was + items[..n - 1], items[n - 1], rest);
        assert was + items[..n - 1] + [items[n - 1]] == was + items[..n];
      }
    }
  }

  lemma PackedItem(f: Field, cur: seq<Value>, v: Value, rest: Bytes)
    requires f.htype.Repeated? && Packable(f.ltype) && TypedValue(f.ltype, v)
    requires ValueBytes(f.ltype, v).Some? && |ValueBytes(f.ltype, v).value| < TWO32
    ensures ReadPacked(f, ValueBytes(f.ltype, v).value + rest, cur) ==
            if |cur| < f.htype.arraySize then ReadPacked(f, rest, cur + [v]) else None
  {
    hide ReadValue, TypedValue, ValueBytes;
    ScalarRoundTrip(f.ltype, v, rest, Int(0));
    PackableBytes(f.ltype, v);
  }

  lemma PackedSlot(fs: seq<Field>, i: nat, g: Field, items: seq<Value>, rest: Bytes, slots: seq<Slot>, seen: seq<Word>)
    requires i < |fs| == |slots| && |seen| == 2 && FindTag(fs, g.tag) == Some(i)
    requires CompatibleField(fs[i], g) && 0 < g.tag < MAX_TAG && slots[i].Rep? && fs[i].htype.Repeated? && Packable(g.ltype)
    requires items != [] && forall k | 0 <= k < |items| :: TypedValue(g.ltype, items[k])
    requires SlotBytes(g, Rep(items)).Some? && |SlotBytes(g, Rep(items)).value| < TWO32
    ensures ReadFields(fs, SlotBytes(g, Rep(items)).value + rest, slots, seen) ==
            if |slots[i].items| + |items| <= fs[i].htype.arraySize
            then ReadFields(fs, rest, slots[i := Rep(slots[i].items + items)], seen) else None
  {
    hide ReadFields, TypedValue, PackedBytes, FindTag, Substream, TagBytes, LengthPrefixed, Stored, Tick, ReadPacked;
    var f, was := fs[i], slots[i].items;
    var packed := PackedBytes(g, items, |items|).value;
    WireIsCompatible(f.ltype, g.ltype);
    PackedMerge(f, was, g, items, |items|, []);
    assert packed + [] == packed && items[..|items|] == items;
    PackedIsShort(packed);
    ReadsSubstream(packed, rest);
    NothingPacked(f, was + items);
    Associate(TagBytes(WT_STRING, g.tag), LengthPrefixed(packed), rest);
    KnownRecord(fs, i, g.tag, WT_STRING, LengthPrefixed(packed) + rest, slots, seen);
    StoresArray(fs, slots, i, Rep(was + items));
    NotTicked(fs, i, seen);
  }

  lemma NothingPacked(f: Field, items: seq<Value>)
    requires f.htype.Repeated? && Packable(f.ltype)
    ensures ReadPacked(f, [], items) == Some(items)
  {
  }

  // What the records of one field make of the message.
  function AfterField(fs: seq<Field>, slots: seq<Slot>, i: nat, g: Field, s: Slot): (r: seq<Slot>)
    requires i < |fs| == |slots|
    ensures |r| == |fs|
  {
    if s.One? && !s.active then slots else Stored(fs, slots, i, MergedSlot(fs[i], slots[i], g, s))
  }

  // A field's records are merged into the message and tick it off, or overflow its array.
  lemma {:induction false} SlotMerge(fs: seq<Field>, i: nat, g: Field, s: Slot, rest: Bytes, slots: seq<Slot>, seen: seq<Word>)
    requires i < |fs| == |slots| && |seen| == 2 && FindTag(fs, g.tag) == Some(i) && WellFormedField(fs[i])
    requires CompatibleField(fs[i], g) && 0 < g.tag && TaggedField(g) && ShapedSlot(fs[i], slots[i])
    requires TypedSlot(g, s) && SlotTerminated(g, s)
    requires SlotBytes(g, s).Some? && |SlotBytes(g, s).value| < TWO32
    ensures ReadFields(fs, SlotBytes(g, s).value + rest, slots, seen) ==
            if RoomySlot(fs[i], slots[i], g, s) then ReadFields(fs, rest, AfterField(fs, slots, i, g, s), Tick(fs, i, seen)) else None
    decreases fs[i], 2
  {
    hide ReadFields, OneBytes, TypedValue, Terminated, Merged, Roomy, FindTag, WellFormedField, TaggedField, Compatible;
    hide LooksZero, InitValue, Shaped, Stored, Tick, TaggedBytes, PackedBytes;
    var f := fs[i];
    if SlotBytes(g, s).value == [] {
      assert SlotBytes(g, s).value + rest == rest;
    }
    if g.htype.Repeated? {
      NotTicked(fs, i, seen);
      ArrayMerge(fs, i, g, s, rest, slots, seen);
    } else if (s.Opt? && !s.has) || (s.One? && !s.active) || (g.htype.Implicit? && LooksZero(g.ltype, s.v)) {
      NotTicked(fs, i, seen);
      if !s.One? {
        StoresArray(fs, slots, i, slots[i]);
      }
    } else {
      OneMerge(fs, i, g, s.v, rest, slots, seen);
    }
  }

  lemma {:induction false} ArrayMerge(fs: seq<Field>, i: nat, g: Field, s: Slot, rest: Bytes, slots: seq<Slot>, seen: seq<Word>)
    requires i < |fs| == |slots| && |seen| == 2 && FindTag(fs, g.tag) == Some(i) && WellFormedField(fs[i])
    requires CompatibleField(fs[i], g) && 0 < g.tag && TaggedField(g) && ShapedSlot(fs[i], slots[i])
    requires g.htype.Repeated? && TypedSlot(g, s) && SlotTerminated(g, s)
    requires SlotBytes(g, s).Some? && |SlotBytes(g, s).value| < TWO32
    ensures ReadFields(fs, SlotBytes(g, s).value + rest, slots, seen) ==
            if RoomySlot(fs[i], slots[i], g, s) then ReadFields(fs, rest, AfterField(fs, slots, i, g, s), seen) else None
    decreases fs[i], 1, |s.items| + 1
  {
    hide ReadFields, OneBytes, TypedValue, Terminated, Merged, Roomy, FindTag, WellFormedType, TaggedType, Compatible;
    hide InitValue, Shaped, Stored, TaggedBytes, PackedBytes;
    var f, was := fs[i], slots[i].items;
    assert MergedSlot(f, slots[i], g, s) == Rep(was + MergedItems(f, g, s.items));
    StoresArray(fs, slots, i, MergedSlot(f, slots[i], g, s));
    if s.items == [] {
      assert MergedItems(f, g, s.items) == [] && was + [] == was;
      assert SlotBytes(g, s).value + rest == rest;
    } else if Packable(g.ltype) {
      WireIsCompatible(f.ltype, g.ltype);
      forall k | 0 <= k < |s.items| ensures MergedItems(f, g, s.items)[k] == s.items[k] && Roomy(f.ltype, InitValue(f.ltype), g.ltype, s.items[k]) {
        PackableBytes(g.ltype, s.items[k]);
      }
      assert MergedItems(f, g, s.items) == s.items;
      PackedSlot(fs, i, g, s.items, rest, slots, seen);
    } else {
      ItemsMerge(fs, i, g, s.items, |s.items|, rest, slots, seen);
      assert MergedItems(f, g, s.items)[..|s.items|] == MergedItems(f, g, s.items);
    }
  }

  // ---------- whole messages

  // The bits set once the first n fields were read.
  function SeenFrom(fs: seq<Field>, gs: seq<Field>, n: nat, seen: seq<Word>): (r: seq<Word>)
    requires n <= |gs| && |seen| == 2
    ensures |r| == 2
  {
    if n == 0 then seen
    else
      var before := SeenFrom(fs, gs, n - 1, seen);
      match FindTag(fs, gs[n - 1].tag)
      case None => before
      case Some(i) => Tick(fs, i, before)
  }

  lemma FindTagStep(gs: seq<Field>, n: nat, tag: nat)
    requires n < |gs|
    ensures FindTag(gs[..n + 1], tag) == if gs[n].tag == tag && FindTag(gs[..n], tag).None? then Some(n) else FindTag(gs[..n], tag)
  {
    assert gs[..n + 1][..n] == gs[..n];
  }

  lemma OnlyField(gs: seq<Field>, n: nat, tag: nat)
    requires UniqueTags(gs) && n < |gs| && gs[n].tag == tag
    ensures FindTag(gs, tag) == Some(n) && FindTag(gs[..n], tag) == None && FindTag(gs[..n + 1], tag) == Some(n)
  {
    FindTagStep(gs, n, tag);
    var r := FindTag(gs, tag);
  }

  lemma OverwrittenStep(fs: seq<Field>, gs: seq<Field>, ws: seq<Slot>, n: nat, i: nat)
    requires i < |fs| && n < |gs| == |ws|
    ensures Overwritten(fs, gs, ws, n + 1, i) <==> Overwritten(fs, gs, ws, n, i) || TakesOver(fs, gs[n], ws[n], i)
  {
    hide TakesOver;
  }

  lemma UnknownStep(fs: seq<Field>, was: seq<Slot>, gs: seq<Field>, ws: seq<Slot>, n: nat)
    requires |was| == |fs| && |gs| == |ws| && n < |gs| && FindTag(fs, gs[n].tag) == None
    ensures MergedMsg(fs, was, gs, ws, n + 1) == MergedMsg(fs, was, gs, ws, n)
    ensures RoomyMsg(fs, was, gs, ws, n + 1) <==> RoomyMsg(fs, was, gs, ws, n)
  {
    hide FindTag, MergedSlot, RoomySlot, Overwritten, InitSlot;
    forall i | 0 <= i < |fs|
      ensures FindTag(gs[..n + 1], fs[i].tag) == FindTag(gs[..n], fs[i].tag)
      ensures Overwritten(fs, gs, ws, n + 1, i) <==> Overwritten(fs, gs, ws, n, i) {
      FindTagStep(gs, n, fs[i].tag);
      OverwrittenStep(fs, gs, ws, n, i);
    }
  }

  // Another active field of the same oneof cannot have been read before.
  lemma NotOverwritten(fs: seq<Field>, gs: seq<Field>, ws: seq<Slot>, n: nat, i: nat)
    requires CompatibleMsg(fs, gs) && UniqueTags(gs) && TypedMsg(gs, ws)
    requires n < |gs| && i < |fs| && FindTag(gs, fs[i].tag) == Some(n)
    ensures !ws[n].One? || ws[n].active ==> !Overwritten(fs, gs, ws, n, i)
  {
    hide Compatible, TypedValue;
    assert TypedSlot(gs[n], ws[n]) && CompatibleField(fs[i], gs[n]);
    forall j | 0 <= j < n ensures !ws[n].One? || ws[n].active ==> !TakesOver(fs, gs[j], ws[j], i) {
      var k := FindTag(fs, gs[j].tag);
      if k.Some? {
        OnlyField(gs, j, fs[k.value].tag);
        assert CompatibleField(fs[k.value], gs[j]);
      }
      assert TypedSlot(gs[j], ws[j]);
    }
  }

  lemma KnownStep(fs: seq<Field>, was: seq<Slot>, gs: seq<Field>, ws: seq<Slot>, n: nat, i: nat)
    requires CompatibleMsg(fs, gs) && UniqueTags(fs) && UniqueTags(gs) && TypedMsg(gs, ws) && |was| == |fs|
    requires n < |gs| == |ws| && FindTag(fs, gs[n].tag) == Some(i)
    ensures MergedMsg(fs, was, gs, ws, n + 1) == AfterField(fs, MergedMsg(fs, was, gs, ws, n), i, gs[n], ws[n])
    ensures RoomyMsg(fs, was, gs, ws, n + 1) <==>
            RoomyMsg(fs, was, gs, ws, n) && RoomySlot(fs[i], MergedMsg(fs, was, gs, ws, n)[i], gs[n], ws[n])
  {
    hide FindTag, MergedMsg, RoomyMsg, MergedSlot, RoomySlot, CompatibleMsg, TypedMsg, AfterField;
    var cur := MergedMsg(fs, was, gs, ws, n);
    OnlyField(gs, n, gs[n].tag);
    KnownSlot(fs, was, gs, ws, n, i);
    forall k | 0 <= k < |fs| && k != i
      ensures MergedMsg(fs, was, gs, ws, n + 1)[k] == AfterField(fs, cur, i, gs[n], ws[n])[k]
      ensures FindTag(gs[..n + 1], fs[k].tag) == FindTag(gs[..n], fs[k].tag) {
      OtherSlot(fs, was, gs, ws, n, i, k);
    }
    RoomyWithOne(fs, was, gs, ws, n, i);
  }

  lemma RoomyWithOne(fs: seq<Field>, was: seq<Slot>, gs: seq<Field>, ws: seq<Slot>, n: nat, i: nat)
    requires |was| == |fs| && n < |gs| == |ws| && i < |fs|
    requires FindTag(gs[..n + 1], fs[i].tag) == Some(n) && FindTag(gs[..n], fs[i].tag) == None
    requires forall k | 0 <= k < |fs| && k != i :: FindTag(gs[..n + 1], fs[k].tag) == FindTag(gs[..n], fs[k].tag)
    ensures RoomyMsg(fs, was, gs, ws, n + 1) <==> RoomyMsg(fs, was, gs, ws, n) && RoomySlot(fs[i], was[i], gs[n], ws[n])
  {
    hide FindTag, RoomySlot;
  }

  lemma KnownPair(fs: seq<Field>, gs: seq<Field>, ws: seq<Slot>, n: nat, i: nat)
    requires CompatibleMsg(fs, gs) && TypedMsg(gs, ws) && n < |gs| && i < |fs| && FindTag(gs, fs[i].tag) == Some(n)
    ensures |ws| == |gs| && (ws[n].One? <==> fs[i].htype.OneOf?)
  {
    hide FindTag, Compatible, TypedValue;
    assert CompatibleField(fs[i], gs[n]) && TypedSlot(gs[n], ws[n]);
  }

  lemma OtherSlot(fs: seq<Field>, was: seq<Slot>, gs: seq<Field>, ws: seq<Slot>, n: nat, i: nat, k: nat)
    requires CompatibleMsg(fs, gs) && UniqueTags(fs) && UniqueTags(gs) && TypedMsg(gs, ws) && |was| == |fs|
    requires n < |gs| == |ws| && FindTag(fs, gs[n].tag) == Some(i) && k < |fs| && k != i
    ensures FindTag(gs[..n + 1], fs[k].tag) == FindTag(gs[..n], fs[k].tag)
    ensures MergedMsg(fs, was, gs, ws, n + 1)[k] == AfterField(fs, MergedMsg(fs, was, gs, ws, n), i, gs[n], ws[n])[k]
  {
    OnlyField(gs, n, gs[n].tag);
    KnownPair(fs, gs, ws, n, i);
    FindTagStep(gs, n, fs[k].tag);
    OverwrittenStep(fs, gs, ws, n, k);
    hide FindTag, MergedSlot, Overwritten, InitSlot, CompatibleMsg, TypedMsg;
  }

  lemma KnownSlot(fs: seq<Field>, was: seq<Slot>, gs: seq<Field>, ws: seq<Slot>, n: nat, i: nat)
    requires CompatibleMsg(fs, gs) && UniqueTags(gs) && TypedMsg(gs, ws) && |was| == |fs|
    requires n < |gs| == |ws| && FindTag(fs, gs[n].tag) == Some(i)
    ensures MergedMsg(fs, was, gs, ws, n + 1)[i] == AfterField(fs, MergedMsg(fs, was, gs, ws, n), i, gs[n], ws[n])[i]
    ensures RoomySlot(fs[i], was[i], gs[n], ws[n]) <==> RoomySlot(fs[i], MergedMsg(fs, was, gs, ws, n)[i], gs[n], ws[n])
  {
    OnlyField(gs, n, gs[n].tag);
    NotOverwritten(fs, gs, ws, n, i);
    assert CompatibleField(fs[i], gs[n]) && TypedSlot(gs[n], ws[n]);
    hide FindTag, Overwritten, InitSlot, InitValue, Compatible, CompatibleMsg, TypedMsg, TypedValue, Merged, Roomy, LooksZero, RoomyItems;
    OverwrittenStep(fs, gs, ws, n, i);
  }

  // The first n fields of what was encoded.
  lemma {:induction false} FieldsMerge(fs: seq<Field>, was: seq<Slot>, gs: seq<Field>, ws: seq<Slot>, n: nat, rest: Bytes,
                                       seen: seq<Word>)
    requires CompatibleMsg(fs, gs) && WellTagged(fs) && Tagged(gs) && ShapedMsg(fs, was) && |seen| == 2
    requires TypedMsg(gs, ws) && MsgTerminated(gs, ws) && n <= |gs|
    requires MsgBytes(gs, ws, n).Some? && |MsgBytes(gs, ws, n).value| < TWO32
    ensures ReadFields(fs, MsgBytes(gs, ws, n).value + rest, was, seen) ==
            if RoomyMsg(fs, was, gs, ws, n) then ReadFields(fs, rest, MergedMsg(fs, was, gs, ws, n), SeenFrom(fs, gs, n, seen))
            else None
    decreases fs, 3, n
  {
    hide ReadFields, SlotBytes, TypedSlot, SlotTerminated, MergedMsg, RoomyMsg, RoomySlot, AfterField, ShapedSlot, FindTag, Tick;
    hide CompatibleMsg, CompatibleField, WellFormedField, TaggedField, OneActive;
    if n == 0 {
      NothingMerged(fs, was, gs, ws);
      assert MsgBytes(gs, ws, 0).value + rest == rest;
    } else {
      var g, s := gs[n - 1], ws[n - 1];
      var bytes, before, cur := SlotBytes(g, s).value, SeenFrom(fs, gs, n - 1, seen), MergedMsg(fs, was, gs, ws, n - 1);
      FieldsMerge(fs, was, gs, ws, n - 1, bytes + rest, seen);
      Associate(MsgBytes(gs, ws, n - 1).value, bytes, rest);
      assert TypedSlot(g, s) && SlotTerminated(g, s) && TaggedField(g);
      TagOf(g);
      match FindTag(fs, g.tag) {
        case None =>
          UnknownStep(fs, was, gs, ws, n - 1);
          SkipsSlot(fs, g, s, rest, cur, before);
        case Some(i) =>
          KnownStep(fs, was, gs, ws, n - 1, i);
          FieldGoesWith(fs, was, gs, ws, n - 1, i);
          SlotMerge(fs, i, g, s, rest, cur, before);
      }
    }
  }

  lemma TagOf(g: Field)
    requires TaggedField(g)
    ensures g.tag < MAX_TAG
  {
  }

  lemma NothingMerged(fs: seq<Field>, was: seq<Slot>, gs: seq<Field>, ws: seq<Slot>)
    requires |was| == |fs| && |gs| == |ws|
    ensures MergedMsg(fs, was, gs, ws, 0) == was && RoomyMsg(fs, was, gs, ws, 0)
  {
    assert gs[..0] == [];
  }

  lemma FieldGoesWith(fs: seq<Field>, was: seq<Slot>, gs: seq<Field>, ws: seq<Slot>, n: nat, i: nat)
    requires CompatibleMsg(fs, gs) && WellTagged(fs) && UniqueTags(gs) && ShapedMsg(fs, was)
    requires n < |gs| == |ws| && FindTag(fs, gs[n].tag) == Some(i)
    ensures CompatibleField(fs[i], gs[n]) && WellFormedField(fs[i]) && ShapedSlot(fs[i], MergedMsg(fs, was, gs, ws, n)[i])
  {
    OnlyField(gs, n, gs[n].tag);
    hide CompatibleField, WellFormedField, ShapedSlot, MergedSlot, Overwritten;
    DefaultSlotIsShaped(fs[i]);
  }

  // ---------- required fields

  lemma {:induction false} NthRequired(fs: seq<Field>, n: nat, k: nat) returns (i: nat)
    requires n <= |fs| && k < RequiredBefore(fs, n)
    ensures i < n && fs[i].htype.Required? && RequiredBefore(fs, i) == k
  {
    if k < RequiredBefore(fs, n - 1) {
      i := NthRequired(fs, n - 1, k);
    } else {
      i := n - 1;
    }
  }

  lemma {:induction false} RequiredIncreases(fields: seq<Field>, i: nat, j: nat)
    requires i <= j <= |fields|
    ensures RequiredBefore(fields, i) <= RequiredBefore(fields, j)
    decreases j
  {
    if i < j {
      RequiredIncreases(fields, i, j - 1);
    }
  }

  lemma Ticks(fs: seq<Field>, i: nat, seen: seq<Word>)
    requires i < |fs| && WordsOk(seen, RequiredBefore(fs, |fs|))
    ensures WordsOk(Tick(fs, i, seen), RequiredBefore(fs, |fs|))
    ensures forall k: nat | Marked(seen, k) :: Marked(Tick(fs, i, seen), k)
    ensures fs[i].htype.Required? && RequiredBefore(fs, i) < MAX_REQUIRED_FIELDS ==> Marked(Tick(fs, i, seen), RequiredBefore(fs, i))
  {
    RequiredIncreases(fs, i + 1, |fs|);
    if fs[i].htype.Required? && RequiredBefore(fs, i) < MAX_REQUIRED_FIELDS {
      MarkMarks(seen, RequiredBefore(fs, i), RequiredBefore(fs, |fs|));
    }
  }

  // Every required field that was written is ticked off.
  lemma {:induction false} SeenMarks(fs: seq<Field>, gs: seq<Field>, n: nat, seen: seq<Word>)
    requires n <= |gs| && |seen| == 2 && WordsOk(seen, RequiredBefore(fs, |fs|)) && UniqueTags(fs)
    ensures WordsOk(SeenFrom(fs, gs, n, seen), RequiredBefore(fs, |fs|))
    ensures forall i | 0 <= i < |fs| && fs[i].htype.Required? && RequiredBefore(fs, i) < MAX_REQUIRED_FIELDS
                && (exists j | 0 <= j < n :: gs[j].tag == fs[i].tag) ::
              Marked(SeenFrom(fs, gs, n, seen), RequiredBefore(fs, i))
  {
    hide FindTag, Tick, WordsOk, Marked, RequiredBefore;
    if n > 0 {
      SeenMarks(fs, gs, n - 1, seen);
      var before := SeenFrom(fs, gs, n - 1, seen);
      var at := FindTag(fs, gs[n - 1].tag);
      if at.Some? {
        Ticks(fs, at.value, before);
      }
      forall i | 0 <= i < |fs| && fs[i].htype.Required? && RequiredBefore(fs, i) < MAX_REQUIRED_FIELDS
          && (exists j | 0 <= j < n :: gs[j].tag == fs[i].tag)
        ensures Marked(SeenFrom(fs, gs, n, seen), RequiredBefore(fs, i)) {
        var j :| 0 <= j < n && gs[j].tag == fs[i].tag;
        if j == n - 1 {
          OnlyField(fs, i, gs[j].tag);
        }
      }
    }
  }

  // After a whole message of a compatible descriptor the check passes for the counts it
  // supports, and is undefined for the others.
  lemma AllAreSeen(fs: seq<Field>, gs: seq<Field>, before: seq<Word>)
    requires CompatibleMsg(fs, gs) && UniqueTags(fs) && |before| == 2 && WordsOk(before, RequiredBefore(fs, |fs|))
    ensures WordsOk(SeenFrom(fs, gs, |gs|, before), RequiredBefore(fs, |fs|))
    ensures AllSeen(SeenFrom(fs, gs, |gs|, before), RequiredBefore(fs, |fs|))
         == if CountSupported(RequiredBefore(fs, |fs|)) then Some(true) else None
  {
    hide AllSeen, CountSupported, CompatibleField, FindTag;
    var seen, count := SeenFrom(fs, gs, |gs|, before), RequiredBefore(fs, |fs|);
    SeenMarks(fs, gs, |gs|, before);
    forall k | 0 <= k < count && k < MAX_REQUIRED_FIELDS ensures Marked(seen, k) {
      var i := NthRequired(fs, |fs|, k);
      assert FindTag(gs, fs[i].tag).Some?;
    }
    AllSeenIff(seen, count);
  }

  // Whatever was there, whatever the encoder's descriptor has more or less: decoding merges
  // what was encoded into the message, unless an array would get too long.
  lemma {:induction false} MsgMerge(fs: seq<Field>, was: seq<Slot>, gs: seq<Field>, ws: seq<Slot>)
    requires CompatibleMsg(fs, gs) && WellFormed(fs) && Tagged(gs) && ShapedMsg(fs, was)
    requires TypedMsg(gs, ws) && MsgTerminated(gs, ws)
    requires MsgBytes(gs, ws, |gs|).Some? && |MsgBytes(gs, ws, |gs|).value| < TWO32
    ensures ReadMsg(fs, MsgBytes(gs, ws, |gs|).value, was)
         == if RoomyMsg(fs, was, gs, ws, |gs|) then Some(MergedMsg(fs, was, gs, ws, |gs|)) else None
    decreases fs, 4
  {
    hide WellTagged, Tagged, CompatibleMsg, MsgTerminated, TypedMsg, MergedMsg, RoomyMsg, AllSeen, CountSupported, SeenFrom;
    hide MsgBytes, ShapedMsg;
    var b := MsgBytes(gs, ws, |gs|).value;
    FieldsMerge(fs, was, gs, ws, |gs|, [], [{}, {}]);
    assert b + [] == b;
    WellTaggedIsUnique(fs);
    AllAreSeen(fs, gs, [{}, {}]);
  }

  lemma WellTaggedIsUnique(fs: seq<Field>)
    requires WellTagged(fs)
    ensures UniqueTags(fs)
  {
  }
}
