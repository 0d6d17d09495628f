/**
 What nanopb decodes from what it encoded: every field that was present, in nested messages
 too, unless an implicit submessage looks empty to the encoder.
 */
module PbRoundTrip {
  import opened Coding
  import opened PbCommon
  import opened PbEncode
  import opened PbDecode
  import opened PbMerge

  // ---------- what decoding gives

  // Like Meaning, but an implicit field that looks zero to the encoder has its default.
  function Decoded(l: LType, v: Value): Value
    decreases l
  {
    match l
    case SubMessageT(fs) => if v.Msg? && |v.slots| == |fs| then Msg(DecodedMsg(fs, v.slots)) else v
    case StringT(n) => if v.Raw? then Raw(CString(v.bytes, n)) else v
    case _ => v
  }

  function DecodedSlot(f: Field, s: Slot): Slot
    decreases f
  {
    match s
    case Single(v) =>
      if f.htype.Implicit? && LooksZero(f.ltype, v) then Single(InitValue(f.ltype)) else Single(Decoded(f.ltype, v))
    case Opt(has, v) => if has then Opt(true, Decoded(f.ltype, v)) else Opt(false, InitValue(f.ltype))
    case One(active, v) => if active then One(true, Decoded(f.ltype, v)) else One(false, InitValue(f.ltype))
    case Rep(items) => Rep(seq(|items|, i requires 0 <= i < |items| => Decoded(f.ltype, items[i])))
  }

  function DecodedMsg(fields: seq<Field>, slots: seq<Slot>): (r: seq<Slot>)
    requires |slots| == |fields|
    ensures |r| == |fields|
    decreases fields
  {
    seq(|fields|, i requires 0 <= i < |fields| => DecodedSlot(fields[i], slots[i]))
  }

  // ---------- decoding from the defaults

  lemma {:induction false} WellFormedIsTagged(fields: seq<Field>)
    requires WellTagged(fields)
    ensures Tagged(fields)
    decreases fields
  {
    hide UniqueTags;
    forall i | 0 <= i < |fields| ensures TaggedField(fields[i]) {
      FieldIsTagged(fields[i]);
    }
  }

  lemma {:induction false} FieldIsTagged(f: Field)
    requires WellFormedField(f)
    ensures TaggedField(f)
    decreases f
  {
    TypeIsTagged(f.ltype);
  }

  lemma {:induction false} TypeIsTagged(l: LType)
    requires WellFormedType(l)
    ensures TaggedType(l)
    decreases l
  {
    if l.SubMessageT? {
      WellFormedIsTagged(l.fields);
    }
  }

  lemma {:induction false} SelfCompatible(fields: seq<Field>)
    requires WellTagged(fields)
    ensures CompatibleMsg(fields, fields)
    decreases fields
  {
    hide CompatibleField;
    forall i | 0 <= i < |fields| ensures FindTag(fields, fields[i].tag) == Some(i) && CompatibleField(fields[i], fields[i]) {
      OnlyField(fields, i, fields[i].tag);
      FieldIsCompatible(fields[i]);
    }
  }

  lemma {:induction false} FieldIsCompatible(f: Field)
    requires WellFormedField(f)
    ensures CompatibleField(f, f)
    decreases f
  {
    TypeIsCompatible(f.ltype);
  }

  lemma {:induction false} TypeIsCompatible(l: LType)
    requires WellFormedType(l)
    ensures Compatible(l, l)
    decreases l
  {
    if l.SubMessageT? {
      SelfCompatible(l.fields);
    }
  }

  // On top of the defaults no array gets too long, whatever the decoder knows of the message.
  lemma {:induction false} DefaultsAreRoomy(l: LType, w: LType, v: Value)
    requires Compatible(l, w) && TypedValue(w, v) && Encodable(w, v)
    ensures Roomy(l, InitValue(l), w, v)
    decreases l
  {
    if l.SubMessageT? {
      DefaultMsgIsRoomy(l.fields, w.fields, v.slots);
    }
  }

  lemma {:induction false} DefaultMsgIsRoomy(fs: seq<Field>, gs: seq<Field>, ws: seq<Slot>)
    requires CompatibleMsg(fs, gs) && TypedMsg(gs, ws) && MsgEncodable(gs, ws)
    ensures RoomyMsg(fs, InitMsg(fs), gs, ws, |gs|)
    decreases fs, 1
  {
    hide FindTag, RoomySlot, SlotEncodable, TypedSlot, CompatibleField, InitSlot;
    assert gs[..|gs|] == gs;
    forall i | 0 <= i < |fs| && FindTag(gs, fs[i].tag).Some?
      ensures var j := FindTag(gs, fs[i].tag).value; RoomySlot(fs[i], InitMsg(fs)[i], gs[j], ws[j]) {
      var j := FindTag(gs, fs[i].tag).value;
      DefaultSlotIsRoomy(fs[i], gs[j], ws[j]);
    }
  }

  lemma {:induction false} DefaultSlotIsRoomy(f: Field, g: Field, s: Slot)
    requires CompatibleField(f, g) && TypedSlot(g, s) && SlotEncodable(g, s)
    ensures RoomySlot(f, InitSlot(f), g, s)
    decreases f
  {
    hide Compatible, TypedValue, Encodable, Roomy, LooksZero, InitValue;
    match s
    case Single(v) =>
      if !(g.htype.Implicit? && LooksZero(g.ltype, v)) {
        DefaultsAreRoomy(f.ltype, g.ltype, v);
      }
    case Opt(has, v) =>
      if has {
        DefaultsAreRoomy(f.ltype, g.ltype, v);
      }
    case One(active, v) =>
      if active {
        DefaultsAreRoomy(f.ltype, g.ltype, v);
      }
    case Rep(items) =>
      forall i | 0 <= i < |items| ensures Roomy(f.ltype, InitValue(f.ltype), g.ltype, items[i]) {
        DefaultsAreRoomy(f.ltype, g.ltype, items[i]);
      }
  }

  lemma {:induction false} MergedIsDecoded(l: LType, v: Value)
    requires WellFormedType(l) && TypedValue(l, v)
    ensures Merged(l, InitValue(l), l, v) == Decoded(l, v)
    decreases l
  {
    if l.SubMessageT? {
      MergedMsgIsDecoded(l.fields, v.slots);
    }
  }

  lemma {:induction false} MergedSlotIsDecoded(f: Field, s: Slot)
    requires WellFormedField(f) && TypedSlot(f, s)
    ensures MergedSlot(f, InitSlot(f), f, s) == DecodedSlot(f, s)
    decreases f, 0
  {
    hide TypedValue, Merged, Decoded, LooksZero, InitValue;
    if s.Rep? {
      forall i | 0 <= i < |s.items| ensures Merged(f.ltype, InitValue(f.ltype), f.ltype, s.items[i]) == Decoded(f.ltype, s.items[i]) {
        MergedIsDecoded(f.ltype, s.items[i]);
      }
      assert [] + DecodedSlot(f, s).items == DecodedSlot(f, s).items;
      assert MergedSlot(f, InitSlot(f), f, s).items == DecodedSlot(f, s).items;
    } else {
      MergedIsDecoded(f.ltype, s.v);
    }
  }

  // A field the decoder knows as the encoder does is what decoding makes of it alone.
  lemma {:induction false} KnownIsDecoded(fs: seq<Field>, gs: seq<Field>, ws: seq<Slot>, i: nat, j: nat)
    requires CompatibleMsg(fs, gs) && WellTagged(fs) && Tagged(gs) && TypedMsg(gs, ws)
    requires i < |fs| && j < |gs| && fs[i] == gs[j]
    ensures MergedMsg(fs, InitMsg(fs), gs, ws, |gs|)[i] == DecodedSlot(fs[i], ws[j])
    decreases fs[i], 1
  {
    hide FindTag, MergedSlot, CompatibleMsg, Overwritten, CompatibleField;
    assert WellFormedField(fs[i]) && TypedSlot(gs[j], ws[j]);
    assert gs[..|gs|] == gs;
    OnlyField(gs, j, fs[i].tag);
    MergedSlotIsDecoded(fs[i], ws[j]);
    AllOverwritten(fs, gs, ws, j, i);
  }

  lemma {:induction false} AllOverwritten(fs: seq<Field>, gs: seq<Field>, ws: seq<Slot>, j: nat, i: nat)
    requires CompatibleMsg(fs, gs) && UniqueTags(fs) && UniqueTags(gs) && TypedMsg(gs, ws)
    requires i < |fs| && j < |gs| && FindTag(gs, fs[i].tag) == Some(j)
    ensures |ws| == |gs|
    ensures Overwritten(fs, gs, ws, |gs|, i) ==> fs[i].htype.OneOf? && ws[j].One? && !ws[j].active
  {
    hide Compatible, TypedValue;
    assert TypedSlot(gs[j], ws[j]) && CompatibleField(fs[i], gs[j]);
    forall k | 0 <= k < |gs| && TakesOver(fs, gs[k], ws[k], i) ensures ws[j].One? && !ws[j].active {
      var at := FindTag(fs, gs[k].tag).value;
      OnlyField(gs, k, fs[at].tag);
      assert CompatibleField(fs[at], gs[k]) && SameOneof(gs[k], gs[j]) && OneActive(gs, ws);
      if k == j {
        OnlyField(fs, i, fs[i].tag);
      }
      assert k != j;
    }
  }

  lemma {:induction false} MergedMsgIsDecoded(fields: seq<Field>, slots: seq<Slot>)
    requires WellTagged(fields) && TypedMsg(fields, slots)
    ensures MergedMsg(fields, InitMsg(fields), fields, slots, |fields|) == DecodedMsg(fields, slots)
    decreases fields, 2
  {
    hide MergedMsg, DecodedSlot, Tagged, CompatibleMsg;
    WellFormedIsTagged(fields);
    SelfCompatible(fields);
    forall i | 0 <= i < |fields|
      ensures MergedMsg(fields, InitMsg(fields), fields, slots, |fields|)[i] == DecodedMsg(fields, slots)[i] {
      KnownIsDecoded(fields, fields, slots, i, i);
    }
  }

  lemma DefaultMsgIsShaped(fields: seq<Field>)
    ensures ShapedMsg(fields, InitMsg(fields))
  {
    DefaultsAreShaped(SubMessageT(fields));
  }

  // Whatever was encoded, every field is read back.  The check behind that passes when the
  // number of required fields is one it supports, and is undefined otherwise.
  lemma DecodesIff(fields: seq<Field>, slots: seq<Slot>)
    requires TypedMsg(fields, slots) && WellTagged(fields) && MsgTerminated(fields, slots) && MsgEncodable(fields, slots)
    requires |MsgEncoding(fields, slots)| < TWO32
    ensures var count := RequiredBefore(fields, |fields|);
            var r := ReadFields(fields, MsgEncoding(fields, slots), InitMsg(fields), [{}, {}]);
            && r.Some? && r.value.0 == DecodedMsg(fields, slots)
            && AllSeen(r.value.1, count) == (if CountSupported(count) then Some(true) else None)
            && (CountSupported(count) ==> ReadMsg(fields, MsgEncoding(fields, slots), InitMsg(fields)) == Some(DecodedMsg(fields, slots)))
  {
    hide MsgBytes, WellTagged, MsgTerminated, AllSeen, CountSupported, SeenFrom, MergedMsg, RoomyMsg, ReadFields, CompatibleMsg;
    hide TypedMsg, MsgEncodable, ShapedMsg, Tagged;
    TypedIsLong(fields, slots);
    var b := MsgEncoding(fields, slots);
    WellFormedIsTagged(fields);
    WellTaggedIsUnique(fields);
    SelfCompatible(fields);
    DefaultMsgIsShaped(fields);
    DefaultMsgIsRoomy(fields, fields, slots);
    FieldsMerge(fields, InitMsg(fields), fields, slots, |fields|, [], [{}, {}]);
    assert b + [] == b;
    MergedMsgIsDecoded(fields, slots);
    AllAreSeen(fields, fields, [{}, {}]);
    NothingToRead(fields, DecodedMsg(fields, slots), SeenFrom(fields, fields, |fields|, [{}, {}]));
  }

  lemma NothingToRead(fields: seq<Field>, slots: seq<Slot>, seen: seq<Word>)
    requires |slots| == |fields| && |seen| == 2
    ensures ReadFields(fields, [], slots, seen) == Some((slots, seen))
  {
  }

  // The bytes of a message that has an encoding.
  function MsgEncoding(fields: seq<Field>, slots: seq<Slot>): (b: Bytes)
    requires TypedMsg(fields, slots) && |slots| == |fields| && MsgEncodable(fields, slots)
    ensures MsgBytes(fields, slots, |fields|) == Some(b)
  {
    MsgEncodableIff(fields, slots, |fields|);
    MsgBytes(fields, slots, |fields|).value
  }

  lemma MsgRoundTrip(fields: seq<Field>, slots: seq<Slot>)
    requires TypedMsg(fields, slots) && WellFormed(fields) && MsgTerminated(fields, slots) && MsgEncodable(fields, slots)
    requires |MsgEncoding(fields, slots)| < TWO32
    ensures ReadMsg(fields, MsgEncoding(fields, slots), InitMsg(fields)) == Some(DecodedMsg(fields, slots))
  {
    DecodesIff(fields, slots);
  }

  // A decoder with other fields gets those it shares with the encoder, as if there were no
  // more, and the defaults for its own.
  lemma KnownFieldsAreRead(fs: seq<Field>, gs: seq<Field>, ws: seq<Slot>)
    requires CompatibleMsg(fs, gs) && WellFormed(fs) && Tagged(gs)
    requires TypedMsg(gs, ws) && MsgTerminated(gs, ws) && MsgEncodable(gs, ws) && |MsgEncoding(gs, ws)| < TWO32
    ensures var r := ReadMsg(fs, MsgEncoding(gs, ws), InitMsg(fs));
            && r.Some?
            && (forall i, j | 0 <= i < |fs| && 0 <= j < |gs| && fs[i] == gs[j] :: r.value[i] == DecodedSlot(fs[i], ws[j]))
            && (forall i | 0 <= i < |fs| && (forall j | 0 <= j < |gs| :: gs[j].tag != fs[i].tag) :: r.value[i] == InitSlot(fs[i]))
  {
    hide CompatibleMsg, Tagged, WellTagged, TypedMsg, MsgTerminated, MsgEncodable, MergedMsg, RoomyMsg, ReadMsg, DecodedSlot, MsgBytes;
    hide ShapedMsg, FindTag, InitSlot;
    TypedIsLong(gs, ws);
    DefaultMsgIsShaped(fs);
    DefaultMsgIsRoomy(fs, gs, ws);
    MsgMerge(fs, InitMsg(fs), gs, ws);
    forall i, j | 0 <= i < |fs| && 0 <= j < |gs| && fs[i] == gs[j]
      ensures MergedMsg(fs, InitMsg(fs), gs, ws, |gs|)[i] == DecodedSlot(fs[i], ws[j]) {
      KnownIsDecoded(fs, gs, ws, i, j);
    }
    forall i | 0 <= i < |fs| && (forall j | 0 <= j < |gs| :: gs[j].tag != fs[i].tag)
      ensures MergedMsg(fs, InitMsg(fs), gs, ws, |gs|)[i] == InitSlot(fs[i]) {
      OwnIsDefault(fs, gs, ws, i);
    }
  }

  lemma {:induction false} OwnIsDefault(fs: seq<Field>, gs: seq<Field>, ws: seq<Slot>, i: nat)
    requires |gs| == |ws| && i < |fs| && forall j | 0 <= j < |gs| :: gs[j].tag != fs[i].tag
    ensures MergedMsg(fs, InitMsg(fs), gs, ws, |gs|)[i] == InitSlot(fs[i])
  {
    hide MergedSlot, Overwritten, InitSlot, FindTag;
    assert gs[..|gs|] == gs && FindTag(gs, fs[i].tag) == None;
  }

  lemma {:induction false} MergedIsShaped(l: LType, was: Value, w: LType, v: Value)
    requires Compatible(l, w) && Shaped(l, was) && TypedValue(w, v)
    ensures Shaped(l, Merged(l, was, w, v))
    decreases l
  {
    if l.SubMessageT? {
      MergedMsgIsShaped(l.fields, was.slots, w.fields, v.slots, |w.fields|);
    }
  }

  lemma {:induction false} MergedSlotIsShaped(f: Field, was: Slot, g: Field, s: Slot)
    requires CompatibleField(f, g) && ShapedSlot(f, was) && TypedSlot(g, s)
    ensures ShapedSlot(f, MergedSlot(f, was, g, s))
    decreases f
  {
    hide Compatible, Shaped, TypedValue, Merged;
    if s.Single? || s.Opt? {
      MergedIsShaped(f.ltype, was.v, g.ltype, s.v);
    }
  }

  lemma {:induction false} MergedMsgIsShaped(fs: seq<Field>, was: seq<Slot>, gs: seq<Field>, ws: seq<Slot>, n: nat)
    requires CompatibleMsg(fs, gs) && ShapedMsg(fs, was) && TypedMsg(gs, ws) && n == |gs|
    ensures ShapedMsg(fs, MergedMsg(fs, was, gs, ws, n))
    decreases fs
  {
    hide ShapedSlot, CompatibleField, TypedSlot, MergedSlot, FindTag, Overwritten;
    assert gs[..n] == gs;
    forall i | 0 <= i < |fs| ensures ShapedSlot(fs[i], MergedMsg(fs, was, gs, ws, n)[i]) {
      DefaultSlotIsShaped(fs[i]);
      var j := FindTag(gs, fs[i].tag);
      if j.Some? {
        assert CompatibleField(fs[i], gs[j.value]) && TypedSlot(gs[j.value], ws[j.value]);
        MergedSlotIsShaped(fs[i], was[i], gs[j.value], ws[j.value]);
      }
    }
  }

  // Two encodings one behind the other decode to the second merged into the first.
  lemma ConcatenationMerges(fs: seq<Field>, gs: seq<Field>, a: seq<Slot>, hs: seq<Field>, b: seq<Slot>)
    requires WellFormed(fs) && CompatibleMsg(fs, gs) && Tagged(gs) && CompatibleMsg(fs, hs) && Tagged(hs)
    requires TypedMsg(gs, a) && MsgTerminated(gs, a) && MsgEncodable(gs, a) && |MsgEncoding(gs, a)| < TWO32
    requires TypedMsg(hs, b) && MsgTerminated(hs, b) && MsgEncodable(hs, b) && |MsgEncoding(hs, b)| < TWO32
    ensures var first := ReadMsg(fs, MsgEncoding(gs, a), InitMsg(fs));
            && first.Some?
            && ReadMsg(fs, MsgEncoding(gs, a) + MsgEncoding(hs, b), InitMsg(fs)) == ReadMsg(fs, MsgEncoding(hs, b), first.value)
            && ReadMsg(fs, MsgEncoding(hs, b), first.value)
               == if RoomyMsg(fs, first.value, hs, b, |hs|) then Some(MergedMsg(fs, first.value, hs, b, |hs|)) else None
  {
    hide CompatibleMsg, Tagged, WellTagged, TypedMsg, MsgTerminated, MsgEncodable, MergedMsg, RoomyMsg, ReadFields, MsgBytes;
    hide ShapedMsg, SeenFrom, AllSeen, WordsOk, CountSupported, Ones;
    TypedIsLong(gs, a);
    TypedIsLong(hs, b);
    var x, y, none: seq<Word> := MsgEncoding(gs, a), MsgEncoding(hs, b), [{}, {}];
    DefaultMsgIsShaped(fs);
    DefaultMsgIsRoomy(fs, gs, a);
    MsgMerge(fs, InitMsg(fs), gs, a);
    var m := MergedMsg(fs, InitMsg(fs), gs, a, |gs|);
    MergedMsgIsShaped(fs, InitMsg(fs), gs, a, |gs|);
    MsgMerge(fs, m, hs, b);
    FieldsMerge(fs, InitMsg(fs), gs, a, |gs|, y, none);
    var seen := SeenFrom(fs, gs, |gs|, none);
    FieldsMerge(fs, m, hs, b, |hs|, [], seen);
    assert y + [] == y;
    WellTaggedIsUnique(fs);
    NoneMarked(RequiredBefore(fs, |fs|));
    AllAreSeen(fs, gs, none);
    AllAreSeen(fs, hs, seen);
    if RoomyMsg(fs, m, hs, b, |hs|) {
      NothingToRead(fs, MergedMsg(fs, m, hs, b, |hs|), SeenFrom(fs, hs, |hs|, seen));
    }
  }

  lemma NoneMarked(count: nat)
    ensures WordsOk([{}, {}], count)
  {
  }

  // ---------- what is lost

  // No has-flag is set and no array has entries, at any depth.
  predicate NoFlags(l: LType, v: Value)
    decreases l
  {
    l.SubMessageT? && v.Msg? && |v.slots| == |l.fields| ==>
      forall i | 0 <= i < |l.fields| :: SlotNoFlags(l.fields[i], v.slots[i])
  }

  predicate SlotNoFlags(f: Field, s: Slot)
    decreases f
  {
    match s
    case Single(v) => NoFlags(f.ltype, v)
    case Opt(has, _) => !has
    case One(active, _) => !active
    case Rep(items) => items == []
  }

  // No encoded implicit field that looks zero has a flag set or an array with entries below it.
  ghost predicate NothingHidden(l: LType, v: Value)
    decreases l
  {
    l.SubMessageT? && v.Msg? && |v.slots| == |l.fields| ==> MsgNothingHidden(l.fields, v.slots)
  }

  ghost predicate SlotNothingHidden(f: Field, s: Slot)
    decreases f
  {
    match s
    case Single(v) =>
      if f.htype.Implicit? && LooksZero(f.ltype, v) then NoFlags(f.ltype, v) else NothingHidden(f.ltype, v)
    case Opt(has, v) => has ==> NothingHidden(f.ltype, v)
    case One(active, v) => active ==> NothingHidden(f.ltype, v)
    case Rep(items) => forall i | 0 <= i < |items| :: NothingHidden(f.ltype, items[i])
  }

  ghost predicate MsgNothingHidden(fields: seq<Field>, slots: seq<Slot>)
    requires |slots| == |fields|
    decreases fields
  {
    forall i | 0 <= i < |fields| :: SlotNothingHidden(fields[i], slots[i])
  }

  // A value that looks zero means the default if and only if nothing is flagged in it.
  lemma {:induction false} ZeroMeans(l: LType, v: Value)
    requires TypedValue(l, v) && LooksZero(l, v)
    ensures Meaning(l, v) == InitValue(l) <==> NoFlags(l, v)
    decreases l
  {
    match l
    case SubMessageT(fs) =>
      forall i | 0 <= i < |fs| ensures SlotMeaning(fs[i], v.slots[i]) == InitSlot(fs[i]) <==> SlotNoFlags(fs[i], v.slots[i]) {
        assert TypedSlot(fs[i], v.slots[i]) && SlotLooksZero(fs[i], v.slots[i]);
        SlotZeroMeans(fs[i], v.slots[i]);
      }
      var m, init := MsgMeaning(fs, v.slots), InitMsg(fs);
      if NoFlags(l, v) {
        assert forall i | 0 <= i < |fs| :: SlotNoFlags(fs[i], v.slots[i]) && m[i] == init[i];
      } else {
        var i :| 0 <= i < |fs| && !SlotNoFlags(fs[i], v.slots[i]);
        assert m[i] != init[i];
      }
    case FixedBytesT(n) => assert v.bytes == Zeros(n);
    case _ =>
  }

  lemma {:induction false} SlotZeroMeans(f: Field, s: Slot)
    requires TypedSlot(f, s) && SlotLooksZero(f, s)
    ensures SlotMeaning(f, s) == InitSlot(f) <==> SlotNoFlags(f, s)
    decreases f
  {
    if s.Single? {
      ZeroMeans(f.ltype, s.v);
    }
  }

  lemma {:induction false} MeansDecodedIff(l: LType, v: Value)
    requires TypedValue(l, v)
    ensures Decoded(l, v) == Meaning(l, v) <==> NothingHidden(l, v)
    decreases l
  {
    if l.SubMessageT? {
      MsgMeansDecodedIff(l.fields, v.slots);
    }
  }

  lemma {:induction false} SlotMeansDecodedIff(f: Field, s: Slot)
    requires TypedSlot(f, s)
    ensures DecodedSlot(f, s) == SlotMeaning(f, s) <==> SlotNothingHidden(f, s)
    decreases f
  {
    match s
    case Single(v) =>
      if f.htype.Implicit? && LooksZero(f.ltype, v) {
        ZeroMeans(f.ltype, v);
      } else {
        MeansDecodedIff(f.ltype, v);
      }
    case Opt(has, v) => MeansDecodedIff(f.ltype, v);
    case One(active, v) => MeansDecodedIff(f.ltype, v);
    case Rep(items) =>
      forall i | 0 <= i < |items| ensures Decoded(f.ltype, items[i]) == Meaning(f.ltype, items[i]) <==> NothingHidden(f.ltype, items[i]) {
        MeansDecodedIff(f.ltype, items[i]);
      }
      var d, m := DecodedSlot(f, s).items, SlotMeaning(f, s).items;
      if SlotNothingHidden(f, s) {
        assert forall i | 0 <= i < |items| :: d[i] == m[i];
      } else {
        var i :| 0 <= i < |items| && !NothingHidden(f.ltype, items[i]);
        assert d[i] != m[i];
      }
  }

  lemma {:induction false} MsgMeansDecodedIff(fields: seq<Field>, slots: seq<Slot>)
    requires TypedMsg(fields, slots)
    ensures DecodedMsg(fields, slots) == MsgMeaning(fields, slots) <==> MsgNothingHidden(fields, slots)
    decreases fields
  {
    forall i | 0 <= i < |fields|
      ensures DecodedSlot(fields[i], slots[i]) == SlotMeaning(fields[i], slots[i]) <==> SlotNothingHidden(fields[i], slots[i])
    {
      SlotMeansDecodedIff(fields[i], slots[i]);
    }
    var d, m := DecodedMsg(fields, slots), MsgMeaning(fields, slots);
    if MsgNothingHidden(fields, slots) {
      assert forall i | 0 <= i < |fields| :: SlotNothingHidden(fields[i], slots[i]) && d[i] == m[i];
    } else {
      var i :| 0 <= i < |fields| && !SlotNothingHidden(fields[i], slots[i]);
      assert d[i] != m[i];
    }
  }

  // Decoding an encoding gives back what the message says, if and only if nothing is hidden
  // under an implicit field that looks zero.
  lemma RestoresMeaningIff(fields: seq<Field>, slots: seq<Slot>)
    requires TypedMsg(fields, slots) && WellFormed(fields) && MsgTerminated(fields, slots) && MsgEncodable(fields, slots)
    requires |MsgEncoding(fields, slots)| < TWO32
    ensures ReadMsg(fields, MsgEncoding(fields, slots), InitMsg(fields)) == Some(MsgMeaning(fields, slots))
       <==> MsgNothingHidden(fields, slots)
  {
    MsgRoundTrip(fields, slots);
    MsgMeansDecodedIff(fields, slots);
  }

  // Two entries, the first of them zero, in an array of an implicit submessage: nothing is
  // written, and both are lost.
  lemma HiddenEntriesAreLost()
    ensures var inner := [Field(1, Repeated(2), UVarintT(4))];
            var fields, slots := [Field(1, Implicit, SubMessageT(inner))], [Single(Msg([Rep([Int(0), Int(5)])]))];
            && TypedMsg(fields, slots) && MsgBytes(fields, slots, 1) == Some([])
            && ReadMsg(fields, [], InitMsg(fields)) == Some([Single(Msg([Rep([])]))])
            && MsgMeaning(fields, slots) == slots
  {
    var inner := [Field(1, Repeated(2), UVarintT(4))];
    var f := Field(1, Implicit, SubMessageT(inner));
    var v := Msg([Rep([Int(0), Int(5)])]);
    assert TypedSlot(inner[0], v.slots[0]);
    assert SlotLooksZero(inner[0], v.slots[0]);
    assert SlotMeaning(inner[0], v.slots[0]).items == [Int(0), Int(5)];
    assert MsgMeaning(inner, v.slots) == v.slots;
    assert TypedSlot(f, Single(v)) && LooksZero(f.ltype, v);
    assert SlotBytes(f, Single(v)) == Some([]);
    assert InitMsg(inner) == [Rep([])];
    assert InitMsg([f]) == [Single(Msg([Rep([])]))];
    assert RequiredBefore([f], 1) == RequiredBefore([f], 0);
    var nothing: Bytes := [];
    assert nothing + nothing == nothing;
    assert MsgBytes([f], [Single(v)], 0) == Some([]);
    assert TypedMsg([f], [Single(v)]);
    assert MsgBytes([f], [Single(v)], 1) == Cat(MsgBytes([f], [Single(v)], 0), SlotBytes(f, Single(v)));
    assert MsgMeaning([f], [Single(v)]) == [Single(v)];
  }
}
