/**
 nanopb messages as typed field lists (nanopb/pb.h, nanopb/pb_common.c): field descriptors,
 message values, the circular field iterator and the bit set of required fields.
 */
module PbCommon {
  import opened Coding

  // ---------- descriptors and values

  // The numeric types carry their size in bytes; strings and bytes the space for them.
  datatype LType =
    | VarintT(size: nat) | UVarintT(size: nat) | SVarintT(size: nat) | Fixed32T | Fixed64T
    | BytesT(capacity: nat) | StringT(size: nat) | FixedBytesT(size: nat)
    | SubMessageT(fields: seq<Field>)

  // Implicit is an optional field without its own has-flag.  The fields of a oneof share one
  // which-tag and one place in memory.
  datatype HType = Required | Optional | Implicit | Repeated(arraySize: nat) | OneOf(group: nat)
  datatype Field = Field(tag: nat, htype: HType, ltype: LType)

  datatype Value = Int(v: int) | Raw(bytes: Bytes) | Msg(slots: seq<Slot>)
  // A oneof field that is not active has as its value whatever the shared memory reads as.
  datatype Slot = Single(v: Value) | Opt(has: bool, v: Value) | Rep(items: seq<Value>) | One(active: bool, v: Value)

  function Bound(size: nat): nat {
    if size == 1 then 0x100 else if size == 2 then 0x1_0000 else if size == 4 then TWO32 else TWO64
  }

  predicate ValidSize(size: nat) {
    size == 1 || size == 2 || size == 4 || size == 8
  }

  predicate FitsSigned(v: int, size: nat) {
    -(Bound(size) / 2) <= v < Bound(size) / 2
  }

  predicate FitsUnsigned(v: int, size: nat) {
    0 <= v < Bound(size)
  }

  predicate Packable(l: LType) {
    l.VarintT? || l.UVarintT? || l.SVarintT? || l.Fixed32T? || l.Fixed64T?
  }

  // ---------- which messages have a descriptor

  ghost predicate TypedValue(l: LType, v: Value)
    decreases l
  {
    match l
    case VarintT(n) => ValidSize(n) && v.Int? && FitsSigned(v.v, n)
    case UVarintT(n) => ValidSize(n) && v.Int? && FitsUnsigned(v.v, n)
    case SVarintT(n) => ValidSize(n) && v.Int? && FitsSigned(v.v, n)
    case Fixed32T => v.Int? && FitsUnsigned(v.v, 4)
    case Fixed64T => v.Int? && FitsUnsigned(v.v, 8)
    case BytesT(_) => v.Raw?
    case StringT(_) => v.Raw?
    case FixedBytesT(n) => v.Raw? && |v.bytes| == n
    case SubMessageT(fs) => v.Msg? && TypedMsg(fs, v.slots)
  }

  ghost predicate TypedSlot(f: Field, s: Slot)
    decreases f
  {
    match f.htype
    case Required => s.Single? && TypedValue(f.ltype, s.v)
    case Implicit => s.Single? && TypedValue(f.ltype, s.v)
    case Optional => s.Opt? && TypedValue(f.ltype, s.v)
    case Repeated(_) => s.Rep? && forall i | 0 <= i < |s.items| :: TypedValue(f.ltype, s.items[i])
    case OneOf(_) => s.One? && TypedValue(f.ltype, s.v)
  }

  ghost predicate TypedMsg(fields: seq<Field>, slots: seq<Slot>)
    decreases fields
  {
    && |slots| == |fields| && (forall i | 0 <= i < |fields| :: TypedSlot(fields[i], slots[i]))
    && OneActive(fields, slots)
  }

  predicate SameOneof(f: Field, g: Field) {
    f.htype.OneOf? && f.htype == g.htype
  }

  // The which-tag names at most one field of a oneof.
  ghost predicate OneActive(fields: seq<Field>, slots: seq<Slot>)
    requires |slots| == |fields|
  {
    forall i, j | 0 <= i < |fields| && 0 <= j < |fields| && i != j && SameOneof(fields[i], fields[j]) ::
      slots[i].One? && slots[i].active ==> !(slots[j].One? && slots[j].active)
  }

  // ---------- defaults and meaning

  // The characters before the terminator, within the array.
  function CString(b: Bytes, size: nat): (r: Bytes)
    ensures |r| <= size && |r| <= |b| && r == b[..|r|]
    ensures forall i | 0 <= i < |r| :: r[i] != 0
    ensures |r| < size && |r| < |b| ==> b[|r|] == 0
  {
    if b == [] || size == 0 || b[0] == 0 then [] else [b[0]] + CString(b[1..], size - 1)
  }

  function Zeros(n: nat): (r: Bytes)
    ensures |r| == n
  {
    seq(n, _ => 0)
  }

  function InitValue(l: LType): Value
    decreases l
  {
    match l
    case SubMessageT(fs) => Msg(InitMsg(fs))
    case FixedBytesT(n) => Raw(Zeros(n))
    case BytesT(_) => Raw([])
    case StringT(_) => Raw([])
    case _ => Int(0)
  }

  function InitSlot(f: Field): Slot
    decreases f
  {
    match f.htype
    case Required => Single(InitValue(f.ltype))
    case Implicit => Single(InitValue(f.ltype))
    case Optional => Opt(false, InitValue(f.ltype))
    case Repeated(_) => Rep([])
    case OneOf(_) => One(false, InitValue(f.ltype))
  }

  // pb_message_set_to_defaults, with unused array entries not shown.
  function InitMsg(fields: seq<Field>): (r: seq<Slot>)
    ensures |r| == |fields|
    decreases fields
  {
    seq(|fields|, i requires 0 <= i < |fields| => InitSlot(fields[i]))
  }

  // pb_check_proto3_default_value, which looks at the data alone: not at has-flags, and
  // of an array at the first entry only.  Unused array entries are zero.
  predicate LooksZero(l: LType, v: Value)
    decreases l
  {
    match l
    case SubMessageT(fs) => v.Msg? && |v.slots| == |fs| && forall i | 0 <= i < |fs| :: SlotLooksZero(fs[i], v.slots[i])
    case BytesT(_) => v.Raw? && v.bytes == []
    case StringT(_) => v.Raw? && (v.bytes == [] || v.bytes[0] == 0)
    case FixedBytesT(n) => n == 0
    case _ => v.Int? && v.v == 0
  }

  predicate SlotLooksZero(f: Field, s: Slot)
    decreases f
  {
    match s
    case Single(v) => LooksZero(f.ltype, v)
    case Opt(_, v) => LooksZero(f.ltype, v)
    case One(_, v) => LooksZero(f.ltype, v)
    case Rep(items) => items == [] || LooksZero(f.ltype, items[0])
  }

  // What a message says: strings end at their terminator, and what is absent has no value.
  function Meaning(l: LType, v: Value): Value
    decreases l
  {
    match l
    case SubMessageT(fs) => if v.Msg? && |v.slots| == |fs| then Msg(MsgMeaning(fs, v.slots)) else v
    case StringT(n) => if v.Raw? then Raw(CString(v.bytes, n)) else v
    case _ => v
  }

  function SlotMeaning(f: Field, s: Slot): Slot
    decreases f, 1
  {
    match s
    case Single(v) => Single(Meaning(f.ltype, v))
    case Opt(has, v) => if has then Opt(true, Meaning(f.ltype, v)) else Opt(false, InitValue(f.ltype))
    case One(active, v) => if active then One(true, Meaning(f.ltype, v)) else One(false, InitValue(f.ltype))
    case Rep(items) => Rep(seq(|items|, i requires 0 <= i < |items| => Meaning(f.ltype, items[i])))
  }

  function MsgMeaning(fields: seq<Field>, slots: seq<Slot>): (r: seq<Slot>)
    requires |slots| == |fields|
    ensures |r| == |fields|
    decreases fields
  {
    seq(|fields|, i requires 0 <= i < |fields| => SlotMeaning(fields[i], slots[i]))
  }

  // ---------- the field iterator

  // How many fields before i are required.
  function RequiredBefore(fields: seq<Field>, i: nat): (n: nat)
    requires i <= |fields|
    ensures n <= i
  {
    if i == 0 then 0
    else RequiredBefore(fields, i - 1) + if fields[i - 1].htype.Required? then 1 else 0
  }

  // The first field with the tag.
  function FindTag(fields: seq<Field>, tag: nat): (r: Option<nat>)
    ensures r.Some? ==> r.value < |fields| && fields[r.value].tag == tag
    ensures r.None? ==> forall i | 0 <= i < |fields| :: fields[i].tag != tag
  {
    if fields == [] then None
    else if fields[|fields| - 1].tag == tag && FindTag(fields[..|fields| - 1], tag).None? then Some(|fields| - 1)
    else FindTag(fields[..|fields| - 1], tag)
  }

  ghost predicate UniqueTags(fields: seq<Field>) {
    && (forall i | 0 <= i < |fields| :: fields[i].tag != 0)
    && forall i, j | 0 <= i < j < |fields| :: fields[i].tag != fields[j].tag
  }

  class FieldIter {
    const fields: seq<Field>
    var pos: nat
    var requiredFieldIndex: nat

    // The position is never on the terminator unless there are no fields.
    ghost predicate Ok()
      reads this
    {
      && (if fields == [] then pos == 0 else pos < |fields|)
      && requiredFieldIndex == RequiredBefore(fields, pos)
    }

    constructor (fields: seq<Field>)
      ensures Ok() && pos == 0 && this.fields == fields
    {
      this.fields := fields;
      pos, requiredFieldIndex := 0, 0;
    }

    // True unless it wrapped back to the first field.
    method Next() returns (more: bool)
      requires Ok()
      modifies this
      ensures Ok()
      ensures more <==> old(pos) + 1 < |fields|
      ensures pos == if more then old(pos) + 1 else 0
    {
      if fields == [] {
        return false;
      }
      var prev := fields[pos];
      pos := pos + 1;
      if pos == |fields| {
        pos, requiredFieldIndex := 0, 0;
        return false;
      }
      if prev.htype.Required? {
        requiredFieldIndex := requiredFieldIndex + 1;
      }
      return true;
    }

    // From any starting position the search goes round to the field with the tag.  Without any
    // fields it stands on the terminator, whose tag is 0.
    method Find(tag: nat) returns (found: bool)
      requires Ok()
      modifies this
      ensures Ok()
      ensures fields != [] ==> (found <==> exists i :: 0 <= i < |fields| && fields[i].tag == tag)
      ensures fields == [] ==> (found <==> tag == 0)
      ensures found && fields != [] ==> fields[pos].tag == tag
      ensures !found ==> pos == old(pos)
    {
      if fields == [] {
        return tag == 0;
      }
      var start := pos;
      ghost var steps: nat := 0;
      while true
        invariant Ok() && steps < |fields|
        invariant pos == if start + steps < |fields| then start + steps else start + steps - |fields|
        invariant forall i | 0 <= i < |fields| && Passed(i, start, steps) :: fields[i].tag != tag
        decreases |fields| - steps
      {
        if fields[pos].tag == tag {
          return true;
        }
        var _ := Next();
        steps := steps + 1;
        if pos == start {
          return false;
        }
      }
    }

    // Field i lies among the first steps fields counted round from start.
    ghost predicate Passed(i: nat, start: nat, steps: nat) {
      start <= i < start + steps || i + |fields| < start + steps
    }
  }

  // ---------- required fields

  const MAX_REQUIRED_FIELDS: nat := 64

  // A 32-bit word as the set of its one bits.
  type Word = set<nat>

  // The n low bits.
  function Ones(n: nat): (w: Word)
    ensures forall b :: b in w <==> 0 <= b < n
  {
    if n == 0 then {} else Ones(n - 1) + {n - 1}
  }

  // fields_seen: bit i of the two words.
  function Mark(words: seq<Word>, i: nat): (r: seq<Word>)
    requires |words| == 2 && i < MAX_REQUIRED_FIELDS
    ensures |r| == 2
  {
    words[i / 32 := words[i / 32] + {i % 32}]
  }

  ghost predicate Marked(words: seq<Word>, i: nat) {
    i / 32 < |words| && i % 32 in words[i / 32]
  }

  ghost predicate WordsOk(words: seq<Word>, count: nat) {
    |words| == 2 && forall w, b | 0 <= w < 2 && b in words[w] :: b < 32 && 32 * w + b < count
  }

  // The check after decoding.  None: it would read past the two words, or shift a word by
  // its whole width, which C leaves undefined.
  function AllSeen(words: seq<Word>, count: nat): (r: Option<bool>)
    requires |words| == 2
  {
    if count == 0 then Some(true)
    else if WholeWords(words, count / 32) == Some(false) then Some(false)
    else if count / 32 >= 2 || count % 32 == 0 then None
    else Some(words[count / 32] == Ones(count % 32))
  }

  // The loop over the whole words; None when it reads past them.
  function WholeWords(words: seq<Word>, n: nat): Option<bool>
    requires |words| == 2
  {
    if n == 0 then Some(true)
    else
      match WholeWords(words, n - 1)
      case None => None
      case Some(false) => Some(false)
      case Some(true) => if n - 1 >= 2 then None else Some(words[n - 1] == Ones(32))
  }

  // The precondition under which the check means what it says: no required fields, or fewer
  // than 64 and not a multiple of 32.
  predicate CountSupported(count: nat) {
    count == 0 || (count < MAX_REQUIRED_FIELDS && count % 32 != 0)
  }

  lemma MarkMarks(words: seq<Word>, i: nat, count: nat)
    requires WordsOk(words, count) && i < count && i < MAX_REQUIRED_FIELDS
    ensures WordsOk(Mark(words, i), count)
    ensures forall j: nat :: Marked(Mark(words, i), j) <==> j == i || Marked(words, j)
  {
    forall j: nat ensures Marked(Mark(words, i), j) <==> j == i || Marked(words, j) {
      if j / 32 == i / 32 && j % 32 == i % 32 {
        assert j == i;
      }
    }
  }

  // When every required field was seen, the check says yes for the counts it supports, and for
  // every other one it is undefined.
  lemma AllSeenIff(words: seq<Word>, count: nat)
    requires WordsOk(words, count)
    requires forall i | 0 <= i < count && i < MAX_REQUIRED_FIELDS :: Marked(words, i)
    ensures AllSeen(words, count) == if CountSupported(count) then Some(true) else None
  {
    forall w | 0 <= w < 2 && 32 * w + 32 <= count ensures words[w] == Ones(32) {
      forall b | 0 <= b < 32 ensures b in words[w] {
        assert Marked(words, 32 * w + b);
      }
    }
    if CountSupported(count) && count > 0 {
      var w := count / 32;
      forall b | 0 <= b < count % 32 ensures b in words[w] {
        assert Marked(words, 32 * w + b);
      }
      assert words[w] == Ones(count % 32);
    }
    WholeWordsPass(words, count / 32);
  }

  lemma {:induction false} WholeWordsPass(words: seq<Word>, n: nat)
    requires |words| == 2 && forall w | 0 <= w < n && w < 2 :: words[w] == Ones(32)
    ensures WholeWords(words, n) == if n <= 2 then Some(true) else None
  {
    if n > 0 {
      WholeWordsPass(words, n - 1);
    }
  }

  // For a supported count, the check says whether every required field was seen.
  lemma AllSeenIsExact(words: seq<Word>, count: nat)
    requires WordsOk(words, count) && CountSupported(count)
    ensures AllSeen(words, count) == Some(forall i | 0 <= i < count :: Marked(words, i))
  {
    if forall i | 0 <= i < count :: Marked(words, i) {
      AllSeenIff(words, count);
    } else {
      var i :| 0 <= i < count && !Marked(words, i);
      assert i % 32 in Ones(if i / 32 == count / 32 then count % 32 else 32);
      assert WholeWords(words, 1) == Some(words[0] == Ones(32));
    }
  }
}
