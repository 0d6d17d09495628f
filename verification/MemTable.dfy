/**
 MemTable on the bytes of its entries, and the internal key format (db/memtable, db/dbformat).
 What it adds and finds is what InsertEntry and RunGet say about the entries.
 */
module MemTables {
  import opened Coding
  import opened Entries

  // ---------- internal keys

  datatype ParsedKey = ParsedKey(user: Bytes, sequence: nat, t: nat)

  predicate Packable(k: ParsedKey) {
    k.sequence <= MAX_SEQUENCE && k.t <= TYPE_VALUE
  }

  // AppendInternalKey
  function KeyBytes(k: ParsedKey): (b: Bytes)
    requires Packable(k)
    ensures |b| == |k.user| + 8
  {
    k.user + Fixed64(PackSequenceAndType(k.sequence, k.t))
  }

  function ExtractUserKey(b: Bytes): Bytes
    requires |b| >= 8
  {
    b[..|b| - 8]
  }

  function TagOf(b: Bytes): U64
    requires |b| >= 8
  {
    DecodeFixed64(b[|b| - 8..])
  }

  // None for a key that is too short or of an unknown type.
  function ParseInternalKey(b: Bytes): Option<ParsedKey> {
    if |b| < 8 || TagOf(b) % 256 > TYPE_VALUE then None
    else Some(ParsedKey(ExtractUserKey(b), TagOf(b) / 256, TagOf(b) % 256))
  }

  // A key parses to k exactly when it is what appending k writes.
  lemma ParsesIffAppended(b: Bytes, k: ParsedKey)
    requires Packable(k)
    ensures ParseInternalKey(b) == Some(k) <==> b == KeyBytes(k)
  {
    hide KeyBytes;
    AppendedParses(k);
    if ParseInternalKey(b) == Some(k) {
      ParsedIsAppended(b, k);
    }
  }

  lemma AppendedParses(k: ParsedKey)
    requires Packable(k)
    ensures ParseInternalKey(KeyBytes(k)) == Some(k)
  {
    hide Fixed64, DecodeFixed64;
    var tag := PackSequenceAndType(k.sequence, k.t);
    Fixed64RoundTrip(tag, []);
    var c := KeyBytes(k);
    assert c[|c| - 8..] == Fixed64(tag) == Fixed64(tag) + [] && c[..|c| - 8] == k.user;
    assert TagOf(c) == tag && tag / 256 == k.sequence && tag % 256 == k.t;
  }

  lemma ParsedIsAppended(b: Bytes, k: ParsedKey)
    requires Packable(k) && ParseInternalKey(b) == Some(k)
    ensures b == KeyBytes(k)
  {
    hide Fixed64, DecodeFixed64;
    Fixed64Restores(b[|b| - 8..]);
    assert TagOf(b) == 256 * (TagOf(b) / 256) + TagOf(b) % 256;
    assert b == b[..|b| - 8] + b[|b| - 8..];
  }

  // InternalKeyComparator::Compare(a, b) < 0
  predicate KeyLess(rank: Rank, a: Bytes, b: Bytes)
    requires |a| >= 8 && |b| >= 8
  {
    || rank(ExtractUserKey(a)) < rank(ExtractUserKey(b))
    || (rank(ExtractUserKey(a)) == rank(ExtractUserKey(b)) && TagOf(a) > TagOf(b))
  }

  // ---------- entries

  // What one Add adds.
  datatype Addition = Addition(sequence: nat, user: Bytes, op: Op)

  predicate Storable(a: Addition) {
    && a.sequence <= MAX_SEQUENCE && |a.user| + 8 < TWO32
    && (a.op.Put? ==> |a.op.value| < TWO32)
  }

  function KeyOf(a: Addition): (b: Bytes)
    requires Storable(a)
    ensures |b| == |a.user| + 8
  {
    KeyBytes(ParsedKey(a.user, a.sequence, TypeOf(a.op)))
  }

  function ValueOf(op: Op): Bytes {
    if op.Put? then op.value else []
  }

  function EntryBytes(a: Addition): Bytes
    requires Storable(a)
  {
    LengthPrefixed(KeyOf(a)) + LengthPrefixed(ValueOf(a.op))
  }

  function EntryFor(rank: Rank, a: Addition): Entry {
    Entry(rank(a.user), a.sequence, a.op)
  }

  function EntriesFor(rank: Rank, added: seq<Addition>): (es: seq<Entry>)
    ensures |es| == |added|
  {
    seq(|added|, i requires 0 <= i < |added| => EntryFor(rank, added[i]))
  }

  function IKeyFor(rank: Rank, k: ParsedKey): IKey {
    IKey(rank(k.user), PackSequenceAndType(k.sequence, k.t))
  }

  // The memtable key of a lookup.
  function LookupBytes(user: Bytes, s: nat): Bytes
    requires s <= MAX_SEQUENCE
  {
    LengthPrefixed(KeyBytes(ParsedKey(user, s, TYPE_FOR_SEEK)))
  }

  // GetLengthPrefixedSlice, on a slice that is not corrupted.
  function Prefixed(b: Bytes): Bytes {
    match GetLengthPrefixed(b) case Failed => [] case Parsed(slice, _) => slice
  }

  function AfterPrefixed(b: Bytes): Bytes {
    match GetLengthPrefixed(b) case Failed => [] case Parsed(_, rest) => rest
  }

  lemma KeyParts(k: ParsedKey)
    requires Packable(k)
    ensures ExtractUserKey(KeyBytes(k)) == k.user
    ensures TagOf(KeyBytes(k)) == PackSequenceAndType(k.sequence, k.t)
  {
    var tag := PackSequenceAndType(k.sequence, k.t);
    Fixed64RoundTrip(tag, []);
    assert KeyBytes(k)[|k.user|..] == Fixed64(tag) + [];
  }

  // The bytes of an entry hold its key, its type and its value.
  lemma EntryParts(a: Addition)
    requires Storable(a)
    ensures var b := EntryBytes(a);
            && Prefixed(b) == KeyOf(a) && Prefixed(AfterPrefixed(b)) == ValueOf(a.op)
            && ExtractUserKey(KeyOf(a)) == a.user && TagOf(KeyOf(a)) % 256 == TypeOf(a.op)
  {
    hide LengthPrefixed, GetLengthPrefixed, ExtractUserKey, DecodeFixed64, KeyBytes;
    LengthPrefixedRoundTrip(KeyOf(a), LengthPrefixed(ValueOf(a.op)));
    LengthPrefixedRoundTrip(ValueOf(a.op), []);
    assert LengthPrefixed(ValueOf(a.op)) + [] == LengthPrefixed(ValueOf(a.op));
    KeyParts(ParsedKey(a.user, a.sequence, TypeOf(a.op)));
    TypeIsLowByte(a.sequence, TypeOf(a.op));
  }

  lemma ComparesAsEntry(rank: Rank, a: Addition, k: ParsedKey)
    requires Storable(a) && Packable(k)
    ensures KeyLess(rank, KeyOf(a), KeyBytes(k)) <==> Less(InternalKey(EntryFor(rank, a)), IKeyFor(rank, k))
  {
    hide DecodeFixed64, KeyBytes;
    KeyParts(k);
    KeyParts(ParsedKey(a.user, a.sequence, TypeOf(a.op)));
  }

  // ---------- the table

  ghost predicate Encodes(table: seq<Bytes>, added: seq<Addition>) {
    && |added| == |table|
    && forall i | 0 <= i < |added| :: Storable(added[i]) && table[i] == EntryBytes(added[i])
  }

  // An entry put in at place i.
  lemma PutIn(rank: Rank, table: seq<Bytes>, added: seq<Addition>, a: Addition, i: nat)
    requires Encodes(table, added) && Storable(a) && i <= |table|
    ensures Encodes(table[..i] + [EntryBytes(a)] + table[i..], added[..i] + [a] + added[i..])
    ensures var es := EntriesFor(rank, added);
            EntriesFor(rank, added[..i] + [a] + added[i..]) == es[..i] + [EntryFor(rank, a)] + es[i..]
  {
    hide EntryBytes, Storable;
  }

  // Comparing the bytes at a place compares its entry.
  lemma ComparesAt(rank: Rank, table: seq<Bytes>, added: seq<Addition>, i: nat, k: ParsedKey)
    requires Encodes(table, added) && i < |table| && Packable(k)
    ensures |added| == |table| && |Prefixed(table[i])| >= 8
    ensures KeyLess(rank, Prefixed(table[i]), KeyBytes(k))
       <==> Less(InternalKey(EntriesFor(rank, added)[i]), IKeyFor(rank, k))
  {
    hide EntryBytes, KeyBytes, KeyLess, Less, IKeyFor, InternalKey;
    EntryParts(added[i]);
    ComparesAsEntry(rank, added[i], k);
  }

  datatype Found = Missing | Deleted | Value(value: Bytes)

  class MemTable {
    const rank: Rank
    // The entries of the skip list, in the order of their keys.
    var table: seq<Bytes>
    ghost var added: seq<Addition>

    ghost predicate Ok()
      reads this
    {
      Encodes(table, added) && Sorted(Entries())
    }

    ghost function Entries(): (es: seq<Entry>)
      reads this
      ensures |es| == |added|
    {
      EntriesFor(rank, added)
    }

    constructor (rank: Rank)
      ensures Ok() && added == [] && this.rank == rank
    {
      this.rank := rank;
      table, added := [], [];
    }

    // The first entry whose key is not before the key.
    method Seek(memkey: Bytes, ghost k: ParsedKey) returns (i: nat)
      requires Ok() && Packable(k) && Prefixed(memkey) == KeyBytes(k)
      ensures i == SeekIndex(Entries(), IKeyFor(rank, k))
    {
      hide Prefixed, KeyBytes, KeyLess, Sorted, Less, IKeyFor, InternalKey, Encodes, EntriesFor;
      SameLength(table, added);
      i := 0;
      while i < |table|
        invariant i <= |table|
        invariant forall j | 0 <= j < i :: Less(InternalKey(Entries()[j]), IKeyFor(rank, k))
      {
        ComparesAt(rank, table, added, i, k);
        if !KeyLess(rank, Prefixed(table[i]), Prefixed(memkey)) {
          break;
        }
        i := i + 1;
      }
      SeekIsFirst(Entries(), IKeyFor(rank, k), i);
    }

    // Encodes the entry and links it in at its place.  No entry of its key is there yet.
    method Add(a: Addition)
      requires Ok() && Storable(a)
      requires forall e | e in Entries() :: InternalKey(e) != InternalKey(EntryFor(rank, a))
      modifies this
      ensures Ok() && Entries() == InsertEntry(old(Entries()), EntryFor(rank, a))
    {
      hide Prefixed, EntryBytes, Storable, EntryFor, Sorted, InsertEntry, Encodes, EntriesFor, KeyOf, SeekIndex, InternalKey;
      ghost var es, e := Entries(), EntryFor(rank, a);
      var buf := Encode(a);
      EntryParts(a);
      ghost var k := ParsedKey(a.user, a.sequence, TypeOf(a.op));
      KeyIs(rank, a, k);
      var i := Seek(buf, k);
      InsertsAtSeek(es, e);
      InsertEntrySorts(es, e);
      SameLength(table, added);
      PutIn(rank, table, added, a, i);
      table := table[..i] + [buf] + table[i..];
      added := added[..i] + [a] + added[i..];
    }

    // The newest entry for the user key at or below the sequence number.
    method Get(user: Bytes, s: nat) returns (r: Found)
      requires Ok() && s <= MAX_SEQUENCE && |user| + 8 < TWO32
      ensures match RunGet(Entries(), rank(user), s)
              case None => r == Missing
              case Some(e) => r == if e.op.Put? then Value(e.op.value) else Deleted
    {
      hide Prefixed, AfterPrefixed, EntryBytes, KeyOf, LookupBytes, KeyBytes, ExtractUserKey, DecodeFixed64, Sorted, SeekIndex;
      ghost var k := ParsedKey(user, s, TYPE_FOR_SEEK);
      LookupParts(user, s);
      var i := Seek(LookupBytes(user, s), k);
      if i == |table| {
        return Missing;
      }
      EntryParts(added[i]);
      var key := Prefixed(table[i]);
      if rank(ExtractUserKey(key)) != rank(user) {
        return Missing;
      }
      if TagOf(key) % 256 == TYPE_VALUE {
        r := Value(Prefixed(AfterPrefixed(table[i])));
      } else {
        r := Deleted;
      }
    }
  }

  lemma SameLength(table: seq<Bytes>, added: seq<Addition>)
    requires Encodes(table, added)
    ensures |table| == |added|
  {
  }

  method Encode(a: Addition) returns (buf: Bytes)
    requires Storable(a)
    ensures buf == EntryBytes(a)
  {
    var value := if a.op.Put? then a.op.value else [];
    buf := Varint(|a.user| + 8) + a.user + Fixed64(PackSequenceAndType(a.sequence, TypeOf(a.op)))
           + Varint(|value|) + value;
    KeyParts(ParsedKey(a.user, a.sequence, TypeOf(a.op)));
  }

  lemma KeyIs(rank: Rank, a: Addition, k: ParsedKey)
    requires Storable(a) && k == ParsedKey(a.user, a.sequence, TypeOf(a.op))
    ensures Packable(k) && KeyOf(a) == KeyBytes(k) && IKeyFor(rank, k) == InternalKey(EntryFor(rank, a))
  {
  }

  lemma LookupParts(user: Bytes, s: nat)
    requires s <= MAX_SEQUENCE && |user| + 8 < TWO32
    ensures Prefixed(LookupBytes(user, s)) == KeyBytes(ParsedKey(user, s, TYPE_FOR_SEEK))
  {
    hide LengthPrefixed, GetLengthPrefixed;
    var b := KeyBytes(ParsedKey(user, s, TYPE_FOR_SEEK));
    LengthPrefixedRoundTrip(b, []);
    assert LengthPrefixed(b) + [] == LengthPrefixed(b);
  }

  lemma TypeIsLowByte(s: nat, t: nat)
    requires t <= TYPE_VALUE
    ensures PackSequenceAndType(s, t) % 256 == t
  {
  }

  lemma SeekIsFirst(es: seq<Entry>, k: IKey, i: nat)
    requires i <= |es| && forall j | 0 <= j < i :: Less(InternalKey(es[j]), k)
    requires i < |es| ==> !Less(InternalKey(es[i]), k)
    ensures SeekIndex(es, k) == i
  {
  }

  // Inserting an entry puts it where a seek for its key leads.
  lemma {:induction false} InsertsAtSeek(es: seq<Entry>, e: Entry)
    requires Sorted(es) && forall d | d in es :: InternalKey(d) != InternalKey(e)
    ensures var i := SeekIndex(es, InternalKey(e));
            InsertEntry(es, e) == es[..i] + [e] + es[i..]
  {
    var i := SeekIndex(es, InternalKey(e));
    if es != [] {
      assert es[0] in es;
      if !Before(e, es[0]) {
        InsertsAtSeek(es[1..], e);
        assert es[..i] == [es[0]] + es[1..][..i - 1];
        assert es[i..] == es[1..][i - 1..];
      }
    }
  }
}
