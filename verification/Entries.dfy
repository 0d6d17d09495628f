/**
 Internal keys and entries (db/dbformat).

 A user key is represented by its rank: byte strings are countable, so the total order of
 any comparator embeds in the order of the reals.  An internal key orders by increasing
 user key, then by decreasing packed (sequence number, type).
 */
module Entries {
  import opened Coding

  type UserKey = real

  // A comparator on byte strings, as the rank of each.
  type Rank = Bytes -> real

  datatype Op = Put(value: Bytes) | Delete
  datatype Write = Write(key: UserKey, op: Op)
  datatype Entry = Entry(key: UserKey, seqno: nat, op: Op)
  datatype IKey = IKey(user: UserKey, tag: nat)

  const TYPE_DELETION := 0
  const TYPE_VALUE := 1
  const TYPE_FOR_SEEK := TYPE_VALUE

  // config::kNumLevels and kMaxSequenceNumber
  const NUM_LEVELS: nat := 7
  const MAX_SEQUENCE: nat := 0xFF_FFFF_FFFF_FFFF

  function TypeOf(op: Op): nat {
    if op.Put? then TYPE_VALUE else TYPE_DELETION
  }

  // (seq << 8) | type
  function PackSequenceAndType(s: nat, t: nat): nat {
    256 * s + t
  }

  function InternalKey(e: Entry): IKey {
    IKey(e.key, PackSequenceAndType(e.seqno, TypeOf(e.op)))
  }

  function LookupKey(u: UserKey, s: nat): IKey {
    IKey(u, PackSequenceAndType(s, TYPE_FOR_SEEK))
  }

  // InternalKeyComparator::Compare(a, b) < 0
  predicate Less(a: IKey, b: IKey) {
    a.user < b.user || (a.user == b.user && a.tag > b.tag)
  }

  predicate Before(a: Entry, b: Entry) {
    Less(InternalKey(a), InternalKey(b))
  }

  ghost predicate Sorted(es: seq<Entry>) {
    forall i, j | 0 <= i < j < |es| :: Before(es[i], es[j])
  }

  ghost function Content(es: seq<Entry>): set<Entry> {
    set e | e in es
  }

  // Iterator::Seek over a sorted run: the first index whose entry is not before k.
  function SeekIndex(es: seq<Entry>, k: IKey): (i: nat)
    ensures i <= |es|
    ensures forall j | 0 <= j < i :: Less(InternalKey(es[j]), k)
    ensures i < |es| ==> !Less(InternalKey(es[i]), k)
  {
    if es == [] || !Less(InternalKey(es[0]), k) then 0
    else 1 + SeekIndex(es[1..], k)
  }

  // MemTable::Add
  function InsertEntry(es: seq<Entry>, e: Entry): (r: seq<Entry>) {
    if es == [] || Before(e, es[0]) then [e] + es else [es[0]] + InsertEntry(es[1..], e)
  }

  lemma {:induction false} InsertEntrySorts(es: seq<Entry>, e: Entry)
    requires Sorted(es) && forall d | d in es :: InternalKey(d) != InternalKey(e)
    ensures Sorted(InsertEntry(es, e))
    ensures Content(InsertEntry(es, e)) == Content(es) + {e}
  {
    if es != [] && !Before(e, es[0]) {
      InsertEntrySorts(es[1..], e);
      var rest := InsertEntry(es[1..], e);
      assert Content(es) == {es[0]} + Content(es[1..]);
      assert es[0] in es;
      forall j | 0 <= j < |rest| ensures Before(es[0], rest[j]) {
        assert rest[j] in Content(rest);
      }
      assert Content([es[0]] + rest) == {es[0]} + Content(rest);
    } else {
      assert Content([e] + es) == {e} + Content(es);
    }
  }

  // Table::InternalGet and MemTable::Get: seek, then compare the user key.
  function RunGet(es: seq<Entry>, u: UserKey, s: nat): Option<Entry> {
    var i := SeekIndex(es, LookupKey(u, s));
    if i < |es| && es[i].key == u then Some(es[i]) else None
  }

  // r is the newest entry for u that a reader at sequence s may see in E.
  ghost predicate IsNewest(E: set<Entry>, u: UserKey, s: nat, r: Option<Entry>) {
    match r
    case None => forall e | e in E :: !(e.key == u && e.seqno <= s)
    case Some(x) =>
      && x in E && x.key == u && x.seqno <= s
      && forall e | e in E && e.key == u && e.seqno <= s :: e.seqno <= x.seqno
  }

  // A lookup with the packed seek key finds the newest entry at or below the snapshot.
  lemma RunGetIsNewest(es: seq<Entry>, u: UserKey, s: nat)
    requires Sorted(es)
    ensures IsNewest(Content(es), u, s, RunGet(es, u, s))
  {
    var k := LookupKey(u, s);
    var i := SeekIndex(es, k);
    forall e | e in Content(es) && e.key == u && e.seqno <= s
      ensures i < |es| && es[i].key == u && es[i].seqno <= s && e.seqno <= es[i].seqno
    {
      var j :| 0 <= j < |es| && es[j] == e;
      assert i <= j;
      assert i < j ==> Before(es[i], es[j]);
    }
  }

  // The value a reader receives: deletion markers and missing keys look the same.
  function Visible(r: Option<Entry>): Option<Bytes> {
    if r.Some? && r.value.op.Put? then Some(r.value.op.value) else None
  }

  // ---------- the reference history: operation i carries sequence number i + 1

  function EntryAt(hist: seq<Write>, n: nat): Entry
    requires 1 <= n <= |hist|
  {
    Entry(hist[n - 1].key, n, hist[n - 1].op)
  }

  // What a map that simply replays the first s writes answers for u.
  function RefGet(hist: seq<Write>, u: UserKey, s: nat): Option<Bytes>
    requires s <= |hist|
  {
    if s == 0 then None
    else if hist[s - 1].key == u then
      (match hist[s - 1].op case Put(v) => Some(v) case Delete => None)
    else RefGet(hist, u, s - 1)
  }

  lemma {:induction false} RefGetFinds(hist: seq<Write>, u: UserKey, s: nat) returns (n: nat)
    requires s <= |hist|
    ensures n <= s
    ensures forall m | n < m <= s :: EntryAt(hist, m).key != u
    ensures n > 0 ==> hist[n - 1].key == u && RefGet(hist, u, s) == Visible(Some(EntryAt(hist, n)))
    ensures n == 0 ==> RefGet(hist, u, s) == None
  {
    if s == 0 {
      n := 0;
    } else if hist[s - 1].key == u {
      n := s;
    } else {
      n := RefGetFinds(hist, u, s - 1);
    }
  }
}
