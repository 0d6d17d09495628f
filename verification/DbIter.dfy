/**
 The user-facing iterator (db/db_iter): over an internal iterator that yields every version
 of every key, it shows each user key whose newest version at or below its sequence number
 is a put, forwards and backwards, across changes of direction.
 */
module DbIters {
  import opened Coding
  import opened Entries
  import opened Mergers
  import Cursors

  // ---------- what is shown

  predicate Readable(e: Entry, s: nat) {
    e.seqno <= s
  }

  // Entry i is the newest readable version of its key, and a put.
  ghost predicate Shown(es: seq<Entry>, s: nat, i: nat)
    requires i < |es|
  {
    && Readable(es[i], s) && es[i].op.Put?
    && forall j | 0 <= j < i && es[j].key == es[i].key :: !Readable(es[j], s)
  }

  // The first shown entry at or after i; |es| when there is none.
  ghost function NextShown(es: seq<Entry>, s: nat, i: nat): (r: nat)
    ensures r <= |es|
    decreases |es| - i
  {
    if i >= |es| then |es| else if Shown(es, s, i) then i else NextShown(es, s, i + 1)
  }

  // The last shown entry before i; |es| when there is none.
  ghost function PrevShown(es: seq<Entry>, s: nat, i: nat): (r: nat)
    requires i <= |es|
    ensures r <= |es|
  {
    if i == 0 then |es| else if Shown(es, s, i - 1) then i - 1 else PrevShown(es, s, i - 1)
  }

  // The shown entries below n, in order.
  ghost function ShownBelow(es: seq<Entry>, s: nat, n: nat): (r: seq<nat>)
    requires n <= |es|
    ensures forall k | 0 <= k < |r| :: r[k] < n && Shown(es, s, r[k])
  {
    if n == 0 then []
    else if Shown(es, s, n - 1) then ShownBelow(es, s, n - 1) + [n - 1]
    else ShownBelow(es, s, n - 1)
  }

  lemma {:induction false} NextShownIs(es: seq<Entry>, s: nat, i: nat, j: nat)
    requires i <= j <= |es|
    requires forall k | i <= k < j :: !Shown(es, s, k)
    requires j < |es| ==> Shown(es, s, j)
    ensures NextShown(es, s, i) == j
    decreases j - i
  {
    if i < j {
      NextShownIs(es, s, i + 1, j);
    }
  }

  lemma {:induction false} PrevShownIs(es: seq<Entry>, s: nat, i: nat, j: nat)
    requires i <= |es| && (j < i || j == |es|)
    requires forall k | (if j < |es| then j + 1 else 0) <= k < i :: !Shown(es, s, k)
    requires j < |es| ==> Shown(es, s, j)
    ensures PrevShown(es, s, i) == j
  {
    if i > 0 && i - 1 != j {
      PrevShownIs(es, s, i - 1, j);
    }
  }

  // Shown entries are sorted by user key, one for each key.
  lemma ShownKeysIncrease(es: seq<Entry>, s: nat, i: nat, j: nat)
    requires Sorted(es) && i < j < |es| && Shown(es, s, i) && Shown(es, s, j)
    ensures es[i].key < es[j].key
  {
    assert Before(es[i], es[j]);
  }

  // A user key is shown exactly when a read at the iterator's sequence number finds a value,
  // and with that value.
  lemma ShownIsReadable(es: seq<Entry>, s: nat, u: UserKey, v: Bytes)
    requires Sorted(es)
    ensures Visible(RunGet(es, u, s)) == Some(v)
       <==> exists i | 0 <= i < |es| :: Shown(es, s, i) && es[i].key == u && es[i].op == Put(v)
  {
    var k := SeekIndex(es, LookupKey(u, s));
    forall i | 0 <= i < |es| && es[i].key == u && Readable(es[i], s) ensures k <= i {
    }
    if k < |es| && es[k].key == u {
      assert forall j | 0 <= j < k && es[j].key == u :: !Readable(es[j], s);
    }
    forall i | 0 <= i < |es| && Shown(es, s, i) && es[i].key == u ensures i == k {
      assert k < i ==> Before(es[k], es[i]);
    }
  }

  // Moving to the next or previous shown entry moves by one in the list of shown entries.
  lemma {:induction false} ShownListSteps(es: seq<Entry>, s: nat, i: nat, n: nat)
    requires i < |es| && Shown(es, s, i) && i < n <= |es|
    ensures var before, upto := ShownBelow(es, s, i), ShownBelow(es, s, n);
            && |upto| > |before| && upto[..|before|] == before && upto[|before|] == i
            && PrevShown(es, s, i) == (if before == [] then |es| else before[|before| - 1])
            && (if NextShown(es, s, i + 1) < n then
                  |upto| > |before| + 1 && upto[|before| + 1] == NextShown(es, s, i + 1)
                else |upto| == |before| + 1)
  {
    PrevIsLast(es, s, i);
    if n == i + 1 {
      NextIsLater(es, s, n);
    } else {
      ShownListSteps(es, s, i, n - 1);
      NextIsLater(es, s, i + 1);
      if Shown(es, s, n - 1) && NextShown(es, s, i + 1) >= n - 1 {
        NextShownIs(es, s, i + 1, n - 1);
      }
    }
  }

  lemma {:induction false} PrevIsLast(es: seq<Entry>, s: nat, i: nat)
    requires i <= |es|
    ensures var before := ShownBelow(es, s, i);
            PrevShown(es, s, i) == if before == [] then |es| else before[|before| - 1]
  {
    if i > 0 {
      PrevIsLast(es, s, i - 1);
    }
  }

  lemma {:induction false} NextIsLater(es: seq<Entry>, s: nat, i: nat)
    requires i <= |es|
    ensures i <= NextShown(es, s, i) <= |es|
    ensures NextShown(es, s, i) < |es| ==> Shown(es, s, NextShown(es, s, i))
    ensures forall k | i <= k < NextShown(es, s, i) :: !Shown(es, s, k)
    decreases |es| - i
  {
    if i < |es| && !Shown(es, s, i) {
      NextIsLater(es, s, i + 1);
    }
  }

  // ---------- the internal iterator: every entry of the store

  // The items stand for the entries, and sought keys compare with them as internal keys do.
  ghost predicate Represents(entryOf: Cursors.Item -> Entry, rankOf: IKey -> real, all: seq<Cursors.Item>, es: seq<Entry>) {
    && Sorted(es) && |es| == |all|
    && (forall i | 0 <= i < |all| :: entryOf(all[i]) == es[i])
    && forall i, k | 0 <= i < |all| :: all[i].key < rankOf(k) <==> Less(InternalKey(es[i]), k)
  }

  lemma SeekIsLower(entryOf: Cursors.Item -> Entry, rankOf: IKey -> real, all: seq<Cursors.Item>, es: seq<Entry>, k: IKey)
    requires Represents(entryOf, rankOf, all, es)
    ensures Cursors.LowerIndex(all, rankOf(k)) == SeekIndex(es, k)
  {
    var n := SeekIndex(es, k);
    forall j | 0 <= j < |all| ensures j < n ==> all[j].key < rankOf(k) {
    }
    assert n < |all| ==> !(all[n].key < rankOf(k));
    LowerIs(all, rankOf(k), n);
  }

  lemma {:induction false} LowerIs(all: seq<Cursors.Item>, target: real, n: nat)
    requires n <= |all| && (forall j | 0 <= j < n :: all[j].key < target) && (n < |all| ==> all[n].key >= target)
    ensures Cursors.LowerIndex(all, target) == n
  {
    if n > 0 {
      LowerIs(all[1..], target, n - 1);
    }
  }

  // A merging iterator, whose items are parsed as entries.
  class InternalIterator {
    const merging: MergingIterator
    const entryOf: Cursors.Item -> Entry
    const rankOf: IKey -> real
    ghost const es: seq<Entry>

    ghost function Pos(): nat
      reads merging
    {
      merging.at
    }

    ghost predicate Ok()
      reads merging
    {
      merging.Ok() && Represents(entryOf, rankOf, merging.all, es)
    }

    lemma InRange()
      requires Ok()
      ensures Pos() <= |es| && Sorted(es)
    {
    }

    predicate Valid(): (v: bool)
      requires Ok()
      reads merging
      ensures v <==> Pos() < |es|
    {
      merging.Valid()
    }

    function Current(): (e: Entry)
      requires Ok() && Valid()
      reads merging
      ensures e == es[Pos()]
    {
      entryOf(Cursors.Item(merging.Key(), merging.Value()))
    }

    constructor (merging: MergingIterator, entryOf: Cursors.Item -> Entry, rankOf: IKey -> real, ghost es: seq<Entry>)
      requires merging.Ok() && Represents(entryOf, rankOf, merging.all, es)
      ensures Ok() && Pos() == merging.at && this.es == es && this.merging == merging
    {
      this.merging, this.entryOf, this.rankOf, this.es := merging, entryOf, rankOf, es;
    }

    method SeekToFirst()
      requires Ok()
      modifies merging
      ensures Ok() && Pos() == 0
    {
      merging.SeekToFirst();
    }

    method SeekToLast()
      requires Ok()
      modifies merging
      ensures Ok() && Pos() == if |es| == 0 then 0 else |es| - 1
    {
      merging.SeekToLast();
    }

    method Seek(k: IKey)
      requires Ok()
      modifies merging
      ensures Ok() && Pos() == SeekIndex(es, k)
    {
      SeekIsLower(entryOf, rankOf, merging.all, es, k);
      merging.Seek(rankOf(k));
    }

    method Next()
      requires Ok() && Valid()
      modifies merging
      ensures Ok() && Pos() == old(Pos()) + 1
    {
      merging.Next();
    }

    method Prev()
      requires Ok() && Valid()
      modifies merging
      ensures Ok() && Pos() == if old(Pos()) == 0 then |es| else old(Pos()) - 1
    {
      merging.Prev();
    }
  }

  // ---------- DBIter

  datatype Direction = Forward | Reverse

  class DBIter {
    const iter: InternalIterator
    const sequence: nat
    var savedKey: UserKey
    var savedValue: Bytes
    var direction: Direction
    var valid: bool
    // The entry the iterator stands on; |es| when it is not valid.
    ghost var cur: nat

    ghost predicate Ok()
      reads this, iter.merging
    {
      && iter.Ok()
      && cur <= |iter.es|
      && (valid <==> cur < |iter.es|)
      && (valid ==> Shown(iter.es, sequence, cur))
      && (valid && direction == Forward ==> iter.Pos() == cur)
      && (valid && direction == Reverse ==>
            && savedKey == iter.es[cur].key && iter.es[cur].op == Put(savedValue)
            && JustBefore(iter.es, sequence, iter.Pos(), cur))
    }

    constructor (iter: InternalIterator, sequence: nat)
      requires iter.Ok()
      ensures Ok() && !valid && this.iter == iter && this.sequence == sequence
    {
      this.iter := iter;
      this.sequence := sequence;
      savedKey, savedValue, direction, valid := 0.0, [], Forward, false;
      cur := |iter.es|;
    }

    function Key(): (k: UserKey)
      requires Ok() && valid
      reads this, iter.merging
      ensures k == iter.es[cur].key
    {
      if direction == Forward then iter.Current().key else savedKey
    }

    function Value(): (v: Bytes)
      requires Ok() && valid
      reads this, iter.merging
      ensures iter.es[cur].op == Put(v)
    {
      if direction == Forward then iter.Current().op.value else savedValue
    }

    // Scans forwards to the first shown entry at or after goal.  Every entry before the scan
    // position that hides a later one has been turned into the key to skip.
    method FindNextUserEntry(skipping: bool, skip: UserKey, ghost goal: nat)
      requires iter.Ok() && iter.Valid() && direction == Forward
      requires goal <= |iter.es|
      requires Scanning(iter.es, sequence, iter.Pos(), skipping, skip, goal)
      modifies this, iter.merging
      ensures Ok() && direction == Forward
      ensures cur == NextShown(iter.es, sequence, goal)
    {
      hide InternalIterator.Ok, Scanning, Shown, NextShown, Sorted;
      iter.InRange();
      var skipping', skip' := skipping, skip;
      while iter.Valid()
        invariant iter.Ok() && iter.Pos() <= |iter.es| && direction == Forward
        invariant Scanning(iter.es, sequence, iter.Pos(), skipping', skip', goal)
        decreases |iter.es| - iter.Pos()
      {
        var e := iter.Current();
        ScanStep(iter.es, sequence, iter.Pos(), skipping', skip', goal);
        if e.seqno <= sequence {
          match e.op
          case Delete =>
            skip', skipping' := e.key, true;
          case Put(_) =>
            if skipping' && e.key <= skip' {
              // hidden
            } else {
              valid := true;
              cur := iter.Pos();
              ScanFound(iter.es, sequence, cur, skipping', skip', goal);
              return;
            }
        }
        iter.Next();
        iter.InRange();
      }
      valid := false;
      cur := |iter.es|;
      ScanFound(iter.es, sequence, cur, skipping', skip', goal);
    }

    method Next()
      requires Ok() && valid
      modifies this, iter.merging
      ensures Ok() && direction == Forward
      ensures cur == NextShown(iter.es, sequence, old(cur) + 1)
    {
      hide InternalIterator.Ok, Sorted, NextShown, Scanning, JustBefore, Shown;
      iter.InRange();
      ghost var c := cur;
      if direction == Reverse {
        direction := Forward;
        JustBeforeMeans(iter.es, sequence, iter.Pos(), c);
        if !iter.Valid() {
          iter.SeekToFirst();
        } else {
          iter.Next();
        }
        AfterReverse(iter.es, sequence, iter.Pos(), c);
      } else {
        savedKey := iter.Current().key;
        AtCurrent(iter.es, sequence, c);
      }
      FindNextUserEntry(true, savedKey, c + 1);
    }

    // Scans backwards from the internal iterator to the last shown entry there.
    method FindPrevUserEntry()
      requires iter.Ok() && direction == Reverse
      modifies this, iter.merging
      ensures Ok()
      ensures cur == PrevShown(iter.es, sequence, Upto(iter.es, old(iter.Pos())))
    {
      hide InternalIterator.Ok, ScanningBack, Shown, PrevShown;
      iter.InRange();
      ghost var q := Upto(iter.es, iter.Pos());
      var candidate := false;
      ghost var c: nat := |iter.es|;
      ghost var es, s := iter.es, sequence;
      NothingScanned(es, s, q, c);
      while iter.Valid()
        invariant iter.Ok() && iter.Pos() <= |es| && direction == Reverse
        invariant Upto(es, iter.Pos()) <= q
        invariant ScanningBack(es, s, Upto(es, iter.Pos()), q, candidate, c)
        invariant candidate ==> c < |es| && savedKey == es[c].key && es[c].op == Put(savedValue)
        decreases Upto(es, iter.Pos())
      {
        var e := iter.Current();
        ScanBackStep(es, s, iter.Pos(), q, candidate, c);
        if e.seqno <= sequence {
          if candidate && e.key < savedKey {
            break;
          }
          candidate := e.op.Put?;
          if candidate {
            savedKey, savedValue := e.key, e.op.value;
            c := iter.Pos();
          }
        }
        iter.Prev();
        iter.InRange();
      }
      FoundPrev(es, s, iter.Pos(), q, candidate, c);
      valid := candidate;
      if candidate {
        cur := c;
      } else {
        cur := |es|;
        direction := Forward;
      }
    }

    method Prev()
      requires Ok() && valid
      modifies this, iter.merging
      ensures Ok()
      ensures cur == PrevShown(iter.es, sequence, old(cur))
    {
      hide InternalIterator.Ok;
      iter.InRange();
      ghost var c := cur;
      ghost var es, s := iter.es, sequence;
      if direction == Forward {
        savedKey := iter.Current().key;
        while true
          invariant iter.Ok() && iter.Pos() <= c
          invariant forall j | iter.Pos() <= j <= c :: es[j].key == savedKey
          decreases iter.Pos()
        {
          assert forall j | 0 <= j < c && es[j].key == savedKey :: !Shown(es, s, j);
          iter.Prev();
          if !iter.Valid() {
            valid := false;
            cur := |es|;
            PrevShownIs(es, s, c, |es|);
            return;
          }
          assert Before(es[iter.Pos()], es[c]);
          if iter.Current().key < savedKey {
            break;
          }
        }
        direction := Reverse;
      }
      PrevShownSkips(es, s, Upto(es, iter.Pos()), c);
      FindPrevUserEntry();
    }

    // The first shown entry whose key is not below u.
    method Seek(u: UserKey)
      requires Ok()
      modifies this, iter.merging
      ensures Ok()
      ensures cur < |iter.es| ==> iter.es[cur].key >= u
      ensures forall k | 0 <= k < |iter.es| && Shown(iter.es, sequence, k) && iter.es[k].key >= u :: cur <= k
    {
      direction := Forward;
      iter.Seek(LookupKey(u, sequence));
      ghost var p := iter.Pos();
      StartAtKey(iter.es, sequence, u, p);
      if iter.Valid() {
        FindNextUserEntry(false, u, p);
        NextIsLater(iter.es, sequence, p);
        KeysFrom(iter.es, p, cur, u);
      } else {
        valid := false;
        cur := |iter.es|;
      }
    }

    method SeekToFirst()
      requires Ok()
      modifies this, iter.merging
      ensures Ok() && cur == NextShown(iter.es, sequence, 0)
    {
      direction := Forward;
      iter.SeekToFirst();
      if iter.Valid() {
        FindNextUserEntry(false, savedKey, 0);
      } else {
        valid := false;
        cur := |iter.es|;
      }
    }

    method SeekToLast()
      requires Ok()
      modifies this, iter.merging
      ensures Ok() && cur == PrevShown(iter.es, sequence, |iter.es|)
    {
      direction := Reverse;
      iter.SeekToLast();
      FindPrevUserEntry();
    }
  }

  // The number of entries up to and including the one the internal iterator stands on.
  function Upto(es: seq<Entry>, pos: nat): (n: nat)
    ensures n <= |es|
  {
    if pos < |es| then pos + 1 else 0
  }

  // Everything in [p, q) was passed going backwards; c is the candidate to show.
  ghost predicate ScanningBack(es: seq<Entry>, s: nat, p: nat, q: nat, candidate: bool, c: nat)
    requires p <= q <= |es|
  {
    if candidate then
      && p <= c < q && Readable(es[c], s)
      && (forall j | p <= j < c :: !Readable(es[j], s))
      && (forall j | c < j < q :: !Shown(es, s, j))
    else
      forall j | p <= j < q :: !Shown(es, s, j)
  }

  lemma NothingScanned(es: seq<Entry>, s: nat, q: nat, c: nat)
    requires q <= |es|
    ensures ScanningBack(es, s, q, q, false, c)
  {
  }

  // One entry further back.
  lemma ScanBackStep(es: seq<Entry>, s: nat, pos: nat, q: nat, candidate: bool, c: nat)
    requires Sorted(es) && pos < q <= |es| && ScanningBack(es, s, pos + 1, q, candidate, c)
    requires candidate ==> c < |es|
    ensures !Readable(es[pos], s) ==> ScanningBack(es, s, pos, q, candidate, c)
    ensures Readable(es[pos], s) && !(candidate && es[pos].key < es[c].key) ==>
              ScanningBack(es, s, pos, q, es[pos].op.Put?, if es[pos].op.Put? then pos else c)
  {
    assert candidate ==> Before(es[pos], es[c]);
  }

  lemma JustBeforeMeans(es: seq<Entry>, s: nat, pos: nat, cur: nat)
    requires cur < |es| && JustBefore(es, s, pos, cur)
    ensures pos < cur || pos == |es|
    ensures pos < cur ==> Readable(es[pos], s) && es[pos].key < es[cur].key
    ensures forall j | (if pos < cur then pos + 1 else 0) <= j < cur :: !Readable(es[j], s)
  {
  }

  lemma FoundPrev(es: seq<Entry>, s: nat, pos: nat, q: nat, candidate: bool, c: nat)
    requires Sorted(es) && pos <= |es| && Upto(es, pos) <= q <= |es|
    requires ScanningBack(es, s, Upto(es, pos), q, candidate, c)
    requires candidate ==> es[c].op.Put?
    requires pos < |es| ==> candidate && Readable(es[pos], s) && es[pos].key < es[c].key
    ensures candidate ==> Shown(es, s, c) && JustBefore(es, s, pos, c)
    ensures PrevShown(es, s, q) == if candidate then c else |es|
  {
    if candidate {
      if pos < |es| {
        forall j | 0 <= j < pos ensures es[j].key <= es[pos].key {
          assert Before(es[j], es[pos]);
        }
      }
      PrevShownIs(es, s, q, c);
    } else {
      PrevShownIs(es, s, q, |es|);
    }
  }

  // Unshown entries between n and m do not change what is before.
  lemma {:induction false} PrevShownSkips(es: seq<Entry>, s: nat, n: nat, m: nat)
    requires n <= m <= |es|
    requires forall j | n <= j < m :: !Shown(es, s, j)
    ensures PrevShown(es, s, n) == PrevShown(es, s, m)
  {
    if n < m {
      PrevShownSkips(es, s, n, m - 1);
    }
  }

  // iter stands before all that matters of the shown entry cur: only unreadable entries lie
  // between, and the one it stands on is readable and of a smaller key.
  ghost predicate JustBefore(es: seq<Entry>, s: nat, pos: nat, cur: nat)
    requires cur < |es|
  {
    && (pos < cur || pos == |es|)
    && (pos < cur ==> Readable(es[pos], s) && es[pos].key < es[cur].key)
    && forall j | (if pos < cur then pos + 1 else 0) <= j < cur :: !Readable(es[j], s)
  }

  ghost predicate Scanning(es: seq<Entry>, s: nat, p: nat, skipping: bool, skip: UserKey, goal: nat)
    requires p <= |es|
  {
    // nothing to show was passed
    && (forall j | goal <= j < p :: !Shown(es, s, j))
    // what will be skipped need not be shown
    && (forall j | p <= j < |es| && goal <= j && skipping && es[j].key <= skip :: !Shown(es, s, j))
    // what was passed and hides something ahead is skipped, and nothing before goal is ahead
    && (forall i, j | 0 <= i < p <= j < |es| && Readable(es[i], s) && es[i].key == es[j].key ::
          skipping && es[j].key <= skip)
    && (forall j | p <= j < goal && j < |es| && Readable(es[j], s) ::
          es[j].op.Put? && skipping && es[j].key <= skip)
  }

  // The scan stops at the end, or at an entry that is shown.
  lemma ScanFound(es: seq<Entry>, s: nat, p: nat, skipping: bool, skip: UserKey, goal: nat)
    requires p <= |es| && goal <= |es| && Scanning(es, s, p, skipping, skip, goal)
    requires p < |es| ==> Shown(es, s, p) && goal <= p
    ensures NextShown(es, s, goal) == p
  {
    NextShownIs(es, s, goal, p);
  }

  lemma ScanStep(es: seq<Entry>, s: nat, p: nat, skipping: bool, skip: UserKey, goal: nat)
    requires Sorted(es) && p < |es| && Scanning(es, s, p, skipping, skip, goal)
    ensures var e := es[p];
            if !Readable(e, s) || (e.op.Put? && skipping && e.key <= skip) then
              Scanning(es, s, p + 1, skipping, skip, goal)
            else if e.op.Delete? then
              Scanning(es, s, p + 1, true, e.key, goal)
            else Shown(es, s, p) && goal <= p
  {
    forall j | p < j < |es| ensures es[p].key <= es[j].key {
      assert Before(es[p], es[j]);
    }
  }

  // Turning from backwards to forwards: the scan starts inside the range of the current key.
  lemma AfterReverse(es: seq<Entry>, s: nat, p: nat, cur: nat)
    requires Sorted(es) && cur < |es| && Shown(es, s, cur) && p <= cur
    requires p > 0 ==> Readable(es[p - 1], s) && es[p - 1].key < es[cur].key
    requires forall j | p <= j < cur :: !Readable(es[j], s)
    ensures Scanning(es, s, p, true, es[cur].key, cur + 1)
  {
    forall j | cur < j < |es| ensures es[cur].key <= es[j].key {
      assert Before(es[cur], es[j]);
    }
    forall j | 0 <= j < cur ensures es[j].key <= es[cur].key {
      assert Before(es[j], es[cur]);
    }
    forall j | 0 <= j < p ensures es[j].key < es[cur].key {
      assert j < p - 1 ==> Before(es[j], es[p - 1]);
    }
  }

  lemma AtCurrent(es: seq<Entry>, s: nat, cur: nat)
    requires Sorted(es) && cur < |es| && Shown(es, s, cur)
    ensures Scanning(es, s, cur, true, es[cur].key, cur + 1)
  {
    forall j | 0 <= j < cur ensures es[j].key <= es[cur].key {
      assert Before(es[j], es[cur]);
    }
    forall j | cur < j < |es| ensures es[cur].key <= es[j].key {
      assert Before(es[cur], es[j]);
    }
  }

  lemma StartAtKey(es: seq<Entry>, s: nat, u: UserKey, p: nat)
    requires Sorted(es) && p == SeekIndex(es, LookupKey(u, s))
    ensures Scanning(es, s, p, false, u, p)
    ensures forall k | 0 <= k < p && Shown(es, s, k) :: es[k].key < u
  {
  }

  lemma KeysFrom(es: seq<Entry>, p: nat, n: nat, u: UserKey)
    requires Sorted(es) && p <= n && p < |es| && es[p].key >= u
    ensures n < |es| ==> es[n].key >= u
  {
    assert p < n < |es| ==> Before(es[p], es[n]);
  }
}
