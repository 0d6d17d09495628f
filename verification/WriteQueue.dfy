/**
 The writer queue (DBImpl::Write in db/db_impl): the writer at the front commits a group
 of queued batches as one log record, while others may join the queue behind the group.
 */
module WriteQueues {
  import opened Coding
  import opened WriteBatches

  // A writer without a batch only asks for a memtable switch.
  datatype Writer = Writer(id: nat, batch: Option<Bytes>, sync: bool)

  // A writer that was answered, and the operations that took sequence numbers from first on.
  datatype Completion = Completion(id: nat, ok: bool, first: nat, ops: seq<BatchOp>)

  // The group at work: how many writers from the front, and the batch that holds theirs.
  datatype Group = Group(size: nat, room: bool, updates: Option<Bytes>)

  const SMALL: nat := 0x2_0000
  const LARGE: nat := 0x10_0000

  function OpsOf(w: Writer): seq<BatchOp> {
    if w.batch.Some? && |w.batch.value| >= HEADER && Records(w.batch.value[HEADER..]).Some?
    then Records(w.batch.value[HEADER..]).value else []
  }

  ghost predicate GoodWriter(w: Writer) {
    w.batch.Some? ==> Holds(w.batch.value, OpsOf(w))
  }

  function GroupOps(ws: seq<Writer>): seq<BatchOp> {
    if ws == [] then [] else GroupOps(ws[..|ws| - 1]) + OpsOf(ws[|ws| - 1])
  }

  function ByteSize(w: Writer): nat {
    if w.batch.Some? then |w.batch.value| else 0
  }

  function GroupSize(ws: seq<Writer>): nat {
    if ws == [] then 0 else GroupSize(ws[..|ws| - 1]) + ByteSize(ws[|ws| - 1])
  }

  function MaxSize(first: Writer): nat {
    if ByteSize(first) <= SMALL then ByteSize(first) + SMALL else LARGE
  }

  // The group is as long as it may be: no writer asks for more than its leader does, the
  // batches are not too big together, and the next writer would break one of these.
  ghost predicate IsGroup(ws: seq<Writer>, n: nat) {
    && 1 <= n <= |ws| && ws[0].batch.Some?
    && (forall i | 0 <= i < n :: ws[i].sync ==> ws[0].sync)
    && (GroupSize(ws[..n]) <= MaxSize(ws[0]) || GroupSize(ws[..n]) == ByteSize(ws[0]))
    && (n < |ws| ==> (ws[n].sync && !ws[0].sync)
                     || (ws[n].batch.Some? && GroupSize(ws[..n + 1]) > MaxSize(ws[0])))
  }

  // A small write waits for at most 128 KiB more, no group of several batches exceeds 1 MiB, and
  // a writer that may join is left out only when it would break that.
  lemma GroupIsBounded(ws: seq<Writer>, n: nat)
    requires IsGroup(ws, n)
    ensures ByteSize(ws[0]) <= 131072 ==> GroupSize(ws[..n]) <= ByteSize(ws[0]) + 131072
    ensures GroupSize(ws[..n]) > 1048576 ==> GroupSize(ws[..n]) == ByteSize(ws[0])
    ensures n < |ws| && (ws[n].sync ==> ws[0].sync) ==>
              && ws[n].batch.Some?
              && GroupSize(ws[..n]) + |ws[n].batch.value| > (if ByteSize(ws[0]) <= 131072 then ByteSize(ws[0]) + 131072 else 1048576)
  {
    hide GroupSize;
    if n < |ws| {
      GroupStep(ws, n);
    }
  }

  function Ids(ws: seq<Writer>): (r: seq<nat>)
    ensures |r| == |ws|
  {
    seq(|ws|, i requires 0 <= i < |ws| => ws[i].id)
  }

  function DoneIds(cs: seq<Completion>): (r: seq<nat>)
    ensures |r| == |cs|
  {
    seq(|cs|, i requires 0 <= i < |cs| => cs[i].id)
  }

  // How many sequence numbers were given out.
  function Given(cs: seq<Completion>): nat {
    if cs == [] then 0 else Given(cs[..|cs| - 1]) + |cs[|cs| - 1].ops|
  }

  // What the memtable received.
  function Inserted(cs: seq<Completion>): seq<(nat, BatchOp)> {
    if cs == [] then []
    else
      var c := cs[|cs| - 1];
      Inserted(cs[..|cs| - 1]) + if c.ok then Numbered(c.ops, c.first) else []
  }

  // Every answered writer's numbers follow those of the one before it.
  ghost predicate Contiguous(cs: seq<Completion>) {
    forall i | 0 <= i < |cs| :: cs[i].first == Given(cs[..i]) + 1
  }

  // The answers to a group.
  function Answers(ws: seq<Writer>, first: nat, ok: bool, numbered: bool): (r: seq<Completion>)
    ensures |r| == |ws|
  {
    if ws == [] then []
    else
      var before := ws[..|ws| - 1];
      Answers(before, first, ok, numbered)
      + [Completion(ws[|ws| - 1].id, ok, first + if numbered then |GroupOps(before)| else 0,
                    if numbered then OpsOf(ws[|ws| - 1]) else [])]
  }

  lemma OneAnswer(cs: seq<Completion>, c: Completion)
    requires Contiguous(cs) && c.first == Given(cs) + 1
    ensures var all := cs + [c];
            && Contiguous(all) && Given(all) == Given(cs) + |c.ops|
            && Inserted(all) == Inserted(cs) + (if c.ok then Numbered(c.ops, c.first) else [])
            && DoneIds(all) == DoneIds(cs) + [c.id]
  {
    var all := cs + [c];
    assert all[..|all| - 1] == cs;
    forall i | 0 <= i < |all| ensures all[i].first == Given(all[..i]) + 1 {
      assert all[..i] == cs[..i];
      assert i == |cs| ==> cs[..i] == cs;
    }
  }

  lemma NumberedSplits(a: seq<BatchOp>, b: seq<BatchOp>, first: nat)
    ensures Numbered(a + b, first) == Numbered(a, first) + Numbered(b, first + |a|)
  {
  }

  // Answering a group gives its operations the next sequence numbers, in queue order.
  lemma {:induction false} AnswersGive(cs: seq<Completion>, ws: seq<Writer>, ok: bool, numbered: bool)
    requires Contiguous(cs)
    ensures var all := cs + Answers(ws, Given(cs) + 1, ok, numbered);
            && Contiguous(all) && Given(all) == Given(cs) + (if numbered then |GroupOps(ws)| else 0)
            && Inserted(all) == Inserted(cs) + (if ok && numbered then Numbered(GroupOps(ws), Given(cs) + 1) else [])
            && DoneIds(all) == DoneIds(cs) + Ids(ws)
  {
    hide Contiguous, OpsOf, Given, Inserted, DoneIds;
    var first := Given(cs) + 1;
    var answers := Answers(ws, first, ok, numbered);
    if ws == [] {
      assert cs + answers == cs;
    } else {
      var before := ws[..|ws| - 1];
      AnswersGive(cs, before, ok, numbered);
      var most := cs + Answers(before, first, ok, numbered);
      var last := answers[|ws| - 1];
      OneAnswer(most, last);
      NumberedSplits(GroupOps(before), OpsOf(ws[|ws| - 1]), first);
      assert cs + answers == most + [last];
      assert Ids(ws) == Ids(before) + [ws[|ws| - 1].id];
    }
  }

  lemma GroupStep(ws: seq<Writer>, n: nat)
    requires n < |ws|
    ensures GroupOps(ws[..n + 1]) == GroupOps(ws[..n]) + OpsOf(ws[n])
    ensures GroupSize(ws[..n + 1]) == GroupSize(ws[..n]) + ByteSize(ws[n])
    ensures ws[n].batch.None? ==> GroupOps(ws[..n + 1]) == GroupOps(ws[..n])
  {
    assert ws[..n + 1][..n] == ws[..n];
  }

  lemma AnswersStep(ws: seq<Writer>, n: nat, first: nat, ok: bool, numbered: bool)
    requires n < |ws|
    ensures Answers(ws[..n + 1], first, ok, numbered) ==
            Answers(ws[..n], first, ok, numbered)
            + [Completion(ws[n].id, ok, first + if numbered then |GroupOps(ws[..n])| else 0,
                          if numbered then OpsOf(ws[n]) else [])]
  {
    hide OpsOf, GroupOps;
    assert ws[..n + 1][..n] == ws[..n];
  }

  lemma OpsFit(rep: Bytes, ops: seq<BatchOp>)
    requires Holds(rep, ops)
    ensures |ops| <= |rep|
  {
    RecordsFit(rep[HEADER..]);
  }

  // ---------- what the invariant means for the writers

  // No writer is answered twice.
  lemma AnsweredOnce(enqueued: seq<nat>, cs: seq<Completion>, ws: seq<Writer>, i: nat, j: nat)
    requires enqueued == DoneIds(cs) + Ids(ws)
    requires forall a, b | 0 <= a < b < |enqueued| :: enqueued[a] != enqueued[b]
    requires i < |cs|
    ensures j < |cs| && i != j ==> cs[i].id != cs[j].id
    ensures j < |ws| ==> cs[i].id != ws[j].id
  {
    assert enqueued[i] == cs[i].id;
    assert j < |cs| ==> enqueued[j] == cs[j].id;
    assert j < |ws| ==> enqueued[|cs| + j] == ws[j].id;
  }

  // Ranges of sequence numbers are disjoint and increase in the order of the answers.
  lemma {:induction false} RangesIncrease(cs: seq<Completion>, i: nat, j: nat)
    requires Contiguous(cs) && i < j < |cs|
    ensures cs[i].first + |cs[i].ops| <= cs[j].first
    decreases j
  {
    assert cs[..i + 1][..i] == cs[..i];
    if i + 1 < j {
      RangesIncrease(cs, i, j - 1);
      assert cs[..j][..j - 1] == cs[..j - 1];
    }
  }

  // ---------- the queue

  class WriteQueue {
    var writers: seq<Writer>
    var group: Option<Group>
    var lastSequence: nat
    var memTable: seq<(nat, BatchOp)>
    var done: seq<Completion>
    // Every writer that ever joined, in order.
    ghost var enqueued: seq<nat>

    ghost predicate Ok()
      reads this
    {
      && enqueued == DoneIds(done) + Ids(writers)
      && (forall a, b | 0 <= a < b < |enqueued| :: enqueued[a] != enqueued[b])
      && (forall i | 0 <= i < |writers| :: GoodWriter(writers[i]))
      && Contiguous(done) && lastSequence == Given(done) && memTable == Inserted(done)
      && (group.Some? ==> GroupOk(group.value))
    }

    ghost predicate GroupOk(g: Group)
      reads this
    {
      && 1 <= g.size <= |writers|
      && (g.updates.None? ==> g.size == 1 && (!g.room || writers[0].batch.None?))
      && (g.updates.Some? ==>
            && g.room && Holds(g.updates.value, GroupOps(writers[..g.size]))
            && SequenceOf(g.updates.value) == lastSequence + 1)
    }

    constructor ()
      ensures Ok() && writers == [] && group == None && enqueued == []
    {
      writers, group, lastSequence, memTable, done := [], None, 0, [], [];
      enqueued := [];
    }

    // A writer joins at the back, behind a group at work too.
    method Enqueue(w: Writer)
      requires Ok() && GoodWriter(w) && w.id !in enqueued
      modifies this
      ensures Ok() && writers == old(writers) + [w] && enqueued == old(enqueued) + [w.id]
      ensures group == old(group) && done == old(done) && memTable == old(memTable)
    {
      writers := writers + [w];
      enqueued := enqueued + [w.id];
      assert group.Some? ==> writers[..group.value.size] == old(writers)[..group.value.size];
    }

    // The front writer makes room and builds its group; room is whether that succeeded.
    method BeginGroup(room: bool)
      requires Ok() && group.None? && writers != [] && lastSequence + 1 < TWO64
      modifies this
      ensures Ok() && group.Some? && writers == old(writers) && done == old(done) && memTable == old(memTable)
      ensures enqueued == old(enqueued)
      ensures room && writers[0].batch.Some? ==> IsGroup(writers, group.value.size) && group.value.updates.Some?
      ensures !room || writers[0].batch.None? ==> group.value.size == 1 && group.value.updates.None?
    {
      if room && writers[0].batch.Some? {
        var n, updates := BuildBatchGroup();
        ghost var was := updates.rep;
        updates.SetSequence(lastSequence + 1);
        SameRecords(was, updates.rep, GroupOps(writers[..n]));
        group := Some(Group(n, true, Some(updates.rep)));
      } else {
        group := Some(Group(1, room, None));
      }
    }

    method BuildBatchGroup() returns (n: nat, updates: WriteBatch)
      requires Ok() && writers != [] && writers[0].batch.Some?
      ensures IsGroup(writers, n) && fresh(updates)
      ensures Holds(updates.rep, GroupOps(writers[..n]))
    {
      hide OpsOf, GroupOps, GroupSize, Holds, Contiguous, Given, Inserted, DoneIds;
      var first := writers[0];
      FirstGroup(writers);
      updates := new WriteBatch();
      updates.rep := first.batch.value;
      var size := |first.batch.value|;
      var maxSize := if size <= SMALL then size + SMALL else LARGE;
      n := 1;
      while n < |writers|
        invariant 1 <= n <= |writers| && fresh(updates)
        invariant Holds(updates.rep, GroupOps(writers[..n])) && size == GroupSize(writers[..n])
        invariant forall i | 0 <= i < n :: writers[i].sync ==> first.sync
        invariant |updates.rep| <= size && (size <= maxSize || size == ByteSize(first))
      {
        var w := writers[n];
        if w.sync && !first.sync {
          break;
        }
        GroupStep(writers, n);
        if w.batch.Some? {
          if size + |w.batch.value| > maxSize {
            break;
          }
          size := size + |w.batch.value|;
          OpsFit(updates.rep, GroupOps(writers[..n]));
          OpsFit(w.batch.value, OpsOf(w));
          updates.Append(w.batch.value, GroupOps(writers[..n]), OpsOf(w));
        }
        n := n + 1;
      }
    }

    lemma FirstGroup(ws: seq<Writer>)
      requires ws != []
      ensures GroupOps(ws[..1]) == OpsOf(ws[0]) && GroupSize(ws[..1]) == ByteSize(ws[0])
    {
      assert ws[..1] == [ws[0]] && [ws[0]][..0] == [];
    }

    // The leader logs and inserts the group, and answers all of it with the same status.
    method FinishGroup(logged: bool)
      requires Ok() && group.Some?
      modifies this
      ensures Ok() && group.None? && enqueued == old(enqueued)
      ensures writers == old(writers)[old(group).value.size..]
      ensures var g := old(group).value;
              done == old(done) + Answers(old(writers)[..g.size], old(lastSequence) + 1,
                                          if g.updates.Some? then logged else g.room, g.updates.Some?)
    {
      hide OpsOf, GroupOps, Contiguous, Given, Inserted, DoneIds, Answers, Records, SequenceOf;
      var g := group.value;
      var status, first := g.room, lastSequence + 1;
      ghost var ops := GroupOps(writers[..g.size]);
      if g.updates.Some? {
        status := logged;
        if status {
          InsertUpdates(g.updates.value, ops);
        }
        lastSequence := lastSequence + CountOf(g.updates.value);
      }
      AnswersGive(done, writers[..g.size], status, g.updates.Some?);
      assert Ids(writers) == Ids(writers[..g.size]) + Ids(writers[g.size..]);
      AnswerWriters(g.size, status, first, g.updates.Some?);
      group := None;
    }

    method InsertUpdates(updates: Bytes, ghost ops: seq<BatchOp>)
      requires Holds(updates, ops)
      modifies `memTable
      ensures memTable == old(memTable) + Numbered(ops, SequenceOf(updates))
    {
      hide Holds, SequenceOf, Numbered;
      var batch := new WriteBatch();
      batch.rep := updates;
      HoldsIff(updates, ops);
      var _, inserted := batch.InsertInto();
      memTable := memTable + inserted;
    }

    // Pops the group off the queue and marks each of its writers done.
    method AnswerWriters(n: nat, status: bool, first: nat, numbered: bool)
      requires n <= |writers|
      modifies this`writers, this`done
      ensures writers == old(writers)[n..]
      ensures done == old(done) + Answers(old(writers)[..n], first, status, numbered)
    {
      hide OpsOf, GroupOps, Answers;
      ghost var ws := writers;
      var next := first;
      NoAnswers(first, status, numbered);
      for i := 0 to n
        invariant writers == ws[i..] && done == old(done) + Answers(ws[..i], first, status, numbered)
        invariant next == first + if numbered then |GroupOps(ws[..i])| else 0
      {
        var ready := writers[0];
        AnswersStep(ws, i, first, status, numbered);
        GroupStep(ws, i);
        done := done + [Completion(ready.id, status, next, if numbered then OpsOf(ready) else [])];
        next := next + if numbered then |OpsOf(ready)| else 0;
        writers := writers[1..];
      }
    }
  }

  lemma NoAnswers(first: nat, ok: bool, numbered: bool)
    ensures Answers([], first, ok, numbered) == [] && GroupOps([]) == []
  {
  }

  lemma SameRecords(a: Bytes, b: Bytes, ops: seq<BatchOp>)
    requires Holds(a, ops) && |b| == |a| && b[8..] == a[8..]
    ensures Holds(b, ops)
  {
    assert a[HEADER..] == a[8..][4..] && b[HEADER..] == b[8..][4..];
  }
}
