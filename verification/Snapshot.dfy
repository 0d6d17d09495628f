/**
 SnapshotList: a circular doubly-linked list with a dummy head (db/snapshot).
 */
module Snapshots {
  class SnapshotImpl {
    const number: nat
    var prev: SnapshotImpl
    var next: SnapshotImpl

    // Linked to itself.
    constructor (number: nat)
      ensures this.number == number && prev == this && next == this
    {
      this.number := number;
      prev, next := this, this;
    }
  }

  // ---------- rings

  ghost predicate Distinct(ring: seq<SnapshotImpl>) {
    forall i, j | 0 <= i < j < |ring| :: ring[i] != ring[j]
  }

  function After(ring: seq<SnapshotImpl>, i: nat): (j: nat)
    requires i < |ring|
    ensures j < |ring|
  {
    if i + 1 < |ring| then i + 1 else 0
  }

  // a is followed by b, both ways.
  ghost predicate Joined(a: SnapshotImpl, b: SnapshotImpl)
    reads a, b
  {
    a.next == b && b.prev == a
  }

  // Every node is joined to the one after it, and the last to the first.
  ghost predicate Ring(ring: seq<SnapshotImpl>)
    reads ring
  {
    && ring != [] && Distinct(ring)
    && forall i | 0 <= i < |ring| :: Joined(ring[i], ring[After(ring, i)])
  }

  lemma Neighbours(ring: seq<SnapshotImpl>, k: nat)
    requires Ring(ring) && k < |ring|
    ensures Joined(ring[k], ring[After(ring, k)])
    ensures Joined(ring[if k == 0 then |ring| - 1 else k - 1], ring[k])
  {
    var before := if k == 0 then |ring| - 1 else k - 1;
    assert After(ring, before) == k;
  }

  lemma RemovedDistinct(ring: seq<SnapshotImpl>, k: nat)
    requires Distinct(ring) && k < |ring|
    ensures Distinct(ring[..k] + ring[k + 1..]) && ring[k] !in ring[..k] + ring[k + 1..]
  {
    var left := ring[..k] + ring[k + 1..];
    assert forall j | 0 <= j < |left| :: left[j] == ring[if j < k then j else j + 1];
  }

  // Joins the neighbours of the node at place k.
  method Unlink(s: SnapshotImpl, ghost ring: seq<SnapshotImpl>, ghost k: nat)
    requires Ring(ring) && 0 < k < |ring| && ring[k] == s
    modifies ring
    ensures Ring(ring[..k] + ring[k + 1..])
  {
    ghost var left := ring[..k] + ring[k + 1..];
    RemovedDistinct(ring, k);
    Neighbours(ring, k);
    s.prev.next := s.next;
    s.next.prev := s.prev;
    forall j | 0 <= j < |left| ensures Joined(left[j], left[After(left, j)]) {
      ghost var a := if j < k then j else j + 1;
      assert left[j] == ring[a];
      if j + 1 == k {
        assert left[After(left, j)] == ring[After(ring, k)];
      } else {
        assert left[After(left, j)] == ring[After(ring, a)];
        assert old(Joined(ring[a], ring[After(ring, a)]));
      }
    }
  }

  // Puts s between the last node and the first.
  method LinkLast(head: SnapshotImpl, s: SnapshotImpl, ghost ring: seq<SnapshotImpl>)
    requires Ring(ring) && ring[0] == head && s !in ring
    modifies ring, s
    ensures Ring(ring + [s])
  {
    Neighbours(ring, 0);
    s.next := head;
    s.prev := head.prev;
    s.prev.next := s;
    s.next.prev := s;
    ghost var more := ring + [s];
    forall j | 0 <= j < |more| ensures Joined(more[j], more[After(more, j)]) {
      if j + 1 < |ring| {
        assert old(Joined(ring[j], ring[After(ring, j)]));
      }
    }
  }

  // ---------- numbers

  function NumbersOf(nodes: seq<SnapshotImpl>): (r: seq<nat>)
    ensures |r| == |nodes|
  {
    seq(|nodes|, i requires 0 <= i < |nodes| => nodes[i].number)
  }

  predicate Ascending(numbers: seq<nat>) {
    forall i, j | 0 <= i < j < |numbers| :: numbers[i] <= numbers[j]
  }

  lemma RemovedNumbers(nodes: seq<SnapshotImpl>, i: nat)
    requires i < |nodes| && Ascending(NumbersOf(nodes))
    ensures Ascending(NumbersOf(nodes[..i] + nodes[i + 1..]))
  {
    var left := nodes[..i] + nodes[i + 1..];
    assert forall j | 0 <= j < |left| :: NumbersOf(left)[j] == NumbersOf(nodes)[if j < i then j else j + 1];
  }

  lemma AddedNumber(nodes: seq<SnapshotImpl>, s: SnapshotImpl)
    requires Ascending(NumbersOf(nodes)) && forall t | t in nodes :: t.number <= s.number
    ensures NumbersOf(nodes + [s]) == NumbersOf(nodes) + [s.number] && Ascending(NumbersOf(nodes + [s]))
  {
    assert NumbersOf(nodes + [s]) == NumbersOf(nodes) + [s.number];
    forall i | 0 <= i < |nodes| ensures NumbersOf(nodes)[i] <= s.number {
      assert nodes[i] in nodes;
    }
  }

  lemma EndsAreExtreme(nodes: seq<SnapshotImpl>, t: SnapshotImpl)
    requires Ascending(NumbersOf(nodes)) && t in nodes
    ensures nodes[0].number <= t.number <= nodes[|nodes| - 1].number
  {
    var i :| 0 <= i < |nodes| && nodes[i] == t;
    assert NumbersOf(nodes)[0] <= NumbersOf(nodes)[i] <= NumbersOf(nodes)[|nodes| - 1];
  }

  // ---------- the list

  class SnapshotList {
    const list: SnapshotImpl
    // The snapshots, oldest first.
    ghost var nodes: seq<SnapshotImpl>

    ghost predicate Valid()
      reads this, list, nodes
    {
      Ring([list] + nodes) && Ascending(NumbersOf(nodes))
    }

    constructor ()
      ensures Valid() && nodes == [] && fresh(list)
    {
      list := new SnapshotImpl(0);
      nodes := [];
    }

    method Empty() returns (empty: bool)
      requires Valid()
      ensures empty <==> nodes == []
    {
      Neighbours([list] + nodes, 0);
      empty := list.next == list;
    }

    // No live snapshot has a smaller number.
    method Oldest() returns (s: SnapshotImpl)
      requires Valid() && nodes != []
      ensures s == nodes[0] && forall t | t in nodes :: s.number <= t.number
    {
      Neighbours([list] + nodes, 0);
      s := list.next;
      forall t | t in nodes ensures s.number <= t.number {
        EndsAreExtreme(nodes, t);
      }
    }

    method Newest() returns (s: SnapshotImpl)
      requires Valid() && nodes != []
      ensures s == nodes[|nodes| - 1] && forall t | t in nodes :: t.number <= s.number
    {
      Neighbours([list] + nodes, 0);
      s := list.prev;
      forall t | t in nodes ensures t.number <= s.number {
        EndsAreExtreme(nodes, t);
      }
    }

    // Sequence numbers never fall, so the list stays in order.
    method New(number: nat) returns (s: SnapshotImpl)
      requires Valid() && forall t | t in nodes :: t.number <= number
      modifies this, list, nodes
      ensures Valid() && fresh(s) && s.number == number
      ensures nodes == old(nodes) + [s] && NumbersOf(nodes) == old(NumbersOf(nodes)) + [number]
    {
      hide Ring;
      ghost var ring := [list] + nodes;
      s := new SnapshotImpl(number);
      AddedNumber(nodes, s);
      LinkLast(list, s, ring);
      nodes := nodes + [s];
      assert [list] + nodes == ring + [s];
    }

    method Delete(s: SnapshotImpl)
      requires Valid() && s in nodes
      modifies this, list, nodes
      ensures Valid() && s !in nodes
      ensures exists i | 0 <= i < |old(nodes)| ::
                old(nodes)[i] == s && nodes == old(nodes)[..i] + old(nodes)[i + 1..]
    {
      ghost var ring := [list] + nodes;
      ghost var i :| 0 <= i < |nodes| && nodes[i] == s;
      RemovedDistinct(ring, i + 1);
      RemovedNumbers(nodes, i);
      Unlink(s, ring, i + 1);
      nodes := nodes[..i] + nodes[i + 1..];
      assert [list] + nodes == ring[..i + 1] + ring[i + 2..];
      assert forall t | t in nodes :: t in ring[..i + 1] + ring[i + 2..];
    }
  }
}
