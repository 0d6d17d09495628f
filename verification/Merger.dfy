/**
 Sorted lists of items and cursors over them, shared by the iterators that combine others.
 A cursor is an index; the length of the list means not valid.
 */
module Cursors {
  import opened Coding

  // The key is the rank of an internal key in the comparator's order.
  datatype Item = Item(key: real, value: Bytes)
  datatype Direction = Forward | Reverse

  ghost predicate Sorted(items: seq<Item>) {
    forall i, j | 0 <= i < j < |items| :: items[i].key < items[j].key
  }

  // Iterator::Seek: the first item at or after target.
  function LowerIndex(items: seq<Item>, target: real): (i: nat)
    ensures i <= |items|
    ensures forall j | 0 <= j < i :: items[j].key < target
    ensures i < |items| ==> items[i].key >= target
  {
    if items == [] || items[0].key >= target then 0 else 1 + LowerIndex(items[1..], target)
  }

  // Iterator::SeekToLast and Iterator::Prev.
  function LastIndex(items: seq<Item>): nat {
    if items == [] then 0 else |items| - 1
  }

  function Before(items: seq<Item>, i: nat): nat {
    if i == 0 then |items| else i - 1
  }
}

/**
 MergingIterator (table/merger): several sorted iterators shown as one, in both directions.
 */
module Mergers {
  import opened Coding
  import opened Cursors

  // ---------- the sorted union

  function Merge(a: seq<Item>, b: seq<Item>): seq<Item> {
    if a == [] then b
    else if b == [] then a
    else if a[0].key <= b[0].key then [a[0]] + Merge(a[1..], b)
    else [b[0]] + Merge(a, b[1..])
  }

  function MergeAll(lists: seq<seq<Item>>): seq<Item> {
    if lists == [] then [] else Merge(lists[0], MergeAll(lists[1..]))
  }

  ghost predicate Apart(lists: seq<seq<Item>>) {
    && (forall i | 0 <= i < |lists| :: Sorted(lists[i]))
    && forall i, i', j, j' | 0 <= i < i' < |lists| && 0 <= j < |lists[i]| && 0 <= j' < |lists[i']| ::
         lists[i][j].key != lists[i'][j'].key
  }

  lemma {:induction false} MergeIsUnion(a: seq<Item>, b: seq<Item>)
    requires Sorted(a) && Sorted(b)
    requires forall i, j | 0 <= i < |a| && 0 <= j < |b| :: a[i].key != b[j].key
    ensures Sorted(Merge(a, b))
    ensures forall x :: x in Merge(a, b) <==> x in a || x in b
    decreases |a| + |b|
  {
    if a != [] && b != [] {
      if a[0].key <= b[0].key {
        MergeIsUnion(a[1..], b);
        HeadFirst(a[0], a[1..], b, Merge(a[1..], b));
        assert a == [a[0]] + a[1..];
      } else {
        MergeIsUnion(a, b[1..]);
        HeadFirst(b[0], a, b[1..], Merge(a, b[1..]));
        assert b == [b[0]] + b[1..];
      }
    }
  }

  lemma HeadFirst(x: Item, a: seq<Item>, b: seq<Item>, m: seq<Item>)
    requires Sorted(m) && forall y :: y in m <==> y in a || y in b
    requires forall i | 0 <= i < |a| :: x.key < a[i].key
    requires forall i | 0 <= i < |b| :: x.key < b[i].key
    ensures Sorted([x] + m)
  {
    forall i | 0 <= i < |m| ensures x.key < m[i].key {
      assert m[i] in m;
    }
  }

  // MergeAll is the sorted list of everything in the lists.
  lemma {:induction false} MergeAllIsUnion(lists: seq<seq<Item>>)
    requires Apart(lists)
    ensures Sorted(MergeAll(lists))
    ensures forall x :: x in MergeAll(lists) <==> exists i :: 0 <= i < |lists| && x in lists[i]
  {
    if lists != [] {
      var rest := lists[1..];
      assert forall i | 0 <= i < |rest| :: rest[i] == lists[i + 1];
      MergeAllIsUnion(rest);
      var m := MergeAll(rest);
      forall i, j | 0 <= i < |lists[0]| && 0 <= j < |m| ensures lists[0][i].key != m[j].key {
        assert m[j] in m;
        var k :| 0 <= k < |rest| && m[j] in rest[k];
        assert m[j] in lists[k + 1];
      }
      MergeIsUnion(lists[0], m);
      forall x ensures x in MergeAll(lists) <==> exists i :: 0 <= i < |lists| && x in lists[i] {
        if x in m {
          var k :| 0 <= k < |rest| && x in rest[k];
          assert x in lists[k + 1];
        }
        if i :| 0 <= i < |lists| && x in lists[i] {
          if i > 0 {
            assert x in rest[i - 1];
          }
        }
      }
    }
  }

  // ---------- cuts: what lies before the union's place s

  ghost predicate Below(all: seq<Item>, x: Item, s: nat) {
    s < |all| ==> x.key < all[s].key
  }

  // The first n items of a child lie before place s, and no others.
  ghost predicate CutAt(all: seq<Item>, list: seq<Item>, n: nat, s: nat) {
    n <= |list| && forall j | 0 <= j < |list| :: j < n <==> Below(all, list[j], s)
  }

  ghost predicate CutAll(all: seq<Item>, lists: seq<seq<Item>>, pos: seq<nat>, s: nat) {
    |pos| == |lists| && forall i | 0 <= i < |lists| :: CutAt(all, lists[i], pos[i], s)
  }

  ghost predicate StandsBelow(all: seq<Item>, list: seq<Item>, p: nat, s: nat) {
    if p >= |list| then CutAt(all, list, 0, s) && p == |list| else CutAt(all, list, p + 1, s)
  }

  ghost predicate BelowAll(all: seq<Item>, lists: seq<seq<Item>>, pos: seq<nat>, s: nat) {
    |pos| == |lists| && forall i | 0 <= i < |lists| :: StandsBelow(all, lists[i], pos[i], s)
  }

  ghost predicate Union(all: seq<Item>, lists: seq<seq<Item>>) {
    && Sorted(all) && Apart(lists)
    && forall x :: x in all <==> exists i :: 0 <= i < |lists| && x in lists[i]
  }

  lemma CutsInRange(all: seq<Item>, lists: seq<seq<Item>>, pos: seq<nat>, s: nat)
    requires CutAll(all, lists, pos, s)
    ensures forall i | 0 <= i < |lists| :: pos[i] <= |lists[i]|
  {
    forall i | 0 <= i < |lists| ensures pos[i] <= |lists[i]| {
      assert CutAt(all, lists[i], pos[i], s);
    }
  }

  lemma StandsInRange(all: seq<Item>, lists: seq<seq<Item>>, pos: seq<nat>, s: nat)
    requires BelowAll(all, lists, pos, s)
    ensures forall i | 0 <= i < |lists| :: pos[i] <= |lists[i]|
  {
    forall i | 0 <= i < |lists| ensures pos[i] <= |lists[i]| {
      assert StandsBelow(all, lists[i], pos[i], s);
    }
  }

  // A cut child stands on the union's item s or on a later one.
  lemma CutChild(all: seq<Item>, list: seq<Item>, p: nat, s: nat)
    requires Sorted(list) && CutAt(all, list, p, s) && s < |all|
    ensures p < |list| ==> list[p].key >= all[s].key
    ensures forall j | 0 <= j < |list| && list[j] == all[s] :: p == j
  {
    forall j | 0 <= j < |list| && list[j] == all[s] ensures p == j {
      assert !Below(all, list[j], s);
      assert p < |list| && !Below(all, list[p], s);
    }
  }

  // A child standing below s stands on the union's item s - 1 or on an earlier one.
  lemma ChildBelow(all: seq<Item>, list: seq<Item>, p: nat, s: nat)
    requires Sorted(all) && Sorted(list) && StandsBelow(all, list, p, s) && 0 < s <= |all|
    requires p < |list| ==> list[p] in all
    ensures p < |list| ==> list[p].key <= all[s - 1].key
    ensures forall j | 0 <= j < |list| && list[j] == all[s - 1] :: p == j
  {
    if p < |list| {
      var a :| 0 <= a < |all| && all[a] == list[p];
      assert Below(all, list[p], s);
    }
    forall j | 0 <= j < |list| && list[j] == all[s - 1] ensures p == j {
      assert Below(all, list[j], s);
    }
  }

  // Among children cut at s, the one with the union's item s stands on it.
  lemma CutHasNext(all: seq<Item>, lists: seq<seq<Item>>, pos: seq<nat>, s: nat) returns (c: nat)
    requires Union(all, lists) && CutAll(all, lists, pos, s) && s < |all|
    ensures c < |lists| && pos[c] < |lists[c]| && lists[c][pos[c]] == all[s]
    ensures forall i | 0 <= i < |lists| && pos[i] < |lists[i]| :: lists[i][pos[i]].key >= all[s].key
  {
    hide CutAt, Union;
    forall i | 0 <= i < |lists| ensures pos[i] < |lists[i]| ==> lists[i][pos[i]].key >= all[s].key {
      ChildSorted(all, lists, i);
      CutChild(all, lists[i], pos[i], s);
    }
    c := Holder(all, lists, s);
    var j :| 0 <= j < |lists[c]| && lists[c][j] == all[s];
    ChildSorted(all, lists, c);
    CutChild(all, lists[c], pos[c], s);
  }

  // Among children standing below s, the one with the union's item s - 1 stands on it.
  lemma BelowHasPrev(all: seq<Item>, lists: seq<seq<Item>>, pos: seq<nat>, s: nat) returns (c: nat)
    requires Union(all, lists) && BelowAll(all, lists, pos, s) && 0 < s <= |all|
    ensures c < |lists| && pos[c] < |lists[c]| && lists[c][pos[c]] == all[s - 1]
    ensures forall i | 0 <= i < |lists| && pos[i] < |lists[i]| :: lists[i][pos[i]].key <= all[s - 1].key
  {
    hide StandsBelow, Union;
    forall i | 0 <= i < |lists| ensures pos[i] < |lists[i]| ==> lists[i][pos[i]].key <= all[s - 1].key {
      StandingBelow(all, lists, pos, s, i);
    }
    c := Holder(all, lists, s - 1);
    var j :| 0 <= j < |lists[c]| && lists[c][j] == all[s - 1];
    StandingBelow(all, lists, pos, s, c);
  }

  lemma StandingBelow(all: seq<Item>, lists: seq<seq<Item>>, pos: seq<nat>, s: nat, i: nat)
    requires Union(all, lists) && BelowAll(all, lists, pos, s) && 0 < s <= |all| && i < |lists|
    ensures pos[i] < |lists[i]| ==> lists[i][pos[i]].key <= all[s - 1].key
    ensures forall j | 0 <= j < |lists[i]| && lists[i][j] == all[s - 1] :: pos[i] == j
  {
    hide StandsBelow;
    if pos[i] < |lists[i]| {
      InUnion(all, lists, i, pos[i]);
    }
    ChildBelow(all, lists[i], pos[i], s);
  }

  // Every item of the union is in some child.
  lemma Holder(all: seq<Item>, lists: seq<seq<Item>>, s: nat) returns (c: nat)
    requires Union(all, lists) && s < |all|
    ensures c < |lists| && all[s] in lists[c]
  {
    assert all[s] in all;
    c :| 0 <= c < |lists| && all[s] in lists[c];
  }

  lemma ChildSorted(all: seq<Item>, lists: seq<seq<Item>>, i: nat)
    requires Union(all, lists) && i < |lists|
    ensures Sorted(lists[i])
  {
  }

  lemma InUnion(all: seq<Item>, lists: seq<seq<Item>>, i: nat, j: nat)
    requires Union(all, lists) && i < |lists| && j < |lists[i]|
    ensures lists[i][j] in all
  {
    assert lists[i][j] in lists[i];
  }

  // ---------- the iterator

  class MergingIterator {
    const lists: seq<seq<Item>>
    // Where each child stands; the length of its list when it is not valid.
    var pos: seq<nat>
    var current: Option<nat>
    var direction: Direction
    ghost const all: seq<Item>
    // The place in the sorted union; its length when not valid.
    ghost var at: nat

    ghost predicate Ok()
      reads this
    {
      && Union(all, lists) && all == MergeAll(lists)
      && |pos| == |lists| && (forall i | 0 <= i < |lists| :: pos[i] <= |lists[i]|)
      && at <= |all| && (current.None? <==> at == |all|)
      && (current.Some? ==>
            && current.value < |lists| && pos[current.value] < |lists[current.value]|
            && lists[current.value][pos[current.value]] == all[at]
            && (direction == Forward ==> CutAll(all, lists, pos, at))
            && (direction == Reverse ==> BelowAll(all, lists, pos, at + 1)))
    }

    constructor (lists: seq<seq<Item>>)
      requires Apart(lists)
      ensures Ok() && current.None? && this.lists == lists
    {
      this.lists := lists;
      pos := seq(|lists|, i requires 0 <= i < |lists| => |lists[i]|);
      current, direction := None, Forward;
      all, at := MergeAll(lists), |MergeAll(lists)|;
      MergeAllIsUnion(lists);
    }

    function Valid(): (v: bool)
      requires Ok()
      reads this
      ensures v <==> at < |all|
    {
      current.Some?
    }

    function Key(): (k: real)
      requires Ok() && Valid()
      reads this
      ensures k == all[at].key
    {
      lists[current.value][pos[current.value]].key
    }

    function Value(): (v: Bytes)
      requires Ok() && Valid()
      reads this
      ensures v == all[at].value
    {
      lists[current.value][pos[current.value]].value
    }

    method FindSmallest(ghost s: nat)
      requires Union(all, lists) && all == MergeAll(lists) && CutAll(all, lists, pos, s) && s <= |all|
      requires direction == Forward
      modifies this`current, this`at
      ensures Ok() && at == s
    {
      hide CutAt, Union, MergeAll;
      CutsInRange(all, lists, pos, s);
      var smallest: Option<nat> := None;
      for i := 0 to |lists|
        invariant smallest.Some? ==> smallest.value < i && pos[smallest.value] < |lists[smallest.value]|
        invariant smallest.None? ==> forall j | 0 <= j < i :: pos[j] >= |lists[j]|
        invariant smallest.Some? ==> forall j | 0 <= j < i && pos[j] < |lists[j]| ::
                    lists[smallest.value][pos[smallest.value]].key <= lists[j][pos[j]].key
      {
        if pos[i] < |lists[i]| {
          if smallest.None? || lists[i][pos[i]].key < lists[smallest.value][pos[smallest.value]].key {
            smallest := Some(i);
          }
        }
      }
      IsNext(smallest, s);
      current, at := smallest, s;
    }

    lemma IsNext(smallest: Option<nat>, s: nat)
      requires Union(all, lists) && CutAll(all, lists, pos, s) && s <= |all|
      requires smallest.None? ==> forall j | 0 <= j < |lists| :: pos[j] >= |lists[j]|
      requires smallest.Some? ==> smallest.value < |lists| && pos[smallest.value] < |lists[smallest.value]|
      requires smallest.Some? ==> forall j | 0 <= j < |lists| && pos[j] < |lists[j]| ::
                 lists[smallest.value][pos[smallest.value]].key <= lists[j][pos[j]].key
      ensures smallest.None? <==> s == |all|
      ensures smallest.Some? ==> lists[smallest.value][pos[smallest.value]] == all[s]
    {
      if s < |all| {
        var c := CutHasNext(all, lists, pos, s);
        InUnion(all, lists, smallest.value, pos[smallest.value]);
      } else if smallest.Some? {
        assert CutAt(all, lists[smallest.value], pos[smallest.value], s);
        assert Below(all, lists[smallest.value][pos[smallest.value]], s);
      }
    }

    method FindLargest(ghost s: nat)
      requires Union(all, lists) && all == MergeAll(lists) && BelowAll(all, lists, pos, s) && s <= |all|
      requires direction == Reverse
      modifies this`current, this`at
      ensures Ok() && at == if s == 0 then |all| else s - 1
    {
      hide StandsBelow, Union, MergeAll;
      StandsInRange(all, lists, pos, s);
      var largest: Option<nat> := None;
      for i := |lists| downto 0
        invariant largest.Some? ==> i <= largest.value < |lists| && pos[largest.value] < |lists[largest.value]|
        invariant largest.None? ==> forall j | i <= j < |lists| :: pos[j] >= |lists[j]|
        invariant largest.Some? ==> forall j | i <= j < |lists| && pos[j] < |lists[j]| ::
                    lists[largest.value][pos[largest.value]].key >= lists[j][pos[j]].key
      {
        if pos[i] < |lists[i]| {
          if largest.None? || lists[i][pos[i]].key > lists[largest.value][pos[largest.value]].key {
            largest := Some(i);
          }
        }
      }
      IsPrev(largest, s);
      current, at := largest, if s == 0 then |all| else s - 1;
    }

    lemma IsPrev(largest: Option<nat>, s: nat)
      requires Union(all, lists) && BelowAll(all, lists, pos, s) && s <= |all|
      requires largest.None? ==> forall j | 0 <= j < |lists| :: pos[j] >= |lists[j]|
      requires largest.Some? ==> largest.value < |lists| && pos[largest.value] < |lists[largest.value]|
      requires largest.Some? ==> forall j | 0 <= j < |lists| && pos[j] < |lists[j]| ::
                 lists[largest.value][pos[largest.value]].key >= lists[j][pos[j]].key
      ensures largest.None? <==> s == 0
      ensures largest.Some? ==> lists[largest.value][pos[largest.value]] == all[s - 1]
    {
      if s > 0 {
        var c := BelowHasPrev(all, lists, pos, s);
        InUnion(all, lists, largest.value, pos[largest.value]);
      } else if largest.Some? {
        assert StandsBelow(all, lists[largest.value], pos[largest.value], s);
        InUnion(all, lists, largest.value, pos[largest.value]);
      }
    }

    method SeekToFirst()
      requires Ok()
      modifies this
      ensures Ok() && at == 0
    {
      for i := 0 to |lists|
        invariant |pos| == |lists| && forall j | 0 <= j < i :: CutAt(all, lists[j], pos[j], 0)
        invariant unchanged(`direction) && Union(all, lists) && all == MergeAll(lists)
      {
        FirstIsCut(all, lists, i);
        pos := pos[i := 0];
      }
      direction := Forward;
      FindSmallest(0);
    }

    method SeekToLast()
      requires Ok()
      modifies this
      ensures Ok() && at == if all == [] then |all| else |all| - 1
    {
      for i := 0 to |lists|
        invariant |pos| == |lists| && forall j | 0 <= j < i :: StandsBelow(all, lists[j], pos[j], |all|)
        invariant Union(all, lists) && all == MergeAll(lists)
      {
        pos := pos[i := LastIndex(lists[i])];
      }
      direction := Reverse;
      FindLargest(|all|);
    }

    // The first item at or after target.
    method Seek(target: real)
      requires Ok()
      modifies this
      ensures Ok() && at == LowerIndex(all, target)
    {
      ghost var s := LowerIndex(all, target);
      for i := 0 to |lists|
        invariant |pos| == |lists| && forall j | 0 <= j < i :: CutAt(all, lists[j], pos[j], s)
        invariant Union(all, lists) && all == MergeAll(lists)
      {
        SeekCuts(all, lists, i, target);
        pos := pos[i := LowerIndex(lists[i], target)];
      }
      direction := Forward;
      FindSmallest(s);
    }

    // Positions every other child at its first item after the current one.
    method PositionAfter()
      requires Ok() && Valid()
      modifies this`pos
      ensures |pos| == |lists| && pos[current.value] == old(pos)[current.value]
      ensures CutAll(all, lists, pos, at)
    {
      hide CutAt, Below, BelowAll;
      var c, key := current.value, Key();
      SeeksToItself(all, at);
      BelowIsCut(all, lists[c], pos[c], at);
      for i := 0 to |lists|
        invariant |pos| == |lists| && pos[c] == old(pos)[c]
        invariant forall j | 0 <= j < i :: CutAt(all, lists[j], pos[j], at)
      {
        if i != c {
          SeekCuts(all, lists, i, key);
          var p := LowerIndex(lists[i], key);
          var same := p < |lists[i]| && lists[i][p].key == key;
          pos := pos[i := if same then p + 1 else p];
        }
      }
    }

    method Next()
      requires Ok() && Valid()
      modifies this
      ensures Ok() && at == old(at) + 1
    {
      hide CutAt, Below, BelowAll, MergeAll, Apart;
      if direction != Forward {
        PositionAfter();
        direction := Forward;
      }
      var c := current.value;
      StepOver(all, lists, pos, c, at);
      pos := pos[c := pos[c] + 1];
      FindSmallest(at + 1);
    }

    // Positions every other child at its last item before the current one.
    method PositionBefore()
      requires Ok() && Valid()
      modifies this`pos
      ensures |pos| == |lists| && pos[current.value] == old(pos)[current.value]
      ensures forall i | 0 <= i < |lists| && i != current.value :: StandsBelow(all, lists[i], pos[i], at)
    {
      hide CutAll, BelowAll, StandsBelow, CutAt, MergeAll;
      var c, key := current.value, Key();
      SeeksToItself(all, at);
      for i := 0 to |lists|
        invariant |pos| == |lists| && pos[c] == old(pos)[c]
        invariant forall j | 0 <= j < i && j != c :: StandsBelow(all, lists[j], pos[j], at)
      {
        if i != c {
          SeekCuts(all, lists, i, key);
          var p := LowerIndex(lists[i], key);
          StandsBeforeCut(all, lists[i], p, at);
          pos := pos[i := if p < |lists[i]| then Before(lists[i], p) else LastIndex(lists[i])];
        }
      }
    }

    method Prev()
      requires Ok() && Valid()
      modifies this
      ensures Ok() && at == if old(at) == 0 then |all| else old(at) - 1
    {
      hide CutAt, Below, StandsBelow, MergeAll, Apart;
      if direction != Reverse {
        PositionBefore();
        direction := Reverse;
      }
      var c := current.value;
      StepBack(all, lists, pos, c, at);
      pos := pos[c := Before(lists[c], pos[c])];
      FindLargest(at);
    }
  }

  lemma StandsBeforeCut(all: seq<Item>, list: seq<Item>, p: nat, s: nat)
    requires CutAt(all, list, p, s)
    ensures StandsBelow(all, list, if p < |list| then Before(list, p) else LastIndex(list), s)
  {
  }

  lemma FirstIsCut(all: seq<Item>, lists: seq<seq<Item>>, i: nat)
    requires Union(all, lists) && i < |lists|
    ensures CutAt(all, lists[i], 0, 0)
  {
    forall j | 0 <= j < |lists[i]| ensures !Below(all, lists[i][j], 0) {
      InUnion(all, lists, i, j);
    }
  }

  lemma SeeksToItself(all: seq<Item>, s: nat)
    requires Sorted(all) && s < |all|
    ensures LowerIndex(all, all[s].key) == s
  {
  }

  // Seeking every child cuts them all at the union's own seek position.
  lemma SeekCuts(all: seq<Item>, lists: seq<seq<Item>>, i: nat, target: real)
    requires Union(all, lists) && i < |lists|
    ensures CutAt(all, lists[i], LowerIndex(lists[i], target), LowerIndex(all, target))
  {
    hide Union, LowerIndex;
    var s := LowerIndex(all, target);
    forall j | 0 <= j < |lists[i]| ensures Below(all, lists[i][j], s) <==> lists[i][j].key < target {
      BelowSeek(all, lists, i, j, target);
    }
    ChildSorted(all, lists, i);
  }

  lemma BelowSeek(all: seq<Item>, lists: seq<seq<Item>>, i: nat, j: nat, target: real)
    requires Union(all, lists) && i < |lists| && j < |lists[i]|
    ensures Below(all, lists[i][j], LowerIndex(all, target)) <==> lists[i][j].key < target
  {
    hide LowerIndex;
    InUnion(all, lists, i, j);
  }

  // A child standing on the union's item s is cut there.
  lemma BelowIsCut(all: seq<Item>, list: seq<Item>, p: nat, s: nat)
    requires Sorted(all) && Sorted(list) && s < |all| && p < |list| && list[p] == all[s]
    ensures CutAt(all, list, p, s)
  {
    forall j | 0 <= j < |list| ensures j < p <==> Below(all, list[j], s) {
    }
  }

  // Past the union's item s, every child is cut at s + 1.
  lemma StepOver(all: seq<Item>, lists: seq<seq<Item>>, pos: seq<nat>, c: nat, s: nat)
    requires Union(all, lists) && |pos| == |lists| && c < |lists| && s < |all|
    requires pos[c] < |lists[c]| && lists[c][pos[c]] == all[s]
    requires forall i | 0 <= i < |lists| :: CutAt(all, lists[i], pos[i], s)
    ensures CutAll(all, lists, pos[c := pos[c] + 1], s + 1)
  {
    forall i | 0 <= i < |lists| ensures CutAt(all, lists[i], pos[c := pos[c] + 1][i], s + 1) {
      forall j | 0 <= j < |lists[i]|
        ensures Below(all, lists[i][j], s + 1) <==> Below(all, lists[i][j], s) || lists[i][j].key == all[s].key
      {
        InUnion(all, lists, i, j);
      }
    }
  }

  lemma StepBack(all: seq<Item>, lists: seq<seq<Item>>, pos: seq<nat>, c: nat, s: nat)
    requires Union(all, lists) && |pos| == |lists| && c < |lists| && s < |all|
    requires pos[c] < |lists[c]| && lists[c][pos[c]] == all[s]
    requires (forall i | 0 <= i < |lists| && i != c :: StandsBelow(all, lists[i], pos[i], s))
             || BelowAll(all, lists, pos, s + 1)
    ensures BelowAll(all, lists, pos[c := Before(lists[c], pos[c])], s)
  {
    BelowIsCut(all, lists[c], pos[c], s);
    forall i | 0 <= i < |lists| && i != c ensures StandsBelow(all, lists[i], pos[i], s) {
      if StandsBelow(all, lists[i], pos[i], s + 1) {
        forall j | 0 <= j < |lists[i]| ensures Below(all, lists[i][j], s + 1) <==> Below(all, lists[i][j], s) {
          InUnion(all, lists, i, j);
        }
      }
    }
  }
}
