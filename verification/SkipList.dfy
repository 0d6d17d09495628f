/**
 The memtable's index (db/skiplist): a skip list that one writer changes one pointer store
 at a time while readers follow its links.  Nodes live in an arena and are never freed, so
 a pointer is an index into it.
 */
module SkipLists {
  import opened Coding

  // The rank of a key in the comparator's order.
  type Key = real

  const MAX_HEIGHT: nat := 12
  const HEAD: nat := 0

  datatype Link = Null | To(node: nat)
  datatype Node = Node(key: Key, next: seq<Link>)

  // Every allocated node by key, the head first, and the number of levels at which each is
  // linked: a node is in the list once it is linked at level 0.
  datatype Layout = Layout(order: seq<nat>, up: seq<nat>)

  // ---------- levels

  // q is the first place after p that is linked at level l; |up| when there is none.
  ghost predicate IsNext(up: seq<nat>, p: nat, l: nat, q: nat) {
    && p < q <= |up| && (q < |up| ==> up[q] > l)
    && forall r | p < r < q :: up[r] <= l
  }

  ghost function NextUp(up: seq<nat>, p: nat, l: nat): (q: nat)
    requires p < |up|
    ensures IsNext(up, p, l, q)
    decreases |up| - p
  {
    if p + 1 == |up| || up[p + 1] > l then p + 1 else NextUp(up, p + 1, l)
  }

  lemma NextUpIs(up: seq<nat>, p: nat, l: nat, q: nat)
    requires p < |up| && IsNext(up, p, l, q)
    ensures NextUp(up, p, l) == q
  {
    hide NextUp;
    var q' := NextUp(up, p, l);
  }

  ghost function LinkAt(order: seq<nat>, q: nat): Link {
    if q < |order| then To(order[q]) else Null
  }

  ghost predicate Shape(arena: seq<Node>, maxHeight: nat, lay: Layout) {
    && |lay.order| == |lay.up| >= 1 && lay.order[0] == HEAD && lay.up[0] == MAX_HEIGHT
    && 1 <= maxHeight <= MAX_HEIGHT
    && (forall p | 0 <= p < |lay.order| :: lay.order[p] < |arena| && lay.up[p] <= |arena[lay.order[p]].next|)
    && (forall p | 0 < p < |lay.order| :: lay.up[p] <= maxHeight && lay.order[p] != HEAD)
    && (forall p, q | 0 < p < q < |lay.order| :: arena[lay.order[p]].key < arena[lay.order[q]].key)
  }

  // Link l of the node at place p leads to the next node of that level.
  ghost predicate LinkOk(arena: seq<Node>, lay: Layout, p: nat, l: nat) {
    && p < |lay.order| && p < |lay.up| && lay.order[p] < |arena| && l < |arena[lay.order[p]].next|
    && arena[lay.order[p]].next[l] == LinkAt(lay.order, NextUp(lay.up, p, l))
  }

  // Each level is a sorted sublist of the level below.
  ghost predicate Linked(arena: seq<Node>, maxHeight: nat, lay: Layout) {
    && Shape(arena, maxHeight, lay)
    && forall p, l | 0 <= p < |lay.order| && 0 <= l < lay.up[p] :: LinkOk(arena, lay, p, l)
  }

  ghost function KeysOf(arena: seq<Node>, lay: Layout): set<Key>
    requires |lay.order| == |lay.up|
    requires forall p | 0 <= p < |lay.order| :: lay.order[p] < |arena|
  {
    set p | 0 < p < |lay.order| && lay.up[p] > 0 :: arena[lay.order[p]].key
  }

  ghost predicate InList(lay: Layout, n: nat) {
    && |lay.order| == |lay.up|
    && exists p :: 0 < p < |lay.order| && lay.order[p] == n && lay.up[p] > 0
  }

  // The node at place p is the last one linked at level l before key.
  ghost predicate IsPrev(arena: seq<Node>, lay: Layout, p: nat, l: nat, key: Key)
    requires |lay.order| == |lay.up|
    requires forall p | 0 <= p < |lay.order| :: lay.order[p] < |arena|
  {
    && p < |lay.order| && lay.up[p] > l && (p == 0 || arena[lay.order[p]].key < key)
    && forall q | p < q < |lay.order| && lay.up[q] > l :: arena[lay.order[q]].key >= key
  }

  // r is the first of the keys at or after target.
  ghost predicate IsFirstFrom(keys: set<Key>, target: Key, r: Option<Key>) {
    match r
    case None => forall k | k in keys :: k < target
    case Some(x) => x in keys && x >= target && forall k | k in keys && k >= target :: x <= k
  }

  function KeyAt(arena: seq<Node>, n: Link): Option<Key>
    requires n.To? ==> n.node < |arena|
  {
    if n.To? then Some(arena[n.node].key) else None
  }

  // Following links from place p at level l stops at the last node before key.
  lemma StopsAtPrev(arena: seq<Node>, maxHeight: nat, lay: Layout, p: nat, l: nat, key: Key)
    requires Linked(arena, maxHeight, lay) && p < |lay.order| && lay.up[p] > l
    requires p == 0 || arena[lay.order[p]].key < key
    ensures var next := arena[lay.order[p]].next[l];
            && (next.To? ==> next.node < |arena| && NextUp(lay.up, p, l) < |lay.order|
                             && lay.order[NextUp(lay.up, p, l)] == next.node)
            && (next.Null? || arena[next.node].key >= key ==> IsPrev(arena, lay, p, l, key))
  {
    hide NextUp;
    var q := NextUp(lay.up, p, l);
    assert LinkOk(arena, lay, p, l);
    var next := arena[lay.order[p]].next[l];
    if next.Null? || arena[next.node].key >= key {
      forall r | p < r < |lay.order| && lay.up[r] > l ensures arena[lay.order[r]].key >= key {
        assert q <= r;
      }
    }
  }

  lemma AfterPrevIsFirst(arena: seq<Node>, maxHeight: nat, lay: Layout, p: nat, key: Key)
    requires Linked(arena, maxHeight, lay) && IsPrev(arena, lay, p, 0, key)
    ensures var next := arena[lay.order[p]].next[0];
            && (next.To? ==> next.node < |arena| && InList(lay, next.node))
            && IsFirstFrom(KeysOf(arena, lay), key, KeyAt(arena, next))
  {
    hide NextUp;
    var q := NextUp(lay.up, p, 0);
    assert LinkOk(arena, lay, p, 0);
    forall k | k in KeysOf(arena, lay) && k >= key ensures q < |lay.order| && arena[lay.order[q]].key <= k {
      var r :| 0 < r < |lay.order| && lay.up[r] > 0 && arena[lay.order[r]].key == k;
      assert q <= r;
    }
  }

  // ---------- the list

  class SkipList {
    var arena: seq<Node>
    var maxHeight: nat
    ghost var lay: Layout

    ghost predicate Ok()
      reads this
    {
      Linked(arena, maxHeight, lay)
    }

    ghost function Keys(): set<Key>
      requires Ok()
      reads this
    {
      KeysOf(arena, lay)
    }

    // No insertion is under way.
    ghost predicate Settled()
      reads this
    {
      forall p | 0 <= p < |lay.up| :: lay.up[p] > 0
    }

    constructor ()
      ensures Ok() && Settled() && Keys() == {}
    {
      arena := [Node(0.0, seq(MAX_HEIGHT, _ => Null))];
      maxHeight := 1;
      lay := Layout([HEAD], [MAX_HEIGHT]);
    }

    // The first node at or after key, and the last node before key at each level.
    method FindGreaterOrEqual(key: Key) returns (node: Link, prev: seq<nat>, ghost at: seq<nat>)
      requires Ok()
      ensures node.To? ==> node.node < |arena| && InList(lay, node.node)
      ensures IsFirstFrom(Keys(), key, KeyAt(arena, node))
      ensures |prev| == |at| == MAX_HEIGHT
      ensures forall l | 0 <= l < maxHeight :: IsPrev(arena, lay, at[l], l, key) && prev[l] == lay.order[at[l]]
    {
      prev, at := seq(MAX_HEIGHT, _ => HEAD), seq(MAX_HEIGHT, _ => 0);
      var x: nat := HEAD;
      ghost var p: nat := 0;
      var level := maxHeight - 1;
      while true
        invariant 0 <= level < maxHeight
        invariant p < |lay.order| && lay.order[p] == x && lay.up[p] > level && (p == 0 || arena[x].key < key)
        invariant |prev| == |at| == MAX_HEIGHT
        invariant forall l | level < l < maxHeight ::
                    IsPrev(arena, lay, at[l], l, key) && prev[l] == lay.order[at[l]]
        decreases level, |lay.order| - p
      {
        var next := arena[x].next[level];
        StopsAtPrev(arena, maxHeight, lay, p, level, key);
        if next.To? && arena[next.node].key < key {
          p := NextUp(lay.up, p, level);
          x := next.node;
        } else {
          prev, at := prev[level := x], at[level := p];
          if level == 0 {
            AfterPrevIsFirst(arena, maxHeight, lay, p, key);
            node := next;
            return;
          }
          level := level - 1;
        }
      }
    }

    method Contains(key: Key) returns (found: bool)
      requires Ok()
      ensures found <==> key in Keys()
    {
      var x, _, _ := FindGreaterOrEqual(key);
      found := x.To? && arena[x.node].key == key;
    }

    // The last node before key; the head when there is none.
    method FindLessThan(key: Key) returns (x: nat)
      requires Ok()
      ensures x < |arena| && (x == HEAD || InList(lay, x))
      ensures if x == HEAD then forall k | k in Keys() :: k >= key
              else arena[x].key in Keys() && arena[x].key < key && forall k | k in Keys() && k < key :: k <= arena[x].key
    {
      x := HEAD;
      ghost var p: nat := 0;
      var level := maxHeight - 1;
      while true
        invariant 0 <= level < maxHeight
        invariant p < |lay.order| && lay.order[p] == x && lay.up[p] > level && (p == 0 || arena[x].key < key)
        decreases level, |lay.order| - p
      {
        var next := arena[x].next[level];
        StopsAtPrev(arena, maxHeight, lay, p, level, key);
        if next.Null? || arena[next.node].key >= key {
          if level == 0 {
            return;
          }
          level := level - 1;
        } else {
          p := NextUp(lay.up, p, level);
          x := next.node;
        }
      }
    }

    // The last node of all; the head when the list is empty.
    method FindLast() returns (x: nat)
      requires Ok()
      ensures x < |arena| && (x == HEAD || InList(lay, x))
      ensures if x == HEAD then Keys() == {}
              else arena[x].key in Keys() && forall k | k in Keys() :: k <= arena[x].key
    {
      x := HEAD;
      ghost var p: nat := 0;
      var level := maxHeight - 1;
      while true
        invariant 0 <= level < maxHeight
        invariant p < |lay.order| && lay.order[p] == x && lay.up[p] > level
        decreases level, |lay.order| - p
      {
        var next := arena[x].next[level];
        assert LinkOk(arena, lay, p, level);
        if next.Null? {
          if level == 0 {
            return;
          }
          level := level - 1;
        } else {
          p := NextUp(lay.up, p, level);
          x := next.node;
        }
      }
    }

    lemma NothingUnlinked(key: Key)
      requires Ok() && Settled() && key !in Keys()
      ensures Unused(arena, lay, key)
    {
    }

    method Insert(key: Key, height: nat)
      requires Ok() && Settled() && key !in Keys() && 1 <= height <= MAX_HEIGHT
      modifies this
      ensures Ok() && Settled() && Keys() == old(Keys()) + {key}
    {
      hide Linked, KeysOf, Inserting, LinkOk, Unused;
      NothingUnlinked(key);
      var w := new Inserter(this, key, height);
      w.Begin();
      while w.i < height
        invariant w.Ok() && w.list == this && w.key == key && w.height == height && w.begun
        invariant fresh(w)
        invariant Keys() == if w.i == 0 then old(Keys()) else old(Keys()) + {key}
        invariant forall p | 0 <= p < |lay.up| && (p != w.m || w.i > 0) :: lay.up[p] > 0
        decreases height - w.i, !w.stored
      {
        w.Store();
      }
    }

    // A node that nothing points to yet, and the new height.
    method Allocate(key: Key, height: nat, ghost m: nat)
      requires height <= MAX_HEIGHT && m <= |lay.order| == |lay.up|
      modifies `arena, `lay, `maxHeight
      ensures lay == WithRoom(old(lay), m, |old(arena)|)
      ensures arena == old(arena) + [NewNode(key, height)]
      ensures maxHeight == if height > old(maxHeight) then height else old(maxHeight)
    {
      lay := WithRoom(lay, m, |arena|);
      arena := arena + [NewNode(key, height)];
      if height > maxHeight {
        maxHeight := height;
      }
    }
  }

  // ---------- iteration

  class Iterator {
    const list: SkipList
    var node: Link

    ghost predicate Ok()
      reads this, list
    {
      && list.Ok()
      && (node.To? ==> InList(list.lay, node.node))
    }

    ghost function Position(): Option<Key>
      requires Ok()
      reads this, list
    {
      KeyAt(list.arena, node)
    }

    constructor (list: SkipList)
      requires list.Ok()
      ensures Ok() && Position() == None && this.list == list
    {
      this.list := list;
      node := Null;
    }

    method Seek(target: Key)
      requires Ok()
      modifies this
      ensures Ok() && IsFirstFrom(list.Keys(), target, Position())
    {
      var n, prev, at := list.FindGreaterOrEqual(target);
      node := n;
    }

    method SeekToFirst()
      requires Ok()
      modifies this
      ensures Ok()
      ensures if node.Null? then list.Keys() == {}
              else Position().value in list.Keys() && forall k | k in list.Keys() :: k >= Position().value
    {
      hide NextUp;
      assert LinkOk(list.arena, list.lay, 0, 0);
      node := list.arena[HEAD].next[0];
      ghost var q := NextUp(list.lay.up, 0, 0);
      assert node.To? ==> list.lay.order[q] == node.node && list.lay.up[q] > 0;
      forall k | k in list.Keys() ensures node.To? && k >= list.arena[node.node].key {
        var r :| 0 < r < |list.lay.order| && list.lay.up[r] > 0 && list.arena[list.lay.order[r]].key == k;
        assert q <= r;
      }
    }

    method SeekToLast()
      requires Ok()
      modifies this
      ensures Ok()
      ensures if node.Null? then list.Keys() == {}
              else Position().value in list.Keys() && forall k | k in list.Keys() :: k <= Position().value
    {
      var x := list.FindLast();
      node := if x == HEAD then Null else To(x);
    }

    // To the first key after the current one.
    method Next()
      requires Ok() && node.To?
      modifies this
      ensures Ok()
      ensures node.To? ==> Position().value in list.Keys() && Position().value > old(Position().value)
      ensures forall k | k in list.Keys() && k > old(Position().value) :: node.To? && k >= Position().value
    {
      hide NextUp;
      ghost var p: nat :| 0 < p < |list.lay.order| && list.lay.order[p] == node.node && list.lay.up[p] > 0;
      ghost var at := list.arena[node.node].key;
      assert LinkOk(list.arena, list.lay, p, 0);
      node := list.arena[node.node].next[0];
      ghost var q := NextUp(list.lay.up, p, 0);
      assert node.To? ==> list.lay.order[q] == node.node && list.lay.up[q] > 0;
      forall k | k in list.Keys() && k > at ensures node.To? && k >= list.arena[node.node].key {
        var r :| 0 < r < |list.lay.order| && list.lay.up[r] > 0 && list.arena[list.lay.order[r]].key == k;
        assert q <= r;
      }
    }

    // To the last key before the current one, by searching for it from the head.
    method Prev()
      requires Ok() && node.To?
      modifies this
      ensures Ok()
      ensures node.To? ==> Position().value in list.Keys() && Position().value < old(Position().value)
      ensures forall k | k in list.Keys() && k < old(Position().value) :: node.To? && k <= Position().value
    {
      var x := list.FindLessThan(list.arena[node.node].key);
      node := if x == HEAD then Null else To(x);
    }
  }

  // ---------- the writer, one store at a time

  // p is the last place before m linked at level l.
  ghost predicate Splice(up: seq<nat>, p: nat, m: nat, l: nat)
    requires m < |up|
  {
    p < m && up[p] > l && forall q | p < q < m :: up[q] <= l
  }

  // No node of this key has been allocated.
  ghost predicate Unused(arena: seq<Node>, lay: Layout, key: Key) {
    forall p | 0 < p < |lay.order| && lay.order[p] < |arena| :: arena[lay.order[p]].key != key
  }

  // The node at place m is linked at its first i levels, and prev holds its predecessors at
  // the others.
  ghost predicate Inserting(arena: seq<Node>, lay: Layout, m: nat, x: nat, i: nat, prev: seq<nat>, at: seq<nat>)
  {
    && 0 < m < |lay.order| == |lay.up| && lay.order[m] == x < |arena| && lay.up[m] == i
    && |prev| == |at| == MAX_HEIGHT && |arena[x].next| <= MAX_HEIGHT
    && forall l | i <= l < |arena[x].next| ::
         Splice(lay.up, at[l], m, l) && at[l] < |lay.order| && prev[l] == lay.order[at[l]]
  }

  class Inserter {
    const list: SkipList
    const key: Key
    const height: nat
    var begun: bool
    var prev: seq<nat>
    var x: nat
    // Levels linked so far, and whether the new node's own link for the next one is stored.
    var i: nat
    var stored: bool
    ghost var m: nat
    ghost var at: seq<nat>

    ghost predicate Ok()
      reads this, list
    {
      && list.Ok() && 1 <= height <= MAX_HEIGHT
      && (!begun ==> i == 0 && !stored && Unused(list.arena, list.lay, key))
      && (begun ==>
            && i <= height <= list.maxHeight
            && Inserting(list.arena, list.lay, m, x, i, prev, at)
            && list.arena[x].key == key && |list.arena[x].next| == height
            && (stored ==> i < height && LinkOk(list.arena, list.lay, m, i)))
    }

    constructor (list: SkipList, key: Key, height: nat)
      requires list.Ok() && 1 <= height <= MAX_HEIGHT && Unused(list.arena, list.lay, key)
      ensures Ok() && !begun && this.list == list && this.key == key && this.height == height
    {
      this.list, this.key, this.height := list, key, height;
      begun, prev, x, i, stored := false, [], HEAD, 0, false;
      m, at := 0, [];
    }

    // Once linked at level 0 the node is in the list.
    lemma Published()
      requires Ok() && begun && i > 0
      ensures key in list.Keys()
    {
      assert list.lay.up[m] > 0 && list.lay.order[m] == x;
    }

    // Finds the neighbours, raises the height and allocates the node: nothing is linked yet.
    method Begin()
      requires Ok() && !begun
      modifies this, list
      ensures Ok() && begun && i == 0 && !stored
      ensures list.Keys() == old(list.Keys())
      ensures Extends(old(list.lay), list.lay, m) && SameKeys(old(list.arena), list.arena)
    {
      hide LinkOk, NextUp, Inserting, KeysOf;
      var first: Link, p: seq<nat>, a: seq<nat> := list.FindGreaterOrEqual(key);
      var l := list.maxHeight;
      while l < height
        invariant unchanged(list) && unchanged(this) && list.Ok()
        invariant list.maxHeight <= l && |p| == |a| == MAX_HEIGHT
        invariant forall j | 0 <= j < l && j < MAX_HEIGHT ::
                    IsPrev(list.arena, list.lay, a[j], j, key) && p[j] == list.lay.order[a[j]]
      {
        AboveTheTop(list.arena, list.maxHeight, list.lay, l, key);
        p, a := p[l := HEAD], a[l := 0];
        l := l + 1;
      }
      ghost var place := PlaceOf(list.arena, list.lay.order, key, 1);
      RoomMade(list.arena, list.maxHeight, list.lay, key, height, place, p, a);
      prev, at, m, x := p, a, place, |list.arena|;
      begun := true;
      list.Allocate(key, height, place);
    }

    // One pointer store: the new node's own link at level i, then the link to it.
    method Store()
      requires Ok() && begun && i < height
      modifies this, list
      ensures Ok() && begun && x == old(x) && m == old(m)
      ensures if old(stored) then i == old(i) + 1 && !stored else i == old(i) && stored
      ensures m < |old(list.lay).up| && list.lay == old(list.lay).(up := old(list.lay).up[m := i])
      ensures old(list.lay).up[m] <= i && SameKeys(old(list.arena), list.arena)
      ensures list.Keys() == if i == 0 then old(list.Keys()) else old(list.Keys()) + {key}
    {
      hide Linked, LinkOk, Splice;
      if !stored {
        OwnLinkStored(list.arena, list.maxHeight, list.lay, m, x, i, prev, at);
        list.arena := SetNext(list.arena, x, i, list.arena[prev[i]].next[i]);
        stored := true;
      } else {
        LinkStored(list.arena, list.maxHeight, list.lay, m, x, i, prev, at);
        list.arena := SetNext(list.arena, prev[i], i, To(x));
        list.lay := list.lay.(up := list.lay.up[m := i + 1]);
        i, stored := i + 1, false;
      }
    }
  }

  // ---------- a reader, one load at a time

  // Nodes are never moved, freed or given another key.
  ghost predicate SameKeys(before: seq<Node>, after: seq<Node>) {
    |before| <= |after| && forall j | 0 <= j < |before| :: after[j].key == before[j].key
  }

  // The reader stands on a node that is linked at its level, before the target.
  ghost predicate Standing(arena: seq<Node>, lay: Layout, x: nat, level: nat, target: Key) {
    && x < |arena| && |lay.up| == |lay.order|
    && exists p :: 0 <= p < |lay.order| && lay.order[p] == x && lay.up[p] > level && (p == 0 || arena[x].key < target)
  }

  // No step of the writer takes the reader's footing away.
  lemma StandsThroughBegin(arena: seq<Node>, lay: Layout, arena': seq<Node>, lay': Layout, m: nat,
                           x: nat, level: nat, target: Key)
    requires Standing(arena, lay, x, level, target)
    requires SameKeys(arena, arena') && Extends(lay, lay', m)
    ensures Standing(arena', lay', x, level, target)
  {
    var p :| 0 <= p < |lay.order| && lay.order[p] == x && lay.up[p] > level && (p == 0 || arena[x].key < target);
    var p' := if p < m then p else p + 1;
    assert lay'.order[p'] == x && lay'.up[p'] > level;
  }

  lemma StandsThroughStore(arena: seq<Node>, lay: Layout, arena': seq<Node>, m: nat, i: nat,
                           x: nat, level: nat, target: Key)
    requires Standing(arena, lay, x, level, target)
    requires SameKeys(arena, arena') && m < |lay.up| && lay.up[m] <= i
    ensures Standing(arena', lay.(up := lay.up[m := i]), x, level, target)
  {
    var p :| 0 <= p < |lay.order| && lay.order[p] == x && lay.up[p] > level && (p == 0 || arena[x].key < target);
    assert lay.up[m := i][p] > level;
  }

  class Reader {
    const list: SkipList
    const target: Key
    var started: bool
    var done: bool
    var x: nat
    var level: nat
    var result: Option<Key>

    ghost predicate Ok()
      reads this, list
    {
      list.Ok() && (started && !done ==> Standing(list.arena, list.lay, x, level, target))
    }

    constructor (list: SkipList, target: Key)
      requires list.Ok()
      ensures Ok() && !done && this.list == list && this.target == target
    {
      this.list, this.target := list, target;
      started, done, x, level, result := false, false, HEAD, 0, None;
    }

    // FindGreaterOrEqual's next load.
    method Step()
      requires Ok() && !done
      modifies this
      ensures Ok()
      ensures done ==> IsFirstFrom(list.Keys(), target, result)
    {
      hide NextUp;
      if !started {
        started, x, level := true, HEAD, list.maxHeight - 1;
        assert list.lay.order[0] == x;
        return;
      }
      ghost var p: nat :| p < |list.lay.order| && list.lay.order[p] == x && list.lay.up[p] > level
                          && (p == 0 || list.arena[x].key < target);
      assert LinkOk(list.arena, list.lay, p, level);
      StopsAtPrev(list.arena, list.maxHeight, list.lay, p, level, target);
      var next := list.arena[x].next[level];
      if next.To? && list.arena[next.node].key < target {
        x := next.node;
        assert list.lay.order[NextUp(list.lay.up, p, level)] == x;
      } else if level == 0 {
        AfterPrevIsFirst(list.arena, list.maxHeight, list.lay, p, target);
        done, result := true, KeyAt(list.arena, next);
      } else {
        level := level - 1;
      }
    }
  }

  // A reader and a writer take turns as the schedule says; the reader answers for the keys
  // before the insertion or for those after it.
  method Race(list: SkipList, key: Key, height: nat, target: Key, schedule: seq<bool>)
    returns (done: bool, found: Option<Key>)
    requires list.Ok() && list.Settled() && key !in list.Keys() && 1 <= height <= MAX_HEIGHT
    modifies list
    ensures list.Ok()
    ensures list.Keys() == old(list.Keys()) || list.Keys() == old(list.Keys()) + {key}
    ensures done ==> IsFirstFrom(old(list.Keys()), target, found)
                     || IsFirstFrom(old(list.Keys()) + {key}, target, found)
  {
    var w := new Inserter(list, key, height);
    var reader := new Reader(list, target);
    for t := 0 to |schedule|
      invariant w.Ok() && w.list == list && w.key == key && w.height == height && fresh(w)
      invariant reader.Ok() && reader.list == list && reader.target == target && fresh(reader)
      invariant list.Keys() == if w.i == 0 then old(list.Keys()) else old(list.Keys()) + {key}
      invariant reader.done ==> IsFirstFrom(old(list.Keys()), target, reader.result)
                                || IsFirstFrom(old(list.Keys()) + {key}, target, reader.result)
    {
      if schedule[t] {
        StepWriter(w, reader);
      } else if !reader.done {
        reader.Step();
      }
    }
    done, found := reader.done, reader.result;
  }

  // The writer's next step, if it has one left.
  method StepWriter(w: Inserter, ghost reader: Reader)
    requires w.Ok() && reader.Ok() && reader.list == w.list
    modifies w, w.list
    ensures w.Ok() && reader.Ok() && w.i >= old(w.i)
    ensures w.list.Keys() == if w.i == 0 then old(w.list.Keys()) else old(w.list.Keys()) + {w.key}
  {
    hide Linked, Standing, Inserting, LinkOk;
    ghost var arena, lay := w.list.arena, w.list.lay;
    if !w.begun {
      w.Begin();
      if reader.started && !reader.done {
        StandsThroughBegin(arena, lay, w.list.arena, w.list.lay, w.m, reader.x, reader.level, reader.target);
      }
    } else if w.i == w.height {
      w.Published();
    } else {
      w.Store();
      if reader.started && !reader.done {
        StandsThroughStore(arena, lay, w.list.arena, w.m, w.i, reader.x, reader.level, reader.target);
      }
    }
  }

  // ---------- what each store does to the levels

  function NewNode(key: Key, height: nat): Node {
    Node(key, seq(height, _ => Null))
  }

  function SetNext(arena: seq<Node>, n: nat, l: nat, link: Link): (r: seq<Node>)
    requires n < |arena| && l < |arena[n].next|
    ensures |r| == |arena|
    ensures forall j | 0 <= j < |arena| :: r[j].key == arena[j].key && |r[j].next| == |arena[j].next|
    ensures forall j, k | 0 <= j < |arena| && 0 <= k < |arena[j].next| ::
              r[j].next[k] == if j == n && k == l then link else arena[j].next[k]
  {
    arena[n := Node(arena[n].key, arena[n].next[l := link])]
  }

  // The first place from p on whose key is not before key.
  ghost function PlaceOf(arena: seq<Node>, order: seq<nat>, key: Key, p: nat): (m: nat)
    requires p <= |order| && forall q | 0 <= q < |order| :: order[q] < |arena|
    ensures p <= m <= |order|
    ensures forall q | p <= q < m :: arena[order[q]].key < key
    ensures m < |order| ==> arena[order[m]].key >= key
    decreases |order| - p
  {
    if p == |order| || arena[order[p]].key >= key then p else PlaceOf(arena, order, key, p + 1)
  }

  ghost function WithRoom(lay: Layout, m: nat, x: nat): Layout
    requires m <= |lay.order| == |lay.up|
  {
    Layout(lay.order[..m] + [x] + lay.order[m..], lay.up[..m] + [0] + lay.up[m..])
  }

  ghost predicate Extends(before: Layout, after: Layout, m: nat) {
    && m < |after.order| && 0 < m <= |before.order| == |before.up|
    && after == WithRoom(before, m, after.order[m])
  }

  lemma AboveTheTop(arena: seq<Node>, maxHeight: nat, lay: Layout, l: nat, key: Key)
    requires Linked(arena, maxHeight, lay) && maxHeight <= l < MAX_HEIGHT
    ensures IsPrev(arena, lay, 0, l, key)
  {
  }

  // Room for an unlinked node changes no link.
  lemma MakeRoom(up: seq<nat>, m: nat, p: nat, l: nat)
    requires 0 < m <= |up| && p < |up|
    ensures var q := NextUp(up, p, l);
            NextUp(up[..m] + [0] + up[m..], if p < m then p else p + 1, l) == if q < m then q else q + 1
  {
    hide NextUp;
    var up' := up[..m] + [0] + up[m..];
    var p' := if p < m then p else p + 1;
    var q := NextUp(up, p, l);
    forall r | p' < r < (if q < m then q else q + 1) ensures up'[r] <= l {
      assert r < m ==> up'[r] == up[r];
      assert r > m ==> up'[r] == up[r - 1];
    }
    NextUpIs(up', p', l, if q < m then q else q + 1);
  }

  // Linking node m at level l, the next one it had not, changes only links that lead past it.
  lemma RaiseOne(up: seq<nat>, m: nat, p: nat, l: nat)
    requires m < |up| && p < |up|
    ensures var raised, q := up[m := up[m] + 1], NextUp(up, p, l);
            NextUp(raised, p, l) == if l == up[m] && p < m < q then m else q
  {
    hide NextUp;
    var raised, q := up[m := up[m] + 1], NextUp(up, p, l);
    NextUpIs(raised, p, l, if l == up[m] && p < m < q then m else q);
  }

  lemma RoomMade(arena: seq<Node>, maxHeight: nat, lay: Layout, key: Key, height: nat, m: nat,
                 prev: seq<nat>, at: seq<nat>)
    requires Linked(arena, maxHeight, lay) && Unused(arena, lay, key) && 1 <= height <= MAX_HEIGHT
    requires m == PlaceOf(arena, lay.order, key, 1) && |prev| == |at| == MAX_HEIGHT
    requires forall l | 0 <= l < height :: IsPrev(arena, lay, at[l], l, key) && prev[l] == lay.order[at[l]]
    ensures var arena', lay' := arena + [NewNode(key, height)], WithRoom(lay, m, |arena|);
            var maxHeight' := if height > maxHeight then height else maxHeight;
            && Linked(arena', maxHeight', lay') && KeysOf(arena', lay') == KeysOf(arena, lay)
            && Inserting(arena', lay', m, |arena|, 0, prev, at)
  {
    var arena', lay' := arena + [NewNode(key, height)], WithRoom(lay, m, |arena|);
    var maxHeight' := if height > maxHeight then height else maxHeight;
    hide NextUp, LinkOk, Splice, IsPrev;
    RoomShape(arena, maxHeight, lay, key, height, m);
    RoomKeys(arena, maxHeight, lay, key, height, m);
    RoomLinks(arena, maxHeight, lay, key, height, m);
    RoomSplices(arena, maxHeight, lay, key, height, m, at);
  }

  // Where the places of the old order are in the new one.
  lemma RoomAt(arena: seq<Node>, maxHeight: nat, lay: Layout, node: Node, m: nat, p: nat)
    requires Shape(arena, maxHeight, lay) && 0 < m <= |lay.order| && p < |lay.order|
    ensures var arena', lay' := arena + [node], WithRoom(lay, m, |arena|);
            var p' := if p < m then p else p + 1;
            && |lay'.order| == |lay'.up| == |lay.order| + 1 && lay'.up[m] == 0
            && lay'.order[p'] == lay.order[p] < |arena| && lay'.up[p'] == lay.up[p]
            && arena'[lay'.order[p']] == arena[lay.order[p]]
  {
  }

  lemma RoomShape(arena: seq<Node>, maxHeight: nat, lay: Layout, key: Key, height: nat, m: nat)
    requires Shape(arena, maxHeight, lay) && Unused(arena, lay, key) && 1 <= height <= MAX_HEIGHT
    requires m == PlaceOf(arena, lay.order, key, 1)
    ensures Shape(arena + [NewNode(key, height)], if height > maxHeight then height else maxHeight,
                  WithRoom(lay, m, |arena|))
  {
    hide PlaceOf;
    var arena', lay' := arena + [NewNode(key, height)], WithRoom(lay, m, |arena|);
    forall p, q | 0 < p < q < |lay'.order| ensures arena'[lay'.order[p]].key < arena'[lay'.order[q]].key {
      RoomSorted(arena, maxHeight, lay, key, height, m, p, q);
    }
    RoomPlaces(arena, maxHeight, lay, key, height, m);
  }

  lemma RoomPlaces(arena: seq<Node>, maxHeight: nat, lay: Layout, key: Key, height: nat, m: nat)
    requires Shape(arena, maxHeight, lay) && 1 <= height <= MAX_HEIGHT && 0 < m <= |lay.order|
    ensures var arena', lay' := arena + [NewNode(key, height)], WithRoom(lay, m, |arena|);
            && |lay'.order| == |lay'.up| && lay'.order[0] == HEAD && lay'.up[0] == MAX_HEIGHT
            && forall p | 0 <= p < |lay'.order| ::
                 && lay'.order[p] < |arena'| && lay'.up[p] <= |arena'[lay'.order[p]].next|
                 && (p > 0 ==> lay'.up[p] <= maxHeight && lay'.order[p] != HEAD)
  {
    var arena', lay' := arena + [NewNode(key, height)], WithRoom(lay, m, |arena|);
    forall p | 0 <= p < |lay'.order|
      ensures lay'.order[p] < |arena'| && lay'.up[p] <= |arena'[lay'.order[p]].next|
      ensures p > 0 ==> lay'.up[p] <= maxHeight && lay'.order[p] != HEAD
    {
      if p != m {
        RoomAt(arena, maxHeight, lay, NewNode(key, height), m, if p < m then p else p - 1);
      }
    }
  }

  lemma RoomSorted(arena: seq<Node>, maxHeight: nat, lay: Layout, key: Key, height: nat, m: nat, p: nat, q: nat)
    requires Shape(arena, maxHeight, lay) && Unused(arena, lay, key)
    requires m == PlaceOf(arena, lay.order, key, 1) && 0 < p < q <= |lay.order|
    ensures var arena', lay' := arena + [NewNode(key, height)], WithRoom(lay, m, |arena|);
            && lay'.order[p] < |arena'| && lay'.order[q] < |arena'|
            && arena'[lay'.order[p]].key < arena'[lay'.order[q]].key
  {
    hide PlaceOf;
    var node := NewNode(key, height);
    var p0, q0 := if p < m then p else p - 1, if q < m then q else q - 1;
    if p != m {
      RoomAt(arena, maxHeight, lay, node, m, p0);
    }
    if q != m {
      RoomAt(arena, maxHeight, lay, node, m, q0);
    }
    assert p == m && q0 > m ==> arena[lay.order[m]].key < arena[lay.order[q0]].key;
  }

  lemma RoomKeys(arena: seq<Node>, maxHeight: nat, lay: Layout, key: Key, height: nat, m: nat)
    requires Shape(arena, maxHeight, lay) && 0 < m <= |lay.order|
    requires var lay' := WithRoom(lay, m, |arena|);
             forall p | 0 <= p < |lay'.order| :: lay'.order[p] < |arena| + 1
    ensures KeysOf(arena + [NewNode(key, height)], WithRoom(lay, m, |arena|)) == KeysOf(arena, lay)
  {
    hide KeysOf, NewNode;
    var arena', lay' := arena + [NewNode(key, height)], WithRoom(lay, m, |arena|);
    forall k ensures k in KeysOf(arena', lay') <==> k in KeysOf(arena, lay) {
      RoomKey(arena, maxHeight, lay, NewNode(key, height), m, k);
    }
  }

  lemma RoomKey(arena: seq<Node>, maxHeight: nat, lay: Layout, node: Node, m: nat, k: Key)
    requires Shape(arena, maxHeight, lay) && 0 < m <= |lay.order|
    requires var lay' := WithRoom(lay, m, |arena|);
             forall p | 0 <= p < |lay'.order| :: lay'.order[p] < |arena| + 1
    ensures k in KeysOf(arena + [node], WithRoom(lay, m, |arena|)) <==> k in KeysOf(arena, lay)
  {
    hide WithRoom;
    var arena', lay' := arena + [node], WithRoom(lay, m, |arena|);
    RoomAt(arena, maxHeight, lay, node, m, 0);
    if k in KeysOf(arena, lay) {
      var p :| 0 < p < |lay.order| && lay.up[p] > 0 && arena[lay.order[p]].key == k;
      RoomAt(arena, maxHeight, lay, node, m, p);
      assert arena'[lay'.order[if p < m then p else p + 1]].key == k;
    }
    if k in KeysOf(arena', lay') {
      var p' :| 0 < p' < |lay'.order| && lay'.up[p'] > 0 && arena'[lay'.order[p']].key == k;
      RoomAt(arena, maxHeight, lay, node, m, if p' < m then p' else p' - 1);
    }
  }

  lemma RoomLinks(arena: seq<Node>, maxHeight: nat, lay: Layout, key: Key, height: nat, m: nat)
    requires Linked(arena, maxHeight, lay) && 0 < m <= |lay.order|
    ensures var arena', lay' := arena + [NewNode(key, height)], WithRoom(lay, m, |arena|);
            forall p, l | 0 <= p < |lay'.order| && 0 <= l < lay'.up[p] :: LinkOk(arena', lay', p, l)
  {
    hide NextUp, IsNext;
    var arena', lay' := arena + [NewNode(key, height)], WithRoom(lay, m, |arena|);
    forall p, l | 0 <= p < |lay'.order| && 0 <= l < lay'.up[p] ensures LinkOk(arena', lay', p, l) {
      var p0 := if p < m then p else p - 1;
      assert LinkOk(arena, lay, p0, l);
      MakeRoom(lay.up, m, p0, l);
    }
  }

  lemma RoomSplices(arena: seq<Node>, maxHeight: nat, lay: Layout, key: Key, height: nat, m: nat, at: seq<nat>)
    requires Shape(arena, maxHeight, lay) && height <= |at|
    requires m == PlaceOf(arena, lay.order, key, 1)
    requires forall l | 0 <= l < height :: IsPrev(arena, lay, at[l], l, key)
    ensures var lay' := WithRoom(lay, m, |arena|);
            forall l | 0 <= l < height :: Splice(lay'.up, at[l], m, l) && lay'.order[at[l]] == lay.order[at[l]]
  {
    forall l | 0 <= l < height
      ensures var lay' := WithRoom(lay, m, |arena|);
              Splice(lay'.up, at[l], m, l) && lay'.order[at[l]] == lay.order[at[l]]
    {
      assert IsPrev(arena, lay, at[l], l, key);
      assert at[l] < m;
    }
  }

  lemma OwnLinkStored(arena: seq<Node>, maxHeight: nat, lay: Layout, m: nat, x: nat, i: nat,
                      prev: seq<nat>, at: seq<nat>)
    requires Linked(arena, maxHeight, lay) && Inserting(arena, lay, m, x, i, prev, at)
    requires i < |arena[x].next|
    ensures prev[i] < |arena| && i < |arena[prev[i]].next|
    ensures var arena' := SetNext(arena, x, i, arena[prev[i]].next[i]);
            && Linked(arena', maxHeight, lay) && LinkOk(arena', lay, m, i)
            && KeysOf(arena', lay) == KeysOf(arena, lay)
            && Inserting(arena', lay, m, x, i, prev, at)
  {
    hide NextUp;
    assert Splice(lay.up, at[i], m, i);
    assert LinkOk(arena, lay, at[i], i);
    NextUpIs(lay.up, m, i, NextUp(lay.up, at[i], i));
    var arena' := SetNext(arena, x, i, arena[prev[i]].next[i]);
    forall p, l | 0 <= p < |lay.order| && 0 <= l < lay.up[p] ensures LinkOk(arena', lay, p, l) {
      assert LinkOk(arena, lay, p, l);
    }
  }

  lemma LinkStored(arena: seq<Node>, maxHeight: nat, lay: Layout, m: nat, x: nat, i: nat,
                   prev: seq<nat>, at: seq<nat>)
    requires Linked(arena, maxHeight, lay) && Inserting(arena, lay, m, x, i, prev, at)
    requires i < |arena[x].next| <= maxHeight && LinkOk(arena, lay, m, i)
    ensures prev[i] < |arena| && i < |arena[prev[i]].next|
    ensures var arena', lay' := SetNext(arena, prev[i], i, To(x)), lay.(up := lay.up[m := i + 1]);
            && Linked(arena', maxHeight, lay')
            && KeysOf(arena', lay') == KeysOf(arena, lay) + {arena[x].key}
            && Inserting(arena', lay', m, x, i + 1, prev, at)
  {
    hide NextUp, KeysOf, LinkOk, SetNext, Splice;
    LinksAfter(arena, maxHeight, lay, m, x, i, prev, at);
    KeysAfter(arena, SetNext(arena, prev[i], i, To(x)), lay, m, i);
    SplicesAfter(lay.up, m, i, at, |arena[x].next|);
  }

  lemma LinksAfter(arena: seq<Node>, maxHeight: nat, lay: Layout, m: nat, x: nat, i: nat,
                   prev: seq<nat>, at: seq<nat>)
    requires Linked(arena, maxHeight, lay) && Inserting(arena, lay, m, x, i, prev, at)
    requires i < |arena[x].next| <= maxHeight && LinkOk(arena, lay, m, i)
    ensures prev[i] < |arena| && i < |arena[prev[i]].next|
    ensures var arena', lay' := SetNext(arena, prev[i], i, To(x)), lay.(up := lay.up[m := i + 1]);
            forall p, l | 0 <= p < |lay'.order| && 0 <= l < lay'.up[p] :: LinkOk(arena', lay', p, l)
  {
    hide NextUp;
    assert Splice(lay.up, at[i], m, i);
    var arena', lay' := SetNext(arena, prev[i], i, To(x)), lay.(up := lay.up[m := i + 1]);
    NextUpIs(lay'.up, at[i], i, m);
    forall p, l | 0 <= p < |lay'.order| && 0 <= l < lay'.up[p] ensures LinkOk(arena', lay', p, l) {
      assert LinkOk(arena, lay, p, l);
      RaiseOne(lay.up, m, p, l);
    }
  }

  lemma SplicesAfter(up: seq<nat>, m: nat, i: nat, at: seq<nat>, height: nat)
    requires m < |up| && up[m] == i && height <= |at|
    requires forall l | i <= l < height :: Splice(up, at[l], m, l)
    ensures forall l | i < l < height :: Splice(up[m := i + 1], at[l], m, l)
  {
  }

  // Linking the node at place m adds its key.
  lemma KeysAfter(arena: seq<Node>, arena': seq<Node>, lay: Layout, m: nat, i: nat)
    requires |lay.order| == |lay.up| && |arena'| == |arena| && 0 < m < |lay.order|
    requires forall p | 0 <= p < |lay.order| :: lay.order[p] < |arena|
    requires forall j | 0 <= j < |arena| :: arena'[j].key == arena[j].key
    ensures KeysOf(arena', lay.(up := lay.up[m := i + 1])) == KeysOf(arena, lay) + {arena[lay.order[m]].key}
  {
    var lay' := lay.(up := lay.up[m := i + 1]);
    forall p | 0 < p < |lay.order| ensures arena'[lay'.order[p]].key == arena[lay.order[p]].key
      && (p != m ==> lay'.up[p] == lay.up[p]) {
    }
    forall p | 0 < p < |lay.order| && lay.up[p] > 0 ensures arena[lay.order[p]].key in KeysOf(arena', lay') {
      assert lay'.up[p] > 0;
    }
    assert lay'.up[m] > 0;
  }
}
