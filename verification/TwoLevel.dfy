/**
 TwoLevelIterator (table/two_level_iterator): an index iterator whose values name blocks,
 shown as one cursor over the concatenation of the blocks.
 */
module TwoLevels {
  import opened Coding
  import opened Cursors

  type Handle = Bytes

  // Index entry b: a key not before any of its block's and before the next block's, and the
  // block's handle.
  datatype IndexEntry = IndexEntry(key: real, handle: Handle)
  datatype DataIter = DataIter(items: seq<Item>, pos: nat)

  // ---------- the concatenation

  function Concat(blocks: seq<seq<Item>>): seq<Item> {
    if blocks == [] then [] else Concat(blocks[..|blocks| - 1]) + blocks[|blocks| - 1]
  }

  // Where block b starts.
  function Start(blocks: seq<seq<Item>>, b: nat): (n: nat)
    requires b <= |blocks|
  {
    |Concat(blocks[..b])|
  }

  lemma {:induction false} StartIs(blocks: seq<seq<Item>>, b: nat)
    requires b < |blocks|
    ensures Start(blocks, b + 1) == Start(blocks, b) + |blocks[b]| <= |Concat(blocks)|
    ensures Concat(blocks)[Start(blocks, b)..Start(blocks, b + 1)] == blocks[b]
    decreases |blocks|
  {
    var last := |blocks| - 1;
    assert blocks[..b + 1][..b] == blocks[..b];
    if b < last {
      StartIs(blocks[..last], b);
      assert blocks[..last][..b] == blocks[..b] && blocks[..last][..b + 1] == blocks[..b + 1];
      var c := Concat(blocks[..last]);
      assert Concat(blocks)[Start(blocks, b)..Start(blocks, b + 1)] == c[Start(blocks, b)..Start(blocks, b + 1)];
    } else {
      assert blocks[..b + 1] == blocks;
    }
  }

  lemma StartsAtEnd(blocks: seq<seq<Item>>)
    ensures Start(blocks, 0) == 0 && Start(blocks, |blocks|) == |Concat(blocks)|
  {
    assert blocks[..|blocks|] == blocks;
  }

  // The block that holds place n of the concatenation.
  lemma {:induction false} Locate(blocks: seq<seq<Item>>, n: nat) returns (b: nat)
    requires n < |Concat(blocks)|
    ensures b < |blocks| && Start(blocks, b) <= n < Start(blocks, b + 1)
    ensures n - Start(blocks, b) < |blocks[b]| && Concat(blocks)[n] == blocks[b][n - Start(blocks, b)]
    decreases |blocks|
  {
    var last := |blocks| - 1;
    StartsAtEnd(blocks);
    if n >= |Concat(blocks[..last])| {
      b := last;
    } else {
      b := Locate(blocks[..last], n);
      assert blocks[..last][..b] == blocks[..b] && blocks[..last][..b + 1] == blocks[..b + 1];
    }
  }

  lemma {:induction false} StartsIncrease(blocks: seq<seq<Item>>, b: nat, c: nat)
    requires b <= c <= |blocks|
    ensures Start(blocks, b) <= Start(blocks, c)
    decreases c - b
  {
    if b < c {
      StartIs(blocks, b);
      StartsIncrease(blocks, b + 1, c);
    }
  }

  // The index entry a seek lands on: the first one whose key is not before target.
  function IndexSeek(index: seq<IndexEntry>, target: real): (b: nat)
    ensures b <= |index|
    ensures forall c | 0 <= c < b :: index[c].key < target
    ensures b < |index| ==> index[b].key >= target
  {
    if index == [] || index[0].key >= target then 0 else 1 + IndexSeek(index[1..], target)
  }

  // Seeking in the block the index leads to finds the place a seek in the whole would find.
  lemma SeekLands(index: seq<IndexEntry>, blocks: seq<seq<Item>>, target: real)
    requires Separates(index, blocks)
    ensures LowerIndex(Concat(blocks), target) == SeekPlace(index, blocks, target)
  {
    hide IndexSeek, SeekPlace, Concat;
    var n := SeekPlace(index, blocks, target);
    forall j | 0 <= j < |Concat(blocks)| ensures j < n <==> Concat(blocks)[j].key < target {
      SeekSplits(index, blocks, target, j);
    }
    var k := LowerIndex(Concat(blocks), target);
    assert k < |Concat(blocks)| ==> Concat(blocks)[k].key >= target;
    assert n < |Concat(blocks)| ==> Concat(blocks)[n].key >= target;
  }

  function SeekPlace(index: seq<IndexEntry>, blocks: seq<seq<Item>>, target: real): (n: nat)
    requires |index| == |blocks|
    ensures n <= |Concat(blocks)|
  {
    var b := IndexSeek(index, target);
    if b < |index| then
      StartIs(blocks, b);
      Start(blocks, b) + LowerIndex(blocks[b], target)
    else |Concat(blocks)|
  }

  lemma SeekSplits(index: seq<IndexEntry>, blocks: seq<seq<Item>>, target: real, j: nat)
    requires Separates(index, blocks) && j < |Concat(blocks)|
    ensures j < SeekPlace(index, blocks, target) <==> Concat(blocks)[j].key < target
  {
    hide Concat, IndexSeek, Start, LowerIndex;
    var b := IndexSeek(index, target);
    var c := Locate(blocks, j);
    if c < b {
      StartsIncrease(blocks, c + 1, b);
      assert index[c].key < target;
    } else if c > b {
      StartsIncrease(blocks, b + 1, c);
      StartIs(blocks, b);
    }
  }

  ghost predicate Separates(index: seq<IndexEntry>, blocks: seq<seq<Item>>) {
    && |index| == |blocks|
    && (forall b | 0 <= b < |blocks| :: Sorted(blocks[b]))
    && (forall b, i | 0 <= b < |blocks| && 0 <= i < |blocks[b]| :: blocks[b][i].key <= index[b].key)
    && (forall b, c, i | 0 <= b < c < |blocks| && 0 <= i < |blocks[c]| :: index[b].key < blocks[c][i].key)
    && (forall b, c | 0 <= b < c < |blocks| :: index[b].key < index[c].key)
  }

  class TwoLevelIterator {
    const index: seq<IndexEntry>
    // The block function: a handle always names the same block.
    const blockFunction: Handle -> seq<Item>
    var indexPos: nat
    var data: Option<DataIter>
    var dataBlockHandle: Handle
    ghost const blocks: seq<seq<Item>>
    // The place in the concatenation; its length when not valid.
    ghost var at: nat

    ghost predicate Built()
      reads this
    {
      && |blocks| == |index| && (forall b | 0 <= b < |blocks| :: blocks[b] == blockFunction(index[b].handle))
      && indexPos <= |index|
      && (data.Some? ==> data.value.items == blockFunction(dataBlockHandle) && data.value.pos <= |data.value.items|)
    }

    ghost predicate Ok()
      reads this
    {
      && Built() && at <= |Concat(blocks)|
      && (Valid() <==> at < |Concat(blocks)|)
      && (Valid() ==>
            && indexPos < |index| && data.value.items == blocks[indexPos]
            && at == Start(blocks, indexPos) + data.value.pos
            && Concat(blocks)[at] == data.value.items[data.value.pos])
    }

    constructor (index: seq<IndexEntry>, blockFunction: Handle -> seq<Item>)
      ensures Ok() && !Valid() && this.index == index && this.blockFunction == blockFunction
    {
      this.index, this.blockFunction := index, blockFunction;
      indexPos, data, dataBlockHandle := |index|, None, [];
      blocks := seq(|index|, b requires 0 <= b < |index| => blockFunction(index[b].handle));
      new;
      at := |Concat(blocks)|;
    }

    predicate Valid()
      reads this
    {
      data.Some? && data.value.pos < |data.value.items|
    }

    function Key(): (k: real)
      requires Ok() && Valid()
      reads this
      ensures k == Concat(blocks)[at].key
    {
      data.value.items[data.value.pos].key
    }

    function Value(): (v: Bytes)
      requires Ok() && Valid()
      reads this
      ensures v == Concat(blocks)[at].value
    {
      data.value.items[data.value.pos].value
    }

    // Opens the block the index stands on, unless it is open already.
    method InitDataBlock()
      requires Built()
      modifies this`data, this`dataBlockHandle
      ensures Built()
      ensures if indexPos < |index| then data.Some? && data.value.items == blocks[indexPos] else data.None?
    {
      if indexPos >= |index| {
        data := None;
      } else {
        var handle := index[indexPos].handle;
        if data.Some? && handle == dataBlockHandle {
          // already open
        } else {
          dataBlockHandle := handle;
          data := Some(DataIter(blockFunction(handle), 0));
        }
      }
    }

    // Moves to the place n that the cursors describe, or on to the next block that has one.
    method SkipEmptyDataBlocksForward(ghost n: nat)
      requires Built() && StandsAt(n)
      modifies this
      ensures Ok() && at == n
    {
      while data.None? || data.value.pos >= |data.value.items|
        invariant Built() && StandsAt(n)
        decreases |index| - indexPos, data.Some?
      {
        if indexPos >= |index| {
          StartsAtEnd(blocks);
          data := None;
          at := n;
          return;
        }
        NextBlock(n);
      }
      StartIs(blocks, indexPos);
      at := n;
      Indexing(indexPos, n);
    }

    method NextBlock(ghost n: nat)
      requires Built() && StandsAt(n) && indexPos < |index| && data.value.pos >= |data.value.items|
      modifies `indexPos, `data, `dataBlockHandle
      ensures Built() && StandsAt(n) && indexPos == old(indexPos) + 1
    {
      StartIs(blocks, indexPos);
      indexPos := indexPos + 1;
      InitDataBlock();
      if data.Some? {
        data := Some(data.value.(pos := 0));
      }
      StartsAtEnd(blocks);
    }

    // The cursors stand at place n of the concatenation; at its end when the index is at its end.
    ghost predicate StandsAt(n: nat)
      requires Built()
      reads this
    {
      if indexPos < |index| then
        data.Some? && data.value.items == blocks[indexPos] && n == Start(blocks, indexPos) + data.value.pos
      else data.None? && n == |Concat(blocks)|
    }

    // Moves to the place before m, or on to the previous block that has one.
    method SkipEmptyDataBlocksBackward(ghost m: nat)
      requires Built() && StandsBefore(m)
      modifies this
      ensures Ok() && at == if m == 0 then |Concat(blocks)| else m - 1
    {
      while data.None? || data.value.pos >= |data.value.items|
        invariant Built() && StandsBefore(m)
        decreases if indexPos < |index| then indexPos + 1 else 0, data.Some?
      {
        if indexPos >= |index| {
          data := None;
          at := |Concat(blocks)|;
          return;
        }
        PreviousBlock(m);
      }
      StartIs(blocks, indexPos);
      at := m - 1;
      Indexing(indexPos, m - 1);
    }

    method PreviousBlock(ghost m: nat)
      requires Built() && StandsBefore(m) && indexPos < |index| && data.value.pos >= |data.value.items|
      modifies `indexPos, `data, `dataBlockHandle
      ensures Built() && StandsBefore(m)
      ensures indexPos == if old(indexPos) == 0 then |index| else old(indexPos) - 1
    {
      hide Concat;
      StartsAtEnd(blocks);
      indexPos := if indexPos == 0 then |index| else indexPos - 1;
      InitDataBlock();
      if data.Some? {
        StartIs(blocks, indexPos);
        data := Some(data.value.(pos := LastIndex(data.value.items)));
      }
    }

    // Everything from place m on was passed going backwards.
    ghost predicate StandsBefore(m: nat)
      requires Built()
      reads this
    {
      if indexPos < |index| then
        && data.Some? && data.value.items == blocks[indexPos]
        && m == Start(blocks, indexPos) + if data.value.pos < |data.value.items| then data.value.pos + 1 else 0
      else data.None? && m == 0
    }

    method SeekToFirst()
      requires Ok()
      modifies this
      ensures Ok() && at == 0
    {
      indexPos := 0;
      InitDataBlock();
      if data.Some? {
        data := Some(data.value.(pos := 0));
      }
      StartsAtEnd(blocks);
      SkipEmptyDataBlocksForward(0);
    }

    method SeekToLast()
      requires Ok()
      modifies this
      ensures Ok() && at == Before(Concat(blocks), |Concat(blocks)|)
    {
      indexPos := if |index| == 0 then 0 else |index| - 1;
      InitDataBlock();
      if data.Some? {
        data := Some(data.value.(pos := LastIndex(data.value.items)));
        StartIs(blocks, indexPos);
      }
      StartsAtEnd(blocks);
      SkipEmptyDataBlocksBackward(|Concat(blocks)|);
    }

    method Next()
      requires Ok() && Valid()
      modifies this
      ensures Ok() && at == old(at) + 1
    {
      data := Some(data.value.(pos := data.value.pos + 1));
      SkipEmptyDataBlocksForward(at + 1);
    }

    method Prev()
      requires Ok() && Valid()
      modifies this
      ensures Ok() && at == Before(Concat(blocks), old(at))
    {
      data := Some(data.value.(pos := Before(data.value.items, data.value.pos)));
      SkipEmptyDataBlocksBackward(at);
    }

    // The first item at or after target.
    method Seek(target: real)
      requires Ok() && Separates(index, blocks)
      modifies this
      ensures Ok() && at == LowerIndex(Concat(blocks), target)
    {
      indexPos := IndexSeek(index, target);
      InitDataBlock();
      if data.Some? {
        data := Some(data.value.(pos := LowerIndex(data.value.items, target)));
      }
      SeekLands(index, blocks, target);
      SkipEmptyDataBlocksForward(SeekPlace(index, blocks, target));
    }

    lemma Indexing(b: nat, n: nat)
      requires b < |blocks| && Start(blocks, b) <= n < Start(blocks, b) + |blocks[b]|
      ensures n < |Concat(blocks)| && Concat(blocks)[n] == blocks[b][n - Start(blocks, b)]
    {
      StartIs(blocks, b);
      var s := Concat(blocks)[Start(blocks, b)..Start(blocks, b + 1)];
      assert s[n - Start(blocks, b)] == Concat(blocks)[n];
    }
  }
}
