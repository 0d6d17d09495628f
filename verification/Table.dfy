/**
 Tables (table/table_builder, table/table): sorted entries cut into blocks, an index of
 keys that separate the blocks, and a filter block.
 */
module Tables {
  import opened Coding
  import opened Entries
  import opened Filters

  // ---------- separators

  const MAX_TAG: nat := PackSequenceAndType(MAX_SEQUENCE, TYPE_FOR_SEEK)

  // A user comparator's results, and whether the key string became shorter.
  datatype Comparator = Comparator(separator: (UserKey, UserKey) -> (UserKey, bool), successor: UserKey -> (UserKey, bool))

  ghost predicate KeepsOrder(c: Comparator) {
    && (forall a, b :: a < b ==> a <= c.separator(a, b).0 < b)
    && (forall a, b :: !(a < b) ==> c.separator(a, b).0 == a)
    && (forall a :: a <= c.successor(a).0)
  }

  // InternalKeyComparator::FindShortestSeparator and FindShortSuccessor.
  function ShortestSeparator(c: Comparator, start: IKey, limit: IKey): IKey {
    var (tmp, shorter) := c.separator(start.user, limit.user);
    if shorter && start.user < tmp then IKey(tmp, MAX_TAG) else start
  }

  function ShortSuccessor(c: Comparator, key: IKey): IKey {
    var (tmp, shorter) := c.successor(key.user);
    if shorter && key.user < tmp then IKey(tmp, MAX_TAG) else key
  }

  // A separator is not before start and is before limit; it has limit's user key only if it
  // is start.
  lemma SeparatorSeparates(c: Comparator, start: IKey, limit: IKey)
    requires KeepsOrder(c) && Less(start, limit)
    ensures var s := ShortestSeparator(c, start, limit);
            !Less(s, start) && Less(s, limit) && (s.user == limit.user ==> s == start)
  {
  }

  // ---------- the first entry from a key on

  ghost predicate IsFirst(E: set<Entry>, k: IKey, e: Entry) {
    && e in E && !Less(InternalKey(e), k)
    && forall x | x in E && !Less(InternalKey(x), k) :: x == e || Before(e, x)
  }

  lemma FirstIsSought(es: seq<Entry>, k: IKey, e: Entry)
    requires Sorted(es)
    ensures IsFirst(Content(es), k, e) <==> SeekIndex(es, k) < |es| && es[SeekIndex(es, k)] == e
  {
    var i := SeekIndex(es, k);
    forall x | x in Content(es) && !Less(InternalKey(x), k) ensures i < |es| && (x == es[i] || Before(es[i], x)) {
      var j :| 0 <= j < |es| && es[j] == x;
    }
  }

  // ---------- blocks, index and filters

  datatype IndexEntry = IndexEntry(key: IKey, handle: nat)

  // The index key of a block is not before its entries, is before every later entry, and
  // has a later entry's user key only if it is the block's last key.
  ghost predicate Separator(key: IKey, block: seq<Entry>, later: set<Entry>) {
    && block != []
    && (forall e | e in block :: !Less(key, InternalKey(e)))
    && (forall e | e in later :: Less(key, InternalKey(e)))
    && (forall e | e in later && e.key == key.user :: key == InternalKey(block[|block| - 1]))
  }

  // The entries of the blocks from b on.
  ghost function From(blocks: seq<seq<Entry>>, b: nat): set<Entry>
    decreases |blocks| - b
  {
    if b >= |blocks| then {} else Content(blocks[b]) + From(blocks, b + 1)
  }

  lemma {:induction false} InFrom(blocks: seq<seq<Entry>>, b: nat, e: Entry)
    ensures e in From(blocks, b) <==> exists c :: b <= c < |blocks| && e in blocks[c]
    decreases |blocks| - b
  {
    if b < |blocks| {
      InFrom(blocks, b + 1, e);
    }
  }

  // The blocks of a table, each behind its index entry.
  ghost predicate Indexed(blocks: seq<seq<Entry>>, index: seq<IndexEntry>, file: map<nat, seq<Entry>>) {
    && |index| == |blocks|
    && (forall b | 0 <= b < |blocks| ::
          && Sorted(blocks[b]) && index[b].handle in file && file[index[b].handle] == blocks[b]
          && Separator(index[b].key, blocks[b], From(blocks, b + 1)))
  }

  // The filter of a block's offset was made from the key.
  ghost predicate InFilter(filters: seq<seq<UserKey>>, offset: nat, u: UserKey) {
    offset / FILTER_BASE < |filters| && u in filters[offset / FILTER_BASE]
  }

  ghost predicate Filtered(blocks: seq<seq<Entry>>, index: seq<IndexEntry>, filters: seq<seq<UserKey>>)
    requires |index| == |blocks|
  {
    forall b, e | 0 <= b < |blocks| && e in blocks[b] :: InFilter(filters, index[b].handle, e.key)
  }

  // ---------- lookups

  // The first index entry that is not before k.
  function IndexSeek(index: seq<IndexEntry>, k: IKey): (b: nat)
    ensures b <= |index|
    ensures forall c | 0 <= c < b :: Less(index[c].key, k)
    ensures b < |index| ==> !Less(index[b].key, k)
  {
    if index == [] || !Less(index[0].key, k) then 0 else 1 + IndexSeek(index[1..], k)
  }

  lemma NotBefore(blocks: seq<seq<Entry>>, index: seq<IndexEntry>, file: map<nat, seq<Entry>>, k: IKey, c: nat, x: Entry)
    requires Indexed(blocks, index, file) && c < |blocks| && x in blocks[c] && !Less(InternalKey(x), k)
    ensures IndexSeek(index, k) <= c
  {
    assert Separator(index[c].key, blocks[c], From(blocks, c + 1));
    hide From, IndexSeek;
  }

  // No entry from k on lies before the block that the index leads to.
  lemma NoneEarlier(blocks: seq<seq<Entry>>, index: seq<IndexEntry>, file: map<nat, seq<Entry>>, k: IKey, x: Entry)
    requires Indexed(blocks, index, file) && x in From(blocks, 0) && !Less(InternalKey(x), k)
    ensures var b := IndexSeek(index, k);
            b < |blocks| && (x in blocks[b] || x in From(blocks, b + 1))
  {
    hide From, IndexSeek, Separator;
    InFrom(blocks, 0, x);
    var c :| 0 <= c < |blocks| && x in blocks[c];
    NotBefore(blocks, index, file, k, c, x);
    InFrom(blocks, IndexSeek(index, k) + 1, x);
  }

  // The first entry from k on is in that block when it has k's user key.
  lemma SameUserInBlock(blocks: seq<seq<Entry>>, index: seq<IndexEntry>, file: map<nat, seq<Entry>>, k: IKey, e: Entry)
    requires Indexed(blocks, index, file) && IsFirst(From(blocks, 0), k, e) && e.key == k.user
    ensures IndexSeek(index, k) < |blocks| && e in blocks[IndexSeek(index, k)]
  {
    hide From, IndexSeek;
    NoneEarlier(blocks, index, file, k, e);
    var b := IndexSeek(index, k);
    if e !in blocks[b] {
      LaterIsAfter(blocks, index, file, k, b);
      var last := blocks[b][|blocks[b]| - 1];
      assert index[b].key.user == e.key;
      assert index[b].key == InternalKey(last);
      InFrom(blocks, 0, last);
    }
  }

  lemma SoughtBlock(blocks: seq<seq<Entry>>, index: seq<IndexEntry>, file: map<nat, seq<Entry>>, k: IKey)
    requires Indexed(blocks, index, file) && IndexSeek(index, k) < |blocks|
    ensures var block := blocks[IndexSeek(index, k)];
            var j := SeekIndex(block, k);
            j < |block| ==> IsFirst(From(blocks, 0), k, block[j])
  {
    assert |index| == |blocks|;
    hide Indexed, IsFirst, From;
    var b := IndexSeek(index, k);
    forall x | x in From(blocks, 0) && !Less(InternalKey(x), k) ensures x in blocks[b] || x in From(blocks, b + 1) {
      NoneEarlier(blocks, index, file, k, x);
    }
    if SeekIndex(blocks[b], k) < |blocks[b]| {
      FirstInBlock(blocks, index, file, k, b, SeekIndex(blocks[b], k));
    }
  }

  lemma LaterIsAfter(blocks: seq<seq<Entry>>, index: seq<IndexEntry>, file: map<nat, seq<Entry>>, k: IKey, b: nat)
    requires Indexed(blocks, index, file) && b < |blocks| && !Less(index[b].key, k)
    ensures Separator(index[b].key, blocks[b], From(blocks, b + 1))
    ensures forall x | x in From(blocks, b + 1) :: !Less(InternalKey(x), k)
  {
  }

  lemma FirstInBlock(blocks: seq<seq<Entry>>, index: seq<IndexEntry>, file: map<nat, seq<Entry>>, k: IKey, b: nat, j: nat)
    requires Indexed(blocks, index, file) && b < |blocks| && j < |blocks[b]| && j == SeekIndex(blocks[b], k)
    requires !Less(index[b].key, k)
    requires forall x | x in From(blocks, 0) && !Less(InternalKey(x), k) :: x in blocks[b] || x in From(blocks, b + 1)
    ensures IsFirst(From(blocks, 0), k, blocks[b][j])
  {
    var e := blocks[b][j];
    InFrom(blocks, 0, e);
    assert Sorted(blocks[b]) && Separator(index[b].key, blocks[b], From(blocks, b + 1));
    FirstIsSought(blocks[b], k, e);
    forall x | x in From(blocks, 0) && !Less(InternalKey(x), k) ensures x == e || Before(e, x) {
      if x in blocks[b] {
        assert x in Content(blocks[b]);
      }
    }
  }

  // ---------- the table

  class Table {
    const index: seq<IndexEntry>
    const file: map<nat, seq<Entry>>
    // Null when the table has no filter.
    const filter: FilterBlockReader?
    ghost const blocks: seq<seq<Entry>>
    ghost const filters: seq<seq<UserKey>>

    ghost predicate Ok()
      reads filter
    {
      && Indexed(blocks, index, file)
      && (filter != null ==> filter.Fits() && filter.Holds(filters) && Filtered(blocks, index, filters))
    }

    ghost function Entries(): set<Entry> {
      From(blocks, 0)
    }

    constructor (index: seq<IndexEntry>, file: map<nat, seq<Entry>>, filterBlock: Option<(Policy, Bytes)>,
                 ghost blocks: seq<seq<Entry>>, ghost filters: seq<seq<UserKey>>)
      requires Indexed(blocks, index, file)
      requires filterBlock.Some? ==>
                 && Filtered(blocks, index, filters) && NoFalseNegatives(filterBlock.value.0)
                 && IsFilterBlock(filterBlock.value.1, filterBlock.value.0, filters)
      ensures Ok() && this.blocks == blocks && (filter == null <==> filterBlock.None?)
    {
      this.index, this.file := index, file;
      this.blocks, this.filters := blocks, filters;
      if filterBlock.Some? {
        filter := new FilterBlockReader(filterBlock.value.0, filterBlock.value.1);
      } else {
        filter := null;
      }
    }

    // Reports the first entry from k on whenever that entry has k's user key, and never any
    // other entry.
    method InternalGet(k: IKey) returns (r: Option<Entry>)
      requires Ok()
      ensures r.Some? ==> IsFirst(Entries(), k, r.value)
      ensures forall e | IsFirst(Entries(), k, e) && e.key == k.user :: r == Some(e)
    {
      hide From, IsFirst, FilterData, IsFilterBlock, NoFalseNegatives;
      r := None;
      var b := IndexSeek(index, k);
      forall e | IsFirst(Entries(), k, e) && e.key == k.user ensures b < |blocks| && e in blocks[b] {
        SameUserInBlock(blocks, index, file, k, e);
      }
      if b < |index| {
        var may := true;
        if filter != null {
          may := filter.KeyMayMatch(index[b].handle, k.user, filters);
        }
        if may {
          var block := file[index[b].handle];
          var i := SeekIndex(block, k);
          SoughtBlock(blocks, index, file, k);
          forall e | IsFirst(Entries(), k, e) ensures e in block ==> i < |block| && e == block[i] {
            if e in block {
              OnlyFirst(Entries(), block, k, e, i);
            }
          }
          if i < |block| {
            r := Some(block[i]);
          }
        }
      }
    }
  }

  lemma OnlyFirst(E: set<Entry>, block: seq<Entry>, k: IKey, e: Entry, i: nat)
    requires IsFirst(E, k, e) && e in block && i == SeekIndex(block, k) && Sorted(block)
    requires i < |block| ==> IsFirst(E, k, block[i])
    ensures i < |block| && e == block[i]
  {
    var j :| 0 <= j < |block| && block[j] == e;
  }

  // ---------- the builder

  const BLOCK_TRAILER: nat := 5

  lemma {:induction false} FromSnoc(blocks: seq<seq<Entry>>, d: seq<Entry>, b: nat)
    requires b <= |blocks|
    ensures From(blocks + [d], b) == From(blocks, b) + Content(d)
    decreases |blocks| - b
  {
    if b < |blocks| {
      FromSnoc(blocks, d, b + 1);
    } else {
      assert From(blocks + [d], b + 1) == {};
    }
  }

  lemma SeparatorGrows(key: IKey, block: seq<Entry>, later: set<Entry>, y: Entry, e: Entry)
    requires Separator(key, block, later) && y in later && Before(y, e)
    ensures Separator(key, block, later + {e})
  {
  }

  lemma SeparatorStarts(c: Comparator, block: seq<Entry>, e: Entry)
    requires KeepsOrder(c) && block != [] && Sorted(block) && Before(block[|block| - 1], e)
    ensures Separator(ShortestSeparator(c, InternalKey(block[|block| - 1]), InternalKey(e)), block, {e})
  {
    var last := block[|block| - 1];
    SeparatorSeparates(c, InternalKey(last), InternalKey(e));
    forall x | x in block ensures x == last || Before(x, last) {
      var j :| 0 <= j < |block| && block[j] == x;
    }
  }

  lemma SuccessorEnds(c: Comparator, block: seq<Entry>)
    requires KeepsOrder(c) && block != [] && Sorted(block)
    ensures Separator(ShortSuccessor(c, InternalKey(block[|block| - 1])), block, {})
  {
    var last := block[|block| - 1];
    var s := c.successor(last.key).0;
    forall x | x in block ensures x == last || Before(x, last) {
      var j :| 0 <= j < |block| && block[j] == x;
    }
  }

  // The index entries separate their blocks from all that follows.
  ghost predicate Separated(cut: seq<seq<Entry>>, index: seq<IndexEntry>) {
    && |index| <= |cut|
    && (forall b | 0 <= b < |cut| :: cut[b] != [] && Sorted(cut[b]))
    && forall b | 0 <= b < |index| :: Separator(index[b].key, cut[b], From(cut, b + 1))
  }

  // Entry e joins the last block.
  lemma AddsToBlock(cut: seq<seq<Entry>>, index: seq<IndexEntry>, e: Entry)
    requires Separated(cut, index) && |cut| > 0 && |index| == |cut| - 1
    requires Before(cut[|cut| - 1][|cut[|cut| - 1]| - 1], e)
    ensures var n := |cut| - 1; Separated(cut[..n] + [cut[n] + [e]], index)
    ensures var n := |cut| - 1; From(cut[..n] + [cut[n] + [e]], 0) == From(cut, 0) + {e}
  {
    var n := |cut| - 1;
    var d := cut[n];
    var last := d[|d| - 1];
    var now := cut[..n] + [d + [e]];
    assert cut == cut[..n] + [d];
    assert Content(d + [e]) == Content(d) + {e};
    forall b | 0 <= b <= n ensures From(now, b) == From(cut, b) + {e} && last in From(cut, b) {
      FromSnoc(cut[..n], d, b);
      FromSnoc(cut[..n], d + [e], b);
    }
    forall b | 0 <= b < |index| ensures Separator(index[b].key, now[b], From(now, b + 1)) {
      SeparatorGrows(index[b].key, cut[b], From(cut, b + 1), last, e);
    }
    SortedSnoc(d, e);
  }

  lemma SortedSnoc(d: seq<Entry>, e: Entry)
    requires Sorted(d) && d != [] && Before(d[|d| - 1], e)
    ensures Sorted(d + [e])
  {
    var all := d + [e];
    forall i | 0 <= i < |d| ensures Before(all[i], e) {
      assert i < |d| - 1 ==> Before(d[i], d[|d| - 1]);
    }
  }

  // Entry e starts a new block, and the last one gets its index entry.
  lemma StartsBlock(c: Comparator, cut: seq<seq<Entry>>, index: seq<IndexEntry>, handle: nat, e: Entry)
    requires KeepsOrder(c) && Separated(cut, index) && |cut| > 0 && |index| == |cut| - 1
    requires Before(cut[|cut| - 1][|cut[|cut| - 1]| - 1], e)
    ensures var d := cut[|cut| - 1];
            var key := ShortestSeparator(c, InternalKey(d[|d| - 1]), InternalKey(e));
            Separated(cut + [[e]], index + [IndexEntry(key, handle)])
    ensures From(cut + [[e]], 0) == From(cut, 0) + {e}
  {
    hide KeepsOrder, Separator, From, ShortestSeparator;
    var n := |cut| - 1;
    var d := cut[n];
    var last := d[|d| - 1];
    var now := cut + [[e]];
    FromStart(cut, e, 0);
    forall b | 0 <= b < n ensures Separator(index[b].key, now[b], From(now, b + 1)) {
      FromStart(cut, e, b + 1);
      SeparatorGrows(index[b].key, cut[b], From(cut, b + 1), last, e);
    }
    SeparatorStarts(c, d, e);
    FromStart(cut, e, |cut|);
    NothingFrom(cut);
    assert From(now, n + 1) == {e};
  }

  lemma FromStart(cut: seq<seq<Entry>>, e: Entry, b: nat)
    requires b <= |cut| && (forall i | 0 <= i < |cut| :: cut[i] != [])
    ensures From(cut + [[e]], b) == From(cut, b) + {e}
    ensures b < |cut| ==> cut[|cut| - 1][|cut[|cut| - 1]| - 1] in From(cut, b)
  {
    FromSnoc(cut, [e], b);
    assert Content([e]) == {e};
    if b < |cut| {
      var n := |cut| - 1;
      assert cut == cut[..n] + [cut[n]];
      FromSnoc(cut[..n], cut[n], b);
    }
  }

  lemma NothingFrom(cut: seq<seq<Entry>>)
    ensures From(cut, |cut|) == {} && {} + From(cut, |cut|) == {}
  {
  }

  // ---------- the filters behind the blocks

  ghost predicate FilterHas(filters: seq<seq<UserKey>>, keys: seq<UserKey>, w: nat, u: UserKey) {
    (w < |filters| && u in filters[w]) || (w == |filters| && u in keys)
  }

  ghost predicate Covered(cut: seq<seq<Entry>>, offsets: seq<nat>, filters: seq<seq<UserKey>>, keys: seq<UserKey>)
    requires |offsets| == |cut|
  {
    forall b, e | 0 <= b < |cut| && e in cut[b] :: FilterHas(filters, keys, offsets[b] / FILTER_BASE, e.key)
  }

  lemma CoveredByStart(cut: seq<seq<Entry>>, offsets: seq<nat>, filters: seq<seq<UserKey>>, keys: seq<UserKey>,
                       filters': seq<seq<UserKey>>, keys': seq<UserKey>)
    requires |offsets| == |cut| && Covered(cut, offsets, filters, keys)
    requires (filters' == filters && keys' == keys)
             || (|filters'| > |filters| && filters'[..|filters| + 1] == filters + [keys])
    ensures Covered(cut, offsets, filters', keys')
  {
    if filters' != filters {
      var p := filters'[..|filters| + 1];
      assert forall w | 0 <= w < |filters| :: filters'[w] == p[w] == filters[w];
      assert filters'[|filters|] == p[|filters|] == keys;
    }
  }

  // ---------- the builder's steps

  class TableBuilder {
    const comparator: Comparator
    const filter: FilterBlockBuilder
    var offset: nat
    var dataBlock: seq<Entry>
    var index: seq<IndexEntry>
    var file: map<nat, seq<Entry>>
    var lastKey: IKey
    var pendingIndexEntry: bool
    var pendingHandle: nat
    // Every block so far, the one under construction last, and where each starts.
    ghost var cut: seq<seq<Entry>>
    ghost var offsets: seq<nat>

    ghost predicate Ok()
      reads this, filter
    {
      && KeepsOrder(comparator) && filter.Ok() && |filter.filters| == offset / FILTER_BASE
      && Layout()
      && Separated(cut, index) && |index| == (if cut == [] then 0 else |cut| - 1)
      && (cut != [] ==> lastKey == InternalKey(Last()))
      && Covered(cut, offsets, filter.filters, filter.keys)
    }

    ghost predicate Layout()
      reads this
    {
      && |offsets| == |cut|
      && (pendingIndexEntry <==> cut != [] && dataBlock == [])
      && (forall b | 0 <= b < |cut| :: cut[b] != [])
      && (dataBlock != [] ==> cut != [] && cut[|cut| - 1] == dataBlock && offsets[|cut| - 1] == offset)
      && (pendingIndexEntry ==> pendingHandle == offsets[|cut| - 1])
      && (forall b | 0 <= b < Flushed() :: offsets[b] < offset && offsets[b] in file && file[offsets[b]] == cut[b])
      && (forall b | 0 <= b < |index| :: b < |cut| && index[b].handle == offsets[b])
    }

    ghost function Flushed(): nat
      reads this
    {
      if dataBlock == [] || cut == [] then |cut| else |cut| - 1
    }

    ghost function Last(): Entry
      requires cut != [] && cut[|cut| - 1] != []
      reads this
    {
      cut[|cut| - 1][|cut[|cut| - 1]| - 1]
    }

    ghost function Entries(): set<Entry>
      reads this
    {
      From(cut, 0)
    }

    constructor (comparator: Comparator, policy: Policy)
      requires KeepsOrder(comparator)
      ensures Ok() && Entries() == {} && fresh(filter) && filter.policy == policy && cut == []
    {
      this.comparator := comparator;
      filter := new FilterBlockBuilder(policy);
      offset, dataBlock, index, file, lastKey := 0, [], [], map[], IKey(0.0, 0);
      pendingIndexEntry, pendingHandle := false, 0;
      cut, offsets := [], [];
      new;
      filter.StartBlock(0);
    }

    // full says whether the block has reached its size, and size is what it takes in the file.
    method Add(e: Entry, full: bool, size: nat)
      requires Ok() && (cut != [] ==> Before(Last(), e))
      modifies this, filter
      ensures Ok() && Entries() == old(Entries()) + {e} && cut != [] && Last() == e
    {
      hide KeepsOrder, Separated, Covered, From, Before;
      AddEntry(e);
      if full {
        Flush(size);
      }
    }

    method AddEntry(e: Entry)
      requires Ok() && (cut != [] ==> Before(Last(), e))
      modifies this, filter
      ensures Ok() && Entries() == old(Entries()) + {e} && cut != [] && Last() == e && dataBlock != []
    {
      if dataBlock == [] {
        OpenBlock(e);
      } else {
        ExtendBlock(e);
      }
    }

    // The first entry of a block also settles the index key of the block before it.
    method OpenBlock(e: Entry)
      requires Ok() && (cut != [] ==> Before(Last(), e)) && dataBlock == []
      modifies this, filter
      ensures Ok() && Entries() == old(Entries()) + {e} && cut != [] && Last() == e && dataBlock != []
    {
      hide KeepsOrder, Separated, Covered, From, Before, ShortestSeparator;
      if pendingIndexEntry {
        index := index + [IndexEntry(ShortestSeparator(comparator, lastKey, InternalKey(e)), pendingHandle)];
        StartsBlock(comparator, cut, old(index), pendingHandle, e);
        pendingIndexEntry := false;
      } else {
        FirstBlock(e);
        NothingFrom(cut);
      }
      ghost var was, wasOffsets := cut, offsets;
      cut, offsets := cut + [[e]], offsets + [offset];
      Put(e);
      CoveredByAdd(was, wasOffsets, cut, offsets, filter.filters, old(filter.keys), e);
    }

    method ExtendBlock(e: Entry)
      requires Ok() && dataBlock != [] && Before(Last(), e)
      modifies this, filter
      ensures Ok() && Entries() == old(Entries()) + {e} && cut != [] && Last() == e && dataBlock != []
    {
      hide KeepsOrder, Separated, Covered, From, Before;
      ghost var n := |cut| - 1;
      AddsToBlock(cut, index, e);
      ghost var was := cut;
      cut := cut[..n] + [dataBlock + [e]];
      Put(e);
      CoveredByAdd(was, offsets, cut, offsets, filter.filters, old(filter.keys), e);
    }

    // The entry goes to the filter and to the block.
    method Put(e: Entry)
      requires filter.Ok()
      modifies this`lastKey, this`dataBlock, filter
      ensures filter.Ok() && filter.keys == old(filter.keys) + [e.key] && filter.filters == old(filter.filters)
      ensures lastKey == InternalKey(e) && dataBlock == old(dataBlock) + [e]
    {
      filter.AddKey(e.key);
      lastKey := InternalKey(e);
      dataBlock := dataBlock + [e];
    }

    method Flush(size: nat)
      requires Ok()
      modifies this, filter
      ensures Ok() && cut == old(cut) && dataBlock == []
    {
      hide KeepsOrder, Separated, Covered;
      if dataBlock == [] {
        return;
      }
      WriteBlock(size);
      ghost var filters, keys := filter.filters, filter.keys;
      filter.StartBlock(offset);
      CoveredByStart(cut, offsets, filters, keys, filter.filters, filter.keys);
    }

    method WriteBlock(size: nat)
      modifies `file, `pendingHandle, `offset, `dataBlock, `pendingIndexEntry
      ensures file == old(file)[old(offset) := old(dataBlock)] && pendingHandle == old(offset)
      ensures offset == old(offset) + size + BLOCK_TRAILER && dataBlock == [] && pendingIndexEntry
    {
      file := file[offset := dataBlock];
      pendingHandle := offset;
      offset := offset + size + BLOCK_TRAILER;
      dataBlock := [];
      pendingIndexEntry := true;
    }

    // Everything added is in the finished table, indexed and behind its filters.
    method Finish(size: nat) returns (filterContents: Bytes)
      requires Ok()
      modifies this, filter
      ensures Entries() == old(Entries()) && Indexed(cut, index, file) && Filtered(cut, index, filter.filters)
      ensures |filterContents| < TWO32 ==> IsFilterBlock(filterContents, filter.policy, filter.filters)
    {
      Flush(size);
      filterContents := FinishFilter();
      EndIndex();
    }

    method FinishFilter() returns (filterContents: Bytes)
      requires Ok() && dataBlock == []
      modifies filter
      ensures forall b, e | 0 <= b < |cut| && e in cut[b] :: InFilter(filter.filters, offsets[b], e.key)
      ensures |filterContents| < TWO32 ==> IsFilterBlock(filterContents, filter.policy, filter.filters)
    {
      hide KeepsOrder, From, IsFilterBlock, FilterHas, Separated, InFilter;
      ghost var filters, keys := filter.filters, filter.keys;
      filterContents := filter.Finish();
      FilteredAtEnd(cut, offsets, filters, keys, filter.filters);
    }

    method EndIndex()
      requires KeepsOrder(comparator) && Layout() && dataBlock == []
      requires Separated(cut, index) && |index| == (if cut == [] then 0 else |cut| - 1)
      requires cut != [] ==> lastKey == InternalKey(Last())
      requires forall b, e | 0 <= b < |cut| && e in cut[b] :: InFilter(filter.filters, offsets[b], e.key)
      modifies this`index, this`pendingIndexEntry
      ensures Indexed(cut, index, file) && Filtered(cut, index, filter.filters)
    {
      hide KeepsOrder, From, InFilter, Separator;
      if pendingIndexEntry {
        LastSeparator(comparator, cut);
        index := index + [IndexEntry(ShortSuccessor(comparator, lastKey), pendingHandle)];
        pendingIndexEntry := false;
      }
    }
  }

  lemma LastSeparator(c: Comparator, cut: seq<seq<Entry>>)
    requires KeepsOrder(c) && cut != [] && cut[|cut| - 1] != [] && Sorted(cut[|cut| - 1])
    ensures var d := cut[|cut| - 1];
            Separator(ShortSuccessor(c, InternalKey(d[|d| - 1])), d, From(cut, |cut|))
  {
    SuccessorEnds(c, cut[|cut| - 1]);
  }

  lemma FilteredAtEnd(cut: seq<seq<Entry>>, offsets: seq<nat>, filters: seq<seq<UserKey>>, keys: seq<UserKey>,
                      filters': seq<seq<UserKey>>)
    requires |offsets| == |cut| && Covered(cut, offsets, filters, keys)
    requires filters' == if keys == [] then filters else filters + [keys]
    ensures forall b, e | 0 <= b < |cut| && e in cut[b] :: InFilter(filters', offsets[b], e.key)
  {
    forall b, e | 0 <= b < |cut| && e in cut[b] ensures InFilter(filters', offsets[b], e.key) {
      var w := offsets[b] / FILTER_BASE;
      assert FilterHas(filters, keys, w, e.key);
      if w == |filters| {
        assert filters' == filters + [keys];
        assert filters'[w] == keys;
      } else {
        assert filters'[w] == filters[w];
      }
    }
  }

  lemma FirstBlock(e: Entry)
    ensures Separated([[e]], []) && From([[e]], 0) == {e}
  {
    assert Content([e]) == {e};
    assert From([[e]], 1) == {};
  }

  lemma CoveredByAdd(was: seq<seq<Entry>>, wasOffsets: seq<nat>, cut: seq<seq<Entry>>, offsets: seq<nat>,
                     filters: seq<seq<UserKey>>, keys: seq<UserKey>, e: Entry)
    requires |wasOffsets| == |was| && Covered(was, wasOffsets, filters, keys)
    requires |offsets| == |cut| && cut != []
    requires var n := |cut| - 1;
             && n <= |was| && cut[..n] == was[..n] && offsets[..n] == wasOffsets[..n]
             && offsets[n] / FILTER_BASE == |filters|
             && (if n < |was| then cut[n] == was[n] + [e] && wasOffsets[n] == offsets[n] else cut[n] == [e])
    ensures Covered(cut, offsets, filters, keys + [e.key])
  {
    var n := |cut| - 1;
    forall b, x | 0 <= b < |cut| && x in cut[b]
      ensures FilterHas(filters, keys + [e.key], offsets[b] / FILTER_BASE, x.key)
    {
      if b < n {
        assert cut[b] == cut[..n][b] == was[b] && offsets[b] == offsets[..n][b] == wasOffsets[b];
      }
    }
  }
}
