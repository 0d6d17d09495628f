/**
 The filter block of a table (table/filter_block): one filter for every 2 KiB of file
 offsets, over the user keys of the blocks that start there.
 */
module Filters {
  import opened Coding
  import opened Entries

  const FILTER_BASE_LG: nat := 11
  const FILTER_BASE: nat := 2048

  // A filter policy; it may have false positives, but no false negatives.
  datatype Policy = Policy(create: seq<UserKey> -> Bytes, mayMatch: (UserKey, Bytes) -> bool)

  ghost predicate NoFalseNegatives(p: Policy) {
    forall keys: seq<UserKey>, k | k in keys :: p.mayMatch(k, p.create(keys))
  }

  // ---------- the format

  // The filter of a range of offsets: nothing at all when no key belongs to it.
  function FilterOf(p: Policy, keys: seq<UserKey>): Bytes {
    if keys == [] then [] else p.create(keys)
  }

  function FilterData(p: Policy, filters: seq<seq<UserKey>>): Bytes {
    if filters == [] then []
    else FilterData(p, filters[..|filters| - 1]) + FilterOf(p, filters[|filters| - 1])
  }

  function OffsetOf(p: Policy, filters: seq<seq<UserKey>>, i: nat): nat
    requires i <= |filters|
  {
    |FilterData(p, filters[..i])|
  }

  function Offsets(p: Policy, filters: seq<seq<UserKey>>): (r: seq<nat>)
    ensures |r| == |filters|
  {
    seq(|filters|, i requires 0 <= i < |filters| => OffsetOf(p, filters, i))
  }

  lemma SliceOfFirst(a: Bytes, b: Bytes, x: nat, y: nat)
    requires x <= y <= |a|
    ensures (a + b)[x..y] == a[x..y]
  {
  }

  lemma FilterDataOfMore(p: Policy, filters: seq<seq<UserKey>>)
    requires filters != []
    ensures FilterData(p, filters) == FilterData(p, filters[..|filters| - 1]) + FilterOf(p, filters[|filters| - 1])
  {
  }

  lemma {:induction false} FilterAt(p: Policy, filters: seq<seq<UserKey>>, i: nat)
    requires i < |filters|
    ensures OffsetOf(p, filters, i) <= OffsetOf(p, filters, i + 1) <= |FilterData(p, filters)|
    ensures FilterData(p, filters)[OffsetOf(p, filters, i)..OffsetOf(p, filters, i + 1)] == FilterOf(p, filters[i])
    decreases |filters|
  {
    hide FilterData, FilterOf;
    var last := |filters| - 1;
    FilterDataOfMore(p, filters);
    assert filters[..i + 1][..i] == filters[..i];
    if i < last {
      FilterAt(p, filters[..last], i);
      assert filters[..last][..i] == filters[..i] && filters[..last][..i + 1] == filters[..i + 1];
      SliceOfFirst(FilterData(p, filters[..last]), FilterOf(p, filters[last]), OffsetOf(p, filters, i),
                   OffsetOf(p, filters, i + 1));
    } else {
      assert filters[..i + 1] == filters;
    }
  }

  // The finished filter block: the filters, their offsets, where those start, and the base.
  ghost predicate IsFilterBlock(b: Bytes, p: Policy, filters: seq<seq<UserKey>>) {
    var data, offsets := FilterData(p, filters), Offsets(p, filters);
    && |b| < TWO32
    && |b| == |data| + 4 * |filters| + 5
    && b[..|data|] == data
    && (forall i | 0 <= i < |offsets| :: DecodeFixed32(b[|data| + 4 * i..]) == offsets[i])
    && DecodeFixed32(b[|data| + 4 * |filters|..]) == |data|
    && b[|b| - 1] == FILTER_BASE_LG
  }

  // ---------- the builder

  class FilterBlockBuilder {
    const policy: Policy
    // Keys of the range at hand.
    var keys: seq<UserKey>
    var result: Bytes
    var filterOffsets: seq<nat>
    // The keys behind every filter generated.
    ghost var filters: seq<seq<UserKey>>

    ghost predicate Ok()
      reads this
    {
      result == FilterData(policy, filters) && filterOffsets == Offsets(policy, filters)
    }

    constructor (policy: Policy)
      ensures Ok() && this.policy == policy && keys == [] && filters == []
    {
      this.policy := policy;
      keys, result, filterOffsets := [], [], [];
      filters := [];
    }

    method GenerateFilter()
      requires Ok()
      modifies this
      ensures Ok() && keys == [] && filters == old(filters) + [old(keys)]
    {
      filterOffsets := filterOffsets + [|result|];
      result := result + FilterOf(policy, keys);
      filters := filters + [keys];
      keys := [];
      Generated(policy, old(filters), old(keys));
    }

    // A block starts at offset: the keys to come belong to its range.
    method StartBlock(offset: nat)
      requires Ok() && offset / FILTER_BASE >= |filters|
      modifies this
      ensures Ok() && |filters| == offset / FILTER_BASE
      ensures if offset / FILTER_BASE == |old(filters)| then filters == old(filters) && keys == old(keys)
              else filters[..|old(filters)| + 1] == old(filters) + [old(keys)] && keys == []
    {
      var index := offset / FILTER_BASE;
      while index > |filterOffsets|
        invariant Ok() && |old(filters)| <= |filters| <= index
        invariant if |filters| == |old(filters)| then filters == old(filters) && keys == old(keys)
                  else filters[..|old(filters)| + 1] == old(filters) + [old(keys)] && keys == []
        decreases index - |filters|
      {
        GenerateFilter();
      }
    }

    method AddKey(key: UserKey)
      requires Ok()
      modifies this
      ensures Ok() && keys == old(keys) + [key] && filters == old(filters)
    {
      keys := keys + [key];
    }

    // Offsets are written in 32 bits.
    method Finish() returns (b: Bytes)
      requires Ok()
      modifies this
      ensures Ok() && keys == []
      ensures filters == if old(keys) == [] then old(filters) else old(filters) + [old(keys)]
      ensures |b| < TWO32 ==> IsFilterBlock(b, policy, filters)
    {
      hide FilterData, FilterOf, Offsets, IsFilterBlock, Fixed32, Fixed32s;
      if keys != [] {
        GenerateFilter();
      }
      var arrayOffset := |result|;
      b := result;
      OffsetsFit(policy, filters);
      ghost var written: seq<U32> := [];
      Fixed32sNone(result);
      for i := 0 to |filterOffsets|
        modifies {}
        invariant |written| == i && (|result| < TWO32 ==> written == filterOffsets[..i])
        invariant b == result + Fixed32s(written)
      {
        ghost var next: U32 := filterOffsets[i] % TWO32;
        Fixed32sSnoc(written, next);
        b := b + Fixed32(filterOffsets[i] % TWO32);
        written := written + [next];
      }
      b := b + Fixed32(arrayOffset % TWO32);
      b := b + [FILTER_BASE_LG];
      assert filterOffsets[..|filterOffsets|] == filterOffsets;
      if |b| < TWO32 {
        FinishedFilters(b, policy, filters);
      }
    }
  }

  lemma Generated(p: Policy, filters: seq<seq<UserKey>>, keys: seq<UserKey>)
    ensures var all := filters + [keys];
            && FilterData(p, all) == FilterData(p, filters) + FilterOf(p, keys)
            && Offsets(p, all) == Offsets(p, filters) + [|FilterData(p, filters)|]
  {
    var all := filters + [keys];
    assert all[..|filters|] == filters;
    forall i | 0 <= i < |filters| ensures all[..i] == filters[..i] {
    }
  }

  lemma OffsetsFit(p: Policy, filters: seq<seq<UserKey>>)
    ensures forall i | 0 <= i < |filters| :: Offsets(p, filters)[i] <= |FilterData(p, filters)|
  {
    forall i | 0 <= i < |filters| ensures Offsets(p, filters)[i] <= |FilterData(p, filters)| {
      FilterAt(p, filters, i);
    }
  }

  lemma FinishedFilters(b: Bytes, p: Policy, filters: seq<seq<UserKey>>)
    requires |b| < TWO32
    requires forall i | 0 <= i < |filters| :: Offsets(p, filters)[i] < TWO32
    requires |FilterData(p, filters)| < TWO32
    requires b == FilterData(p, filters) + Fixed32s(Offsets(p, filters)) + Fixed32(|FilterData(p, filters)|)
                  + [FILTER_BASE_LG]
    ensures IsFilterBlock(b, p, filters)
  {
    hide FilterData, Offsets, Fixed32s, Fixed32, DecodeFixed32;
    var data, offsets := FilterData(p, filters), Offsets(p, filters);
    var tail := Fixed32(|data|) + [FILTER_BASE_LG];
    assert b == data + (Fixed32s(offsets) + tail);
    assert b[..|data|] == data;
    forall i | 0 <= i < |offsets| ensures DecodeFixed32(b[|data| + 4 * i..]) == offsets[i] {
      Fixed32At(offsets, i, tail);
      assert b[|data| + 4 * i..] == (Fixed32s(offsets) + tail)[4 * i..];
    }
    Fixed32RoundTrip(|data|, [FILTER_BASE_LG]);
    assert b[|data| + 4 * |filters|..] == tail;
  }

  // ---------- the reader

  function Pow2(n: nat): (r: nat)
    ensures r >= 1
  {
    if n == 0 then 1 else 2 * Pow2(n - 1)
  }

  class FilterBlockReader {
    const policy: Policy
    const contents: Bytes
    var offset: nat
    var num: nat
    var baseLg: nat

    // The offset array lies in the contents.
    predicate Fits()
      reads this
    {
      offset + 4 * num + 5 <= |contents| || num == 0
    }

    // Contents that are too short, or whose array would start behind them, have no filters.
    constructor (policy: Policy, contents: Bytes)
      ensures this.policy == policy && this.contents == contents && Fits()
      ensures |contents| < 5 || DecodeFixed32(contents[|contents| - 5..]) > |contents| - 5 ==> num == 0
      ensures |contents| >= 5 && DecodeFixed32(contents[|contents| - 5..]) <= |contents| - 5 ==>
                && offset == DecodeFixed32(contents[|contents| - 5..]) && baseLg == contents[|contents| - 1]
                && num == (|contents| - 5 - offset) / 4
      ensures forall filters | IsFilterBlock(contents, policy, filters) ::
                num == |filters| && baseLg == FILTER_BASE_LG && offset == |FilterData(policy, filters)|
    {
      this.policy, this.contents := policy, contents;
      var n := |contents|;
      offset, num, baseLg := 0, 0, 0;
      if n >= 5 {
        baseLg := contents[n - 1] as int;
        var lastWord := DecodeFixed32(contents[n - 5..]);
        if lastWord <= n - 5 {
          offset := lastWord;
          num := (n - 5 - lastWord) / 4;
        }
      }
    }

    // The contents are these filters.
    ghost predicate Holds(filters: seq<seq<UserKey>>)
      reads this
    {
      && IsFilterBlock(contents, policy, filters) && NoFalseNegatives(policy)
      && num == |filters| && baseLg == FILTER_BASE_LG && offset == |FilterData(policy, filters)|
    }

    // For whatever filters the contents are, what the policy says of the filter of the offset's
    // range, so false only when the key is in no block there; without a filter every key matches.
    method KeyMayMatch(blockOffset: nat, key: UserKey, ghost filters: seq<seq<UserKey>>) returns (may: bool)
      requires Fits()
      ensures num == 0 ==> may
      ensures Holds(filters) && blockOffset / FILTER_BASE < |filters| && key in filters[blockOffset / FILTER_BASE] ==> may
      ensures Holds(filters) ==>
                may == (blockOffset / FILTER_BASE < |filters| ==> policy.mayMatch(key, FilterOf(policy, filters[blockOffset / FILTER_BASE])))
    {
      hide IsFilterBlock, FilterData, DecodeFixed32, NoFalseNegatives, Pow2, FilterOf;
      BaseIs2K();
      if Holds(filters) {
        BlockSize(contents, policy, filters);
      }
      var index := blockOffset / Pow2(baseLg);
      if index < num {
        var start := DecodeFixed32(contents[offset + index * 4..]);
        var limit := DecodeFixed32(contents[offset + index * 4 + 4..]);
        if Holds(filters) {
          LimitIs(contents, policy, filters, index);
          FilterIs(contents, policy, filters, index, key);
        }
        if start <= limit && limit <= offset {
          var filter := contents[start..limit];
          return policy.mayMatch(key, filter);
        } else if start == limit {
          return false;
        }
      }
      return true;
    }
  }

  lemma BlockSize(b: Bytes, p: Policy, filters: seq<seq<UserKey>>)
    requires IsFilterBlock(b, p, filters)
    ensures |b| == |FilterData(p, filters)| + 4 * |filters| + 5
  {
  }

  lemma BaseIs2K()
    ensures Pow2(FILTER_BASE_LG) == FILTER_BASE
  {
    assert Pow2(4) == 16 && Pow2(8) == 256;
  }

  // The bytes between two offsets are the filter, which no key it was made from fails.
  lemma FilterIs(b: Bytes, p: Policy, filters: seq<seq<UserKey>>, i: nat, key: UserKey)
    requires IsFilterBlock(b, p, filters) && NoFalseNegatives(p) && i < |filters|
    ensures OffsetOf(p, filters, i) <= OffsetOf(p, filters, i + 1) <= |FilterData(p, filters)| <= |b|
    ensures key in filters[i] ==> p.mayMatch(key, b[OffsetOf(p, filters, i)..OffsetOf(p, filters, i + 1)])
    ensures b[OffsetOf(p, filters, i)..OffsetOf(p, filters, i + 1)] == FilterOf(p, filters[i])
  {
    hide FilterData, DecodeFixed32;
    FilterAt(p, filters, i);
    var x, y, n := OffsetOf(p, filters, i), OffsetOf(p, filters, i + 1), |FilterData(p, filters)|;
    assert b[..n][x..y] == b[x..y];
  }

  lemma LimitIs(b: Bytes, p: Policy, filters: seq<seq<UserKey>>, i: nat)
    requires IsFilterBlock(b, p, filters) && i < |filters|
    ensures DecodeFixed32(b[|FilterData(p, filters)| + 4 * i..]) == OffsetOf(p, filters, i)
    ensures DecodeFixed32(b[|FilterData(p, filters)| + 4 * i + 4..]) == OffsetOf(p, filters, i + 1)
  {
    hide FilterData, DecodeFixed32;
    assert Offsets(p, filters)[i] == OffsetOf(p, filters, i);
    if i + 1 < |filters| {
      assert Offsets(p, filters)[i + 1] == OffsetOf(p, filters, i + 1);
      assert |FilterData(p, filters)| + 4 * i + 4 == |FilterData(p, filters)| + 4 * (i + 1);
    } else {
      assert filters[..i + 1] == filters;
    }
  }
}
