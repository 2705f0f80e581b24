/** The filter block of a table (table/filter_block.cc): one Bloom filter for every 2 KB of block offsets. */
module FilterBlocks {
  import opened InternalKeys
  import opened Coding
  import opened Bloom
  import opened Blocks

  const FILTER_BASE_LG: Byte := 11
  const FILTER_BASE: nat := 2048

  // The flattened keys: pending[i] starts at start[i] and ends where the next key starts.
  ghost predicate Flattened(keys: Bytes, start: seq<nat>, pending: seq<Bytes>) {
    |start| == |pending| && forall i :: 0 <= i < |start| ==> SliceIs(keys, start, i, pending[i])
  }

  ghost predicate SliceIs(keys: Bytes, start: seq<nat>, i: nat, key: Bytes)
    requires i < |start|
  {
    var end := if i + 1 < |start| then start[i + 1] else |keys|;
    start[i] <= end <= |keys| && keys[start[i]..end] == key
  }

  lemma FlattenedGrows(keys: Bytes, start: seq<nat>, pending: seq<Bytes>, key: Bytes)
    requires Flattened(keys, start, pending)
    ensures Flattened(keys + key, start + [|keys|], pending + [key])
  {
    var more := keys + key;
    var starts := start + [|keys|];
    forall i | 0 <= i < |starts| ensures SliceIs(more, starts, i, (pending + [key])[i]) {
      if i < |start| {
        assert SliceIs(keys, start, i, pending[i]);
        var end := if i + 1 < |start| then start[i + 1] else |keys|;
        assert more[start[i]..end] == keys[start[i]..end];
      }
    }
  }

  // Filter g and the keys it was made from.
  ghost predicate FilterHolds(hash: Bytes -> Word32, data: Bytes, offsets: seq<nat>, groups: seq<seq<Bytes>>, g: nat)
    requires g < |offsets| && g < |groups|
  {
    var limit := if g + 1 < |offsets| then offsets[g + 1] else |data|;
    offsets[g] <= limit <= |data| && GroupFilter(hash, groups[g], data[offsets[g]..limit])
  }

  // Nothing for a group without keys, and else the filter of its keys.
  ghost predicate GroupFilter(hash: Bytes -> Word32, keys: seq<Bytes>, filter: Bytes) {
    if keys == [] then filter == [] else IsFilter(hash, keys, filter)
  }

  lemma GroupMatches(hash: Bytes -> Word32, keys: seq<Bytes>, filter: Bytes, added: Bytes, key: Bytes)
    requires GroupFilter(hash, keys, filter) && added in keys && hash(added) == hash(key)
    ensures MayMatch(hash, filter, key)
  {
    hide IsFilter;
    FilterMatches(hash, keys, filter);
    var i :| 0 <= i < |keys| && keys[i] == added;
  }

  ghost predicate FiltersHold(hash: Bytes -> Word32, data: Bytes, offsets: seq<nat>, groups: seq<seq<Bytes>>) {
    |offsets| == |groups| && forall g :: 0 <= g < |offsets| ==> FilterHolds(hash, data, offsets, groups, g)
  }

  lemma FiltersGrow(hash: Bytes -> Word32, data: Bytes, offsets: seq<nat>, groups: seq<seq<Bytes>>, filter: Bytes, keys: seq<Bytes>)
    requires FiltersHold(hash, data, offsets, groups)
    requires GroupFilter(hash, keys, filter)
    ensures FiltersHold(hash, data + filter, offsets + [|data|], groups + [keys])
  {
    hide GroupFilter;
    var more, starts, all := data + filter, offsets + [|data|], groups + [keys];
    forall g | 0 <= g < |starts| ensures FilterHolds(hash, more, starts, all, g) {
      if g < |offsets| {
        assert FilterHolds(hash, data, offsets, groups, g);
        var limit := if g + 1 < |offsets| then offsets[g + 1] else |data|;
        assert more[offsets[g]..limit] == data[offsets[g]..limit];
      } else {
        assert more[|data|..|more|] == filter;
      }
    }
  }

  // The finished filter block.
  ghost predicate IsFilterBlock(hash: Bytes -> Word32, groups: seq<seq<Bytes>>, block: Bytes) {
    exists data, offsets :: FilterBlockOf(hash, groups, data, offsets, block)
  }

  ghost predicate FilterBlockOf(hash: Bytes -> Word32, groups: seq<seq<Bytes>>, data: Bytes, offsets: seq<nat>, block: Bytes) {
    && FiltersHold(hash, data, offsets, groups)
    && block == data + RestartArray(offsets) + EncodeFixed(|data|, 4) + [FILTER_BASE_LG]
  }

  // The calls match (StartBlock AddKey*)* Finish.
  class FilterBlockBuilder {
    const hash: Bytes -> Word32
    const bitsPerKey: nat
    const probes: Byte
    var keys: Bytes                 // flattened key contents
    var start: seq<nat>             // starting index in keys of each key
    var result: Bytes               // filter data computed so far
    var filterOffsets: seq<nat>
    ghost var groups: seq<seq<Bytes>>  // the keys of each generated filter
    ghost var pending: seq<Bytes>      // the keys of the next filter

    ghost predicate Valid()
      reads this
    {
      Flattened(keys, start, pending) && FiltersHold(hash, result, filterOffsets, groups)
    }

    constructor (hash: Bytes -> Word32, bitsPerKey: nat, probes: Byte)
      ensures Valid() && groups == [] && pending == [] && this.hash == hash
    {
      this.hash, this.bitsPerKey, this.probes := hash, bitsPerKey, probes;
      keys, start, result, filterOffsets, groups, pending := [], [], [], [], [], [];
    }

    method AddKey(key: Bytes)
      requires Valid()
      modifies this
      ensures Valid() && pending == old(pending) + [key] && groups == old(groups)
    {
      FlattenedGrows(keys, start, pending, key);
      start := start + [|keys|];
      keys := keys + key;
      pending := pending + [key];
    }

    // Filters are generated until the one under construction is that of the block at this offset.
    method StartBlock(blockOffset: nat)
      requires Valid() && |groups| <= blockOffset / FILTER_BASE
      modifies this
      ensures Valid() && |groups| == blockOffset / FILTER_BASE && old(groups) <= groups
      ensures |groups| == |old(groups)| ==> pending == old(pending)
      ensures |groups| > |old(groups)| ==> groups[|old(groups)|] == old(pending) && pending == []
    {
      var filterIndex := blockOffset / FILTER_BASE;
      while filterIndex > |filterOffsets|
        invariant Valid() && old(groups) <= groups && |groups| <= filterIndex
        invariant |groups| == |old(groups)| ==> pending == old(pending)
        invariant |groups| > |old(groups)| ==> groups[|old(groups)|] == old(pending) && pending == []
        decreases filterIndex - |filterOffsets|
      {
        GenerateFilter();
      }
    }

    method GenerateFilter()
      requires Valid()
      modifies this
      ensures Valid() && groups == old(groups) + [old(pending)] && pending == []
    {
      hide FiltersHold, IsFilter, Flattened, MayMatch;
      SameLength();
      if start == [] {
        FiltersGrow(hash, result, filterOffsets, groups, [], []);
        filterOffsets := filterOffsets + [|result|];
        assert result + [] == result && pending == [];
        groups := groups + [[]];
        return;
      }
      var tmpKeys := MakeKeys();
      var filter := CreateFilter(hash, tmpKeys, bitsPerKey, probes);
      FiltersGrow(hash, result, filterOffsets, groups, filter, pending);
      filterOffsets := filterOffsets + [|result|];
      result := result + filter;
      groups := groups + [pending];
      keys, start, pending := [], [], [];
      NoKeys();
    }

    lemma SameLength()
      requires Valid()
      ensures |start| == |pending|
    {
    }

    lemma NoKeys()
      ensures Flattened([], [], [])
    {
    }

    // The list of keys from the flattened key structure.
    method MakeKeys() returns (list: seq<Bytes>)
      requires Valid()
      ensures list == pending
    {
      list := [];
      for i := 0 to |start|
        invariant list == pending[..i]
      {
        assert SliceIs(keys, start, i, pending[i]);
        var end := if i + 1 < |start| then start[i + 1] else |keys|;
        list := list + [keys[start[i]..end]];
      }
    }

    method Finish() returns (block: Bytes)
      requires Valid()
      modifies this
      ensures IsFilterBlock(hash, groups, block) && Valid()
      ensures groups == if old(pending) == [] then old(groups) else old(groups) + [old(pending)]
    {
      hide EncodeFixed, FiltersHold;
      if start != [] {
        GenerateFilter();
      }
      block := result;
      for i := 0 to |filterOffsets|
        invariant block == result + RestartArray(filterOffsets[..i])
      {
        assert filterOffsets[..i + 1][..i] == filterOffsets[..i];
        var b := EncodeFixed(filterOffsets[i], 4);
        assert result + RestartArray(filterOffsets[..i]) + b == result + (RestartArray(filterOffsets[..i]) + b);
        block := block + b;
      }
      assert filterOffsets[..|filterOffsets|] == filterOffsets;
      block := block + EncodeFixed(|result|, 4) + [FILTER_BASE_LG];
      assert FilterBlockOf(hash, groups, result, filterOffsets, block);
    }
  }

  // The words at the end of a filter block.
  lemma OffsetReads(hash: Bytes -> Word32, groups: seq<seq<Bytes>>, data: Bytes, offsets: seq<nat>, block: Bytes, g: nat)
    requires FilterBlockOf(hash, groups, data, offsets, block) && |block| < TWO32 && g <= |offsets|
    ensures |block| == |data| + 4 * |offsets| + 5
    ensures DecodeFixed(block[|data| + 4 * g..|data| + 4 * g + 4]) == if g < |offsets| then offsets[g] else |data|
  {
    hide EncodeFixed, DecodeFixed, GroupFilter, RestartArray;
    var words := RestartArray(offsets);
    var at := |data| + 4 * g;
    if g < |offsets| {
      assert FilterHolds(hash, data, offsets, groups, g);
      RestartSlice(offsets, g);
      assert block[at..at + 4] == words[4 * g..4 * g + 4];
      Fixed32RoundTrip(offsets[g]);
    } else {
      assert block[at..at + 4] == EncodeFixed(|data|, 4);
      Fixed32RoundTrip(|data|);
    }
  }

  // A key that hashes like `key` was added for a block at this offset.
  ghost predicate Added(hash: Bytes -> Word32, groups: seq<seq<Bytes>>, blockOffset: nat, key: Bytes) {
    && blockOffset / FILTER_BASE < |groups|
    && exists added :: added in groups[blockOffset / FILTER_BASE] && hash(added) == hash(key)
  }

  // What the filter of these keys answers.
  ghost predicate FilterSays(hash: Bytes -> Word32, keys: seq<Bytes>, key: Bytes, may: bool) {
    if keys == [] then !may else exists filter :: IsFilter(hash, keys, filter) && (may <==> MayMatch(hash, filter, key))
  }

  lemma FilterAnswers(hash: Bytes -> Word32, keys: seq<Bytes>, filter: Bytes, key: Bytes)
    requires GroupFilter(hash, keys, filter)
    ensures FilterSays(hash, keys, key, MayMatch(hash, filter, key))
  {
    hide IsFilter;
  }

  class FilterBlockReader {
    const hash: Bytes -> Word32
    const contents: Bytes
    const arrayAt: nat           // where the offset array begins
    const num: nat               // entries in the offset array
    const baseLg: Byte

    ghost predicate Valid() {
      arrayAt <= |contents| && (num > 0 ==> arrayAt + 4 * num + 5 <= |contents|)
    }

    // The contents are the filter block of these groups of keys.
    ghost predicate Reads(groups: seq<seq<Bytes>>) {
      |contents| < TWO32 && exists data, offsets :: ReadsAs(groups, data, offsets)
    }

    ghost predicate ReadsAs(groups: seq<seq<Bytes>>, data: Bytes, offsets: seq<nat>) {
      && FilterBlockOf(hash, groups, data, offsets, contents)
      && arrayAt == |data| && num == |offsets| && baseLg == FILTER_BASE_LG
    }

    // Contents that are too short or inconsistent leave a reader without filters.
    constructor (hash: Bytes -> Word32, contents: Bytes)
      ensures this.hash == hash && this.contents == contents && Valid()
      ensures forall groups :: |contents| < TWO32 && IsFilterBlock(hash, groups, contents) ==> Reads(groups)
    {
      hide FiltersHold, DecodeFixed;
      this.hash, this.contents := hash, contents;
      forall groups, data, offsets | |contents| < TWO32 && FilterBlockOf(hash, groups, data, offsets, contents)
        ensures |contents| == |data| + 4 * |offsets| + 5 && contents[|contents| - 1] == FILTER_BASE_LG
        ensures DecodeFixed(contents[|contents| - 5..|contents| - 1]) == |data|
      {
        OffsetReads(hash, groups, data, offsets, contents, |offsets|);
      }
      var n := |contents|;
      if n < 5 {
        arrayAt, num, baseLg := 0, 0, 0;
      } else {
        var lastWord := DecodeFixed(contents[n - 5..n - 1]);
        if lastWord > n - 5 {
          arrayAt, num, baseLg := 0, 0, contents[n - 1];
        } else {
          arrayAt, num, baseLg := lastWord, (n - 5 - lastWord) / 4, contents[n - 1];
        }
      }
      new;
      forall groups | |contents| < TWO32 && IsFilterBlock(hash, groups, contents) ensures Reads(groups) {
        var data, offsets :| FilterBlockOf(hash, groups, data, offsets, contents);
        assert ReadsAs(groups, data, offsets);
      }
    }

    // No false negatives; and no more false positives than the filter of the block's own keys gives, none at all for a
    // range of offsets without keys.
    method KeyMayMatch(blockOffset: nat, key: Bytes) returns (may: bool)
      requires Valid()
      ensures forall groups :: Reads(groups) && Added(hash, groups, blockOffset, key) ==> may
      ensures forall groups :: Reads(groups) && blockOffset / FILTER_BASE < |groups|
                               ==> FilterSays(hash, groups[blockOffset / FILTER_BASE], key, may)
    {
      hide DecodeFixed, MayMatch, RestartArray, EncodeFixed, FiltersHold, Pow2;
      Base();
      var index := blockOffset / Pow2(baseLg);
      may := true;
      if index < num {
        var start := DecodeFixed(contents[arrayAt + 4 * index..arrayAt + 4 * index + 4]);
        var limit := DecodeFixed(contents[arrayAt + 4 * index + 4..arrayAt + 4 * index + 8]);
        if start <= limit && limit <= arrayAt {
          may := Bloom.KeyMayMatch(hash, contents[start..limit], key);
        } else if start == limit {
          may := false;
        }
        forall groups | Reads(groups)
          ensures index < |groups| && start <= limit <= arrayAt && GroupFilter(hash, groups[index], contents[start..limit])
          ensures FilterSays(hash, groups[index], key, may)
        {
          var data, offsets :| ReadsAs(groups, data, offsets);
          FilterReads(groups, data, offsets, index, start, limit);
          FilterAnswers(hash, groups[index], contents[start..limit], key);
        }
        forall groups | Reads(groups) && Added(hash, groups, blockOffset, key) ensures may {
          var added :| added in groups[index] && hash(added) == hash(key);
          GroupMatches(hash, groups[index], contents[start..limit], added, key);
        }
      } else {
        forall groups | Reads(groups) ensures |groups| == num {
          var data, offsets :| ReadsAs(groups, data, offsets);
          OneEach(groups, data, offsets);
        }
      }
    }

    lemma OneEach(groups: seq<seq<Bytes>>, data: Bytes, offsets: seq<nat>)
      requires ReadsAs(groups, data, offsets)
      ensures |groups| == num
    {
    }

    lemma Base()
      ensures Pow2(FILTER_BASE_LG) == FILTER_BASE
    {
      assert Pow2(5) == 32;
      assert Pow2(8) == 256;
    }

    lemma FilterReads(groups: seq<seq<Bytes>>, data: Bytes, offsets: seq<nat>, g: nat, start: nat, limit: nat)
      requires |contents| < TWO32 && ReadsAs(groups, data, offsets)
      requires g < num
      requires start == DecodeFixed(contents[arrayAt + 4 * g..arrayAt + 4 * g + 4])
      requires limit == DecodeFixed(contents[arrayAt + 4 * g + 4..arrayAt + 4 * g + 8])
      ensures g < |groups| && start <= limit <= arrayAt && GroupFilter(hash, groups[g], contents[start..limit])
    {
      hide DecodeFixed, RestartArray, EncodeFixed, GroupFilter;
      OffsetReads(hash, groups, data, offsets, contents, g);
      OffsetReads(hash, groups, data, offsets, contents, g + 1);
      assert FilterHolds(hash, data, offsets, groups, g);
      assert contents[start..limit] == data[start..limit];
    }
  }
}
