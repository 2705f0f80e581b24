/** Table (table/table.cc): opening a finished file and looking a key up. */
module Tables {
  import opened InternalKeys
  import opened Coding
  import opened Separators
  import opened TableFormat
  import opened FilterBlocks
  import opened Blocks
  import opened BlockIters
  import opened Cursors
  import opened TableLayout
  import opened TableBuilders

  // Block sizes are 32-bit and file offsets 64-bit.
  ghost predicate Fits(file: Bytes, t: Layout) {
    && |file| < TWO64
    && (forall i :: 0 <= i < |t.handles| ==> t.handles[i].size < TWO32)
    && t.indexHandle.size < TWO32 && t.metaHandle.size < TWO32 && t.filterHandle.size < TWO32
  }

  lemma StoredHandleOk(file: Bytes, h: Handle, contents: Bytes)
    requires StoredAt(file, h, contents) && |file| < TWO64
    ensures HandleOk(h) && h.size == |contents|
  {
  }

  // A cursor over a stored block.
  method OpenBlock(file: Bytes, h: Handle, verify: bool, rank: Bytes -> real, ghost interval: nat, ghost pairs: seq<Pair>)
    returns (it: Iter)
    requires interval > 0 && BlockStored(file, interval, pairs, h) && h.size < TWO32 && SortedBy(rank, pairs)
    ensures fresh(it) && it.Valid() && it.pairs == pairs && it.rank == rank
  {
    hide StoredAt, Finished, SortedBy;
    ghost var contents :| StoredAt(file, h, contents) && IsBlock(pairs, interval, contents);
    SizeOf(file, h, contents);
    var block := ReadBlock(file, h, verify);
    ghost var points :| Finished(pairs, interval, points, contents);
    BlockFits(pairs, interval, points, contents);
    it := new Iter(rank, block.value, pairs, interval, points);
  }

  lemma SizeOf(file: Bytes, h: Handle, contents: Bytes)
    requires StoredAt(file, h, contents)
    ensures h.size == |contents|
  {
  }

  class Table {
    const file: Bytes
    const verify: bool
    const options: TableOptions
    const indexHandle: Handle
    const filter: Option<FilterBlockReader>

    ghost const t: Layout
    ghost const pairs: seq<Pair>

    ghost predicate Valid() {
      && TableOf(file, options, pairs, t) && Fits(file, t) && indexHandle == t.indexHandle
      && (filter.Some? ==> FilterReads(filter.value))
    }

    ghost predicate FilterReads(reader: FilterBlockReader) {
      && options.filtering && reader.Valid() && reader.hash == UserHash(options.hash) && reader.Reads(t.groups)
    }

    // Table::Open on a file a builder finished: the footer leads to the index and, through the metaindex block, to
    // the filter.
    constructor Open(file: Bytes, options: TableOptions, verify: bool, ghost pairs: seq<Pair>, ghost t: Layout)
      requires TableOf(file, options, pairs, t) && Fits(file, t)
      ensures Valid() && this.file == file && this.options == options && this.pairs == pairs && this.t == t
      ensures filter.Some? <==> options.filtering
    {
      hide TableOf, Fits;
      hide FilterBlockReader.Valid, FilterBlockReader.Reads;
      var footer := ReadFooter(file, options, pairs, t);
      var reader := None;
      if options.filtering {
        var r := ReadMeta(file, options, verify, footer.metaindex, pairs, t);
        reader := Some(r);
      }
      this.file, this.options, this.verify, this.indexHandle, this.filter := file, options, verify, footer.index, reader;
      this.pairs, this.t := pairs, t;
    }

    static method ReadFooter(file: Bytes, options: TableOptions, ghost pairs: seq<Pair>, ghost t: Layout) returns (footer: Footer)
      requires TableOf(file, options, pairs, t) && Fits(file, t)
      ensures footer == Footer(t.metaHandle, t.indexHandle)
    {
      hide EncodeFooter, DecodeFooter, IsBlock, DataStored, KeysOk, IndexOk, AllGrouped, FilterStored;
      HandlesOk(file, options, pairs, t);
      FooterRoundTrip(Footer(t.metaHandle, t.indexHandle));
      var space := file[|file| - FOOTER_SIZE..];
      footer := DecodeFooter(space).value;
    }

    static lemma HandlesOk(file: Bytes, options: TableOptions, pairs: seq<Pair>, t: Layout)
      requires TableOf(file, options, pairs, t) && Fits(file, t)
      ensures HandleOk(t.metaHandle) && HandleOk(t.indexHandle)
    {
      hide IsBlock, DataStored, KeysOk, IndexOk, AllGrouped, FilterStored, Trailer;
    }

    static method ReadMeta(file: Bytes, options: TableOptions, verify: bool, metaHandle: Handle, ghost pairs: seq<Pair>, ghost t: Layout)
      returns (reader: FilterBlockReader)
      requires TableOf(file, options, pairs, t) && Fits(file, t) && options.filtering && metaHandle == t.metaHandle
      ensures reader.Valid() && reader.hash == UserHash(options.hash) && reader.Reads(t.groups)
    {
      hide EncodeHandle, DecodeHandle, IsBlock, DataStored, KeysOk, IndexOk, AllGrouped, StoredAt, UserHash, IsFilterBlock, FirstAtLeast, EncodeFooter;
      hide BlockOk, Data, InternalRank;
      ghost var contents :| StoredAt(file, t.filterHandle, contents) && IsFilterBlock(UserHash(options.hash), t.groups, contents);
      StoredHandleOk(file, t.filterHandle, contents);
      var it := OpenBlock(file, metaHandle, verify, LexRank, options.interval, t.meta);
      it.Seek(options.name);
      FirstIs(LexRank, t.meta, options.name, 0);
      HandleRoundTrip(t.filterHandle, []);
      assert EncodeHandle(t.filterHandle) + [] == EncodeHandle(t.filterHandle);
      assert it.value == EncodeHandle(t.filterHandle);
      var handle := DecodeHandle(it.value).value;
      var block := ReadBlock(file, handle, verify);
      reader := new FilterBlockReader(UserHash(options.hash), block.value);
    }

    // Table::InternalGet: the index, the filter, then one block, which is read only if its filter lets the key through.
    method InternalGet(target: Bytes) returns (r: Option<Pair>, ghost read: Option<nat>)
      requires Valid() && |target| >= 8
      ensures Answers(r, pairs, target) && (r.Some? ==> read.Some?)
      ensures read.Some? && filter.Some? ==> Admits(read.value, target)
    {
      hide TableOf, Fits, SortedBy, FirstAtLeast, Flat, BlockStored, EncodeHandle, DecodeHandle, UserHash, Added, Sought;
      hide BlockOk, Data, InternalRank;
      hide FilterBlockReader.Valid, FilterBlockReader.Reads;
      hide Iter.Valid;
      IndexFacts();
      LookupSplits(t.blocks, t.handles, t.index, target);
      var iiter := OpenBlock(file, indexHandle, verify, InternalRank, 1, t.index);
      iiter.Seek(target);
      var found := iiter.IsValid();
      read := None;
      if !found {
        return None, None;
      }
      ghost var j := iiter.pos;
      var entry := iiter.Current();
      var value := entry.value;
      BlockFacts(j);
      HandleRoundTrip(t.handles[j], []);
      assert EncodeHandle(t.handles[j]) + [] == EncodeHandle(t.handles[j]);
      if filter.Some? {
        var handle := DecodeHandle(value);
        if handle.Good? {
          var may := filter.value.KeyMayMatch(handle.value.offset, target);
          if !may {
            FilterRejects(j, target);
            return None, None;
          }
          FilterAdmits(j, target, may);
        }
      }
      read := Some(j);
      var blockIter := BlockReader(value, j);
      blockIter.Seek(target);
      var inside := blockIter.IsValid();
      if !inside {
        return None, read;
      }
      var hit := blockIter.Current();
      InPairs(j, blockIter.pos);
      return Some(hit), read;
    }

    // The filter of block j says that the key may be in it.
    ghost predicate Admits(j: nat, target: Bytes) {
      && j < |t.handles|
      && (t.handles[j].offset / FILTER_BASE < |t.groups| ==>
            FilterSays(UserHash(options.hash), t.groups[t.handles[j].offset / FILTER_BASE], target, true))
    }

    lemma FilterAdmits(j: nat, target: Bytes, may: bool)
      requires j < |t.handles| && may
      requires t.handles[j].offset / FILTER_BASE < |t.groups|
               ==> FilterSays(UserHash(options.hash), t.groups[t.handles[j].offset / FILTER_BASE], target, may)
      ensures Admits(j, target)
    {
    }

    // Table::BlockReader without a block cache.
    method BlockReader(indexValue: Bytes, ghost j: nat) returns (it: Iter)
      requires Valid() && j < |t.blocks| && j < |t.handles| && indexValue == EncodeHandle(t.handles[j]) && HandleOk(t.handles[j])
      ensures fresh(it) && it.Valid() && it.pairs == t.blocks[j] && it.rank == InternalRank
    {
      hide SortedBy, Flat, BlockStored, EncodeHandle, DecodeHandle, IndexOk, EncodeFooter;
      hide FilterBlockReader.Valid, FilterBlockReader.Reads;
      HandleRoundTrip(t.handles[j], []);
      assert indexValue + [] == indexValue;
      BlockSorted(t.blocks, j);
      it := OpenBlock(file, DecodeHandle(indexValue).value, verify, InternalRank, options.interval, t.blocks[j]);
    }

    lemma IndexFacts()
      requires Valid()
      ensures BlockStored(file, 1, t.index, indexHandle) && indexHandle.size < TWO32 && SortedBy(InternalRank, t.index)
      ensures Cut(t.blocks) && |t.index| == |t.blocks| == |t.handles| && IndexOk(t.blocks, t.handles, t.index)
      ensures KeysOk(Flat(t.blocks)) && pairs == Flat(t.blocks)
    {
      hide SortedBy, BlockStored, EncodeFooter, IndexOk, Flat, Cut;
      IndexSorted(t.blocks, t.handles, t.index);
    }

    lemma BlockFacts(j: nat)
      requires Valid() && j < |t.blocks|
      ensures j < |t.handles| && j < |t.index| && HandleOk(t.handles[j]) && t.index[j].value == EncodeHandle(t.handles[j])
    {
      hide SortedBy, EncodeFooter, EncodeHandle, IsBlock, Flat, FilterStored, Trailer, InternalRank;
      hide FilterBlockReader.Valid, FilterBlockReader.Reads;
      assert BlockStored(file, options.interval, t.blocks[j], t.handles[j]);
    }

    // Keys the filter rejects are not in the block.
    lemma FilterRejects(j: nat, target: Bytes)
      requires Valid() && j < |t.blocks| && j < |t.handles| && options.filtering
      requires !Added(UserHash(options.hash), t.groups, t.handles[j].offset, target)
      ensures forall p :: 0 <= p < |t.blocks[j]| ==> !SameUser(t.blocks[j][p].key, target)
    {
      hide SortedBy, EncodeFooter, EncodeHandle, IsBlock, Flat, FilterStored, BlockStored, IndexOk, Cut, InternalRank, UserKeyOf;
      hide FilterBlockReader.Valid, FilterBlockReader.Reads;
      assert Grouped(t.blocks[j], t.handles[j].offset, t.groups);
    }

    lemma InPairs(j: nat, p: nat)
      requires Valid() && j < |t.blocks| && p < |t.blocks[j]|
      ensures t.blocks[j][p] in pairs
    {
      hide SortedBy, EncodeFooter, EncodeHandle, IsBlock, Flat, FilterStored, BlockStored, IndexOk, Cut, InternalRank, Base;
      hide FilterBlockReader.Valid, FilterBlockReader.Reads;
      FlatAt(t.blocks, j, p);
    }
  }

  // A file smaller than 4 GB fits.
  lemma SmallFits(file: Bytes, options: TableOptions, pairs: seq<Pair>, t: Layout)
    requires TableOf(file, options, pairs, t) && |file| < TWO32 && (options.filtering || t.filterHandle.size == 0)
    ensures Fits(file, t)
  {
    hide KeysOk, IndexOk, IsBlock, AllGrouped, IsFilterBlock, EncodeFooter, Trailer, Flat;
    forall i | 0 <= i < |t.handles| ensures t.handles[i].size < TWO32 {
      assert BlockStored(file, options.interval, t.blocks[i], t.handles[i]);
    }
  }

  // Building a table from any strictly increasing list, with any block size, restart interval and filter, and looking
  // a key up in the file.
  method BuildAndGet(options: TableOptions, list: seq<Pair>, target: Bytes, verify: bool)
    returns (file: Bytes, r: Option<Pair>, ghost t: Layout)
    requires options.interval > 0 && KeysOk(list) && |target| >= 8
    ensures TableOf(file, options, list, t) && CutBySize(options, t.blocks)
    ensures |file| < TWO32 ==> Answers(r, list, target)
  {
    hide CutSoFar, AddedOrCut, BlockSize, CutBySize, Flat;
    hide TableOf, Fits, Answers, InternalRank, KeyOf, KeyLess;
    hide TableBuilder.Valid;
    var b := new TableBuilder(options);
    NothingCut(options);
    for i := 0 to |list|
      invariant b.Valid() && b.pairs == list[..i] && b.options == options
      invariant CutSoFar(options, b.done, b.dataBlock.pairs)
      invariant fresh(b) && fresh(b.dataBlock) && fresh(b.indexBlock) && fresh(b.filterBlock)
    {
      if i > 0 {
        RankLeq(list[i - 1].key, list[i].key);
      }
      ghost var done, open := b.done, b.dataBlock.pairs;
      b.Add(list[i].key, list[i].value);
      CutMore(options, done, open, Pair(list[i].key, list[i].value), b.done, b.dataBlock.pairs);
      assert list[..i] + [Pair(list[i].key, list[i].value)] == list[..i + 1];
    }
    assert list[..|list|] == list;
    CutEnds(options, b.done, b.dataBlock.pairs);
    t := b.Finish();
    file, r := b.file, None;
    if |file| < TWO32 {
      SmallFits(b.file, options, list, t);
      var table := new Table.Open(b.file, options, verify, list, t);
      var answer, _ := table.InternalGet(target);
      r := answer;
    }
  }

  lemma NothingCut(options: TableOptions)
    requires options.interval > 0
    ensures CutSoFar(options, [], [])
  {
  }

  // The order of BytewiseComparator.
  function LexRank(b: Bytes): real {
    Rank(b, 0)
  }
}
