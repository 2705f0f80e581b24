/** TableBuilder (table/table_builder.cc).  Appends to the file succeed; compression is off. */
module TableBuilders {
  import opened InternalKeys
  import opened Coding
  import opened Separators
  import opened TableFormat
  import opened FilterBlocks
  import opened Blocks
  import opened BlockIters
  import opened Cursors
  import opened TableLayout

  // --- What is stored ---

  ghost predicate BlockStored(file: Bytes, interval: nat, pairs: seq<Pair>, h: Handle)
    requires interval > 0
  {
    exists contents :: StoredAt(file, h, contents) && IsBlock(pairs, interval, contents)
  }

  ghost predicate DataStored(file: Bytes, interval: nat, blocks: seq<seq<Pair>>, handles: seq<Handle>)
    requires interval > 0
  {
    |blocks| == |handles| && forall i :: 0 <= i < |blocks| ==> BlockStored(file, interval, blocks[i], handles[i])
  }

  lemma BlockStays(file: Bytes, interval: nat, pairs: seq<Pair>, h: Handle, more: Bytes)
    requires interval > 0 && BlockStored(file, interval, pairs, h)
    ensures BlockStored(file + more, interval, pairs, h)
  {
    hide StoredAt, IsBlock;
    var contents :| StoredAt(file, h, contents) && IsBlock(pairs, interval, contents);
    StoredStays(file, h, contents, more);
  }

  lemma DataStays(file: Bytes, interval: nat, blocks: seq<seq<Pair>>, handles: seq<Handle>, more: Bytes)
    requires interval > 0 && DataStored(file, interval, blocks, handles)
    ensures DataStored(file + more, interval, blocks, handles)
  {
    hide BlockStored;
    forall i | 0 <= i < |blocks| ensures BlockStored(file + more, interval, blocks[i], handles[i]) {
      BlockStays(file, interval, blocks[i], handles[i], more);
    }
  }

  // --- Which filter holds the keys of a block ---

  ghost predicate Grouped(pairs: seq<Pair>, offset: nat, groups: seq<seq<Bytes>>) {
    && offset / FILTER_BASE < |groups|
    && forall i :: 0 <= i < |pairs| ==> pairs[i].key in groups[offset / FILTER_BASE]
  }

  ghost predicate AllGrouped(blocks: seq<seq<Pair>>, handles: seq<Handle>, groups: seq<seq<Bytes>>) {
    |blocks| <= |handles| && forall i :: 0 <= i < |blocks| ==> Grouped(blocks[i], handles[i].offset, groups)
  }

  ghost predicate GroupsGrow(a: seq<seq<Bytes>>, b: seq<seq<Bytes>>) {
    |a| <= |b| && forall g, key :: 0 <= g < |a| && key in a[g] ==> key in b[g]
  }

  lemma GroupedStays(blocks: seq<seq<Pair>>, handles: seq<Handle>, a: seq<seq<Bytes>>, b: seq<seq<Bytes>>)
    requires AllGrouped(blocks, handles, a) && GroupsGrow(a, b)
    ensures AllGrouped(blocks, handles, b)
  {
    forall i | 0 <= i < |blocks| ensures Grouped(blocks[i], handles[i].offset, b) {
      assert Grouped(blocks[i], handles[i].offset, a);
    }
  }

  // Nonempty blocks are never in an empty last group.
  lemma GroupedDrop(blocks: seq<seq<Pair>>, handles: seq<Handle>, groups: seq<seq<Bytes>>)
    requires AllGrouped(blocks, handles, groups + [[]]) && Cut(blocks)
    ensures AllGrouped(blocks, handles, groups)
  {
    forall i | 0 <= i < |blocks| ensures Grouped(blocks[i], handles[i].offset, groups) {
      assert Grouped(blocks[i], handles[i].offset, groups + [[]]);
      assert blocks[i][0].key in (groups + [[]])[handles[i].offset / FILTER_BASE];
    }
  }

  // --- Steps of the block list ---

  // A key after every earlier one keeps the list sorted.
  lemma KeysGrow(pairs: seq<Pair>, p: Pair)
    requires KeysOk(pairs) && |p.key| >= 8
    requires pairs != [] ==> KeyLess(KeyOf(LastKey(pairs)), KeyOf(p.key))
    ensures KeysOk(pairs + [p])
  {
    hide InternalRank;
    if pairs != [] {
      RankLeq(LastKey(pairs), p.key);
    }
  }

  // A key joins the open block.
  lemma IndexGrowsBlock(done: seq<seq<Pair>>, handles: seq<Handle>, index: seq<Pair>, open: seq<Pair>, p: Pair)
    requires open != [] && Cut(done + [open]) && |index| == |done| == |handles|
    requires IndexOk(done + [open], handles, index)
    ensures Cut(done + [open + [p]]) && IndexOk(done + [open + [p]], handles, index)
  {
    hide KeyOf, Separates, KeyLeq;
    var before, after := done + [open], done + [open + [p]];
    forall i | 0 <= i < |after| ensures after[i] != [] {
      assert before[i] != [];
    }
    forall i | 0 <= i < |index| ensures IndexKeyOk(after, i, index[i].key) && index[i].value == EncodeHandle(handles[i]) {
      assert IndexKeyOk(before, i, index[i].key);
      assert after[i] == before[i] && (i + 1 < |after| ==> after[i + 1][0] == before[i + 1][0]);
    }
  }

  // A key opens a block, after the index entry of the block before it was written.
  lemma IndexOpensBlock(done: seq<seq<Pair>>, handles: seq<Handle>, index: seq<Pair>, sep: Pair, p: Pair)
    requires done != [] && Cut(done) && |index| + 1 == |done| == |handles| && IndexOk(done, handles, index)
    requires |sep.key| >= 8 && Separates(KeyOf(LastKey(done[|done| - 1])), KeyOf(sep.key), KeyOf(p.key))
    requires sep.value == EncodeHandle(handles[|done| - 1])
    ensures Cut(done + [[p]]) && IndexOk(done + [[p]], handles, index + [sep])
  {
    hide KeyOf, KeyLeq;
    var after, entries := done + [[p]], index + [sep];
    forall i | 0 <= i < |entries|
      ensures IndexKeyOk(after, i, entries[i].key) && entries[i].value == EncodeHandle(handles[i])
    {
      if i < |index| {
        assert IndexKeyOk(done, i, index[i].key);
        assert after[i] == done[i] && after[i + 1] == done[i + 1];
      }
    }
  }

  // The last index entry.
  lemma IndexCloses(done: seq<seq<Pair>>, handles: seq<Handle>, index: seq<Pair>, succ: Pair)
    requires done != [] && Cut(done) && |index| + 1 == |done| == |handles| && IndexOk(done, handles, index)
    requires |succ.key| >= 8 && KeyLeq(KeyOf(LastKey(done[|done| - 1])), KeyOf(succ.key))
    requires succ.value == EncodeHandle(handles[|done| - 1])
    ensures IndexOk(done, handles, index + [succ])
  {
    hide KeyOf, KeyLeq;
    var entries := index + [succ];
    forall i | 0 <= i < |entries|
      ensures IndexKeyOk(done, i, entries[i].key) && entries[i].value == EncodeHandle(handles[i])
    {
      if i < |index| {
        assert IndexKeyOk(done, i, index[i].key);
      }
    }
  }

  // --- The state of a builder between calls ---

  function WithOpen(done: seq<seq<Pair>>, open: seq<Pair>): seq<seq<Pair>> {
    if open == [] then done else done + [open]
  }

  lemma FlatOpen(done: seq<seq<Pair>>, open: seq<Pair>)
    ensures Flat(WithOpen(done, open)) == Flat(done) + open
  {
    assert (done + [open])[..|done|] == done;
  }

  // `done` are the blocks written and `open` the block being filled; an index entry is pending exactly when the block
  // after it has not been opened.
  ghost predicate Built(file: Bytes, interval: nat, pairs: seq<Pair>, done: seq<seq<Pair>>, open: seq<Pair>,
                        handles: seq<Handle>, index: seq<Pair>) {
    && interval > 0 && KeysOk(pairs) && pairs == Flat(done) + open && Cut(WithOpen(done, open))
    && DataStored(file, interval, done, handles)
    && |index| + (if done != [] && open == [] then 1 else 0) == |done|
    && IndexOk(WithOpen(done, open), handles, index)
  }

  lemma NothingBuilt(interval: nat)
    requires interval > 0
    ensures Built([], interval, [], [], [], [], [])
    ensures FilterOk([], [], [], 0, [], [])
  {
  }

  lemma BuiltAdds(file: Bytes, interval: nat, pairs: seq<Pair>, done: seq<seq<Pair>>, open: seq<Pair>,
                  handles: seq<Handle>, index: seq<Pair>, p: Pair)
    requires Built(file, interval, pairs, done, open, handles, index) && (done == [] || open != [])
    requires |p.key| >= 8 && (pairs != [] ==> KeyLess(KeyOf(LastKey(pairs)), KeyOf(p.key)))
    ensures Built(file, interval, pairs + [p], done, open + [p], handles, index)
  {
    hide KeysOk, BlockStored, IndexOk, Flat, KeyOf;
    KeysGrow(pairs, p);
    if open != [] {
      IndexGrowsBlock(done, handles, index, open, p);
    } else {
      NoIndex(done + [open + [p]], handles, index);
    }
    assert Flat(done) + (open + [p]) == Flat(done) + open + [p];
  }

  lemma NoIndex(blocks: seq<seq<Pair>>, handles: seq<Handle>, index: seq<Pair>)
    requires index == [] && Cut(blocks)
    ensures IndexOk(blocks, handles, index)
  {
  }

  lemma BuiltOpens(file: Bytes, interval: nat, pairs: seq<Pair>, done: seq<seq<Pair>>, handles: seq<Handle>,
                   index: seq<Pair>, sep: Pair, p: Pair)
    requires Built(file, interval, pairs, done, [], handles, index) && done != [] && pairs != []
    requires |sep.key| >= 8 && Separates(KeyOf(LastKey(pairs)), KeyOf(sep.key), KeyOf(p.key))
    requires sep.value == EncodeHandle(handles[|done| - 1]) && |p.key| >= 8
    ensures Built(file, interval, pairs + [p], done, [p], handles, index + [sep])
  {
    hide KeysOk, BlockStored, IndexOk, KeyOf;
    LastOfFlat(done);
    KeyChain(LastKey(pairs), sep.key, p.key);
    KeysGrow(pairs, p);
    IndexOpensBlock(done, handles, index, sep, p);
  }

  lemma LastOfFlat(done: seq<seq<Pair>>)
    requires done != [] && Cut(done)
    ensures Flat(done) + [] == Flat(done) && Flat(done) != [] && LastKey(Flat(done)) == LastKey(done[|done| - 1])
  {
  }

  lemma KeyChain(a: Bytes, b: Bytes, c: Bytes)
    requires Separates(KeyOf(a), KeyOf(b), KeyOf(c))
    ensures KeyLess(KeyOf(a), KeyOf(c))
  {
    hide KeyOf, KeyLess;
    if KeyOf(a) != KeyOf(b) {
      KeyTransitive(KeyOf(a), KeyOf(b), KeyOf(c));
    }
  }

  lemma BuiltFlushes(file: Bytes, interval: nat, pairs: seq<Pair>, done: seq<seq<Pair>>, open: seq<Pair>,
                     handles: seq<Handle>, index: seq<Pair>, contents: Bytes)
    requires Built(file, interval, pairs, done, open, handles, index) && open != []
    requires IsBlock(open, interval, contents)
    ensures Built(file + contents + Trailer(contents), interval, pairs, done + [open], [],
                  handles + [Handle(|file|, |contents|)], index)
  {
    hide KeysOk, IndexKeyOk, IsBlock, StoredAt, Trailer, EncodeHandle;
    var h := Handle(|file|, |contents|);
    StoredHere(file, contents);
    assert file + contents + Trailer(contents) == file + (contents + Trailer(contents));
    DataStays(file, interval, done, handles, contents + Trailer(contents));
    FlatOpen(done, open);
  }

  // The filter being filled is that of the open block.
  ghost predicate FilterOk(done: seq<seq<Pair>>, open: seq<Pair>, handles: seq<Handle>, offset: nat,
                           groups: seq<seq<Bytes>>, pending: seq<Bytes>) {
    && |groups| == offset / FILTER_BASE
    && AllGrouped(done, handles, groups + [pending])
    && Grouped(open, offset, groups + [pending])
  }

  lemma FilterAdds(done: seq<seq<Pair>>, open: seq<Pair>, handles: seq<Handle>, offset: nat,
                   groups: seq<seq<Bytes>>, pending: seq<Bytes>, p: Pair)
    requires FilterOk(done, open, handles, offset, groups, pending)
    ensures FilterOk(done, open + [p], handles, offset, groups, pending + [p.key])
  {
    hide AllGrouped;
    var a, b := groups + [pending], groups + [pending + [p.key]];
    assert GroupsGrow(a, b);
    GroupedStays(done, handles, a, b);
    assert p.key in b[|groups|];
  }

  lemma FilterFlushes(done: seq<seq<Pair>>, open: seq<Pair>, handles: seq<Handle>, offset: nat, size: nat, end: nat,
                      groups: seq<seq<Bytes>>, pending: seq<Bytes>, groups': seq<seq<Bytes>>, pending': seq<Bytes>)
    requires FilterOk(done, open, handles, offset, groups, pending) && |done| == |handles|
    requires |groups'| == end / FILTER_BASE && groups <= groups'
    requires |groups'| == |groups| ==> pending' == pending
    requires |groups'| > |groups| ==> groups'[|groups|] == pending
    ensures FilterOk(done + [open], [], handles + [Handle(offset, size)], end, groups', pending')
  {
    var a, b := groups + [pending], groups' + [pending'];
    var blocks, all := done + [open], handles + [Handle(offset, size)];
    assert GroupsGrow(a, b);
    assert AllGrouped(blocks, all, a) by {
      forall i | 0 <= i < |blocks| ensures Grouped(blocks[i], all[i].offset, a) {
        assert i < |done| ==> Grouped(done[i], handles[i].offset, a);
      }
    }
    GroupedStays(blocks, all, a, b);
  }

  // --- A finished table file ---

  datatype Layout = Layout(blocks: seq<seq<Pair>>, handles: seq<Handle>, index: seq<Pair>, indexHandle: Handle,
                           meta: seq<Pair>, metaHandle: Handle, filterHandle: Handle, groups: seq<seq<Bytes>>)

  // Options: the filter is built when there is a policy, and found under `name` in the metaindex block.
  datatype TableOptions = TableOptions(blockSize: nat, interval: nat, filtering: bool, name: Bytes,
                                       hash: Bytes -> Word32, bitsPerKey: nat, probes: Byte)

  // InternalFilterPolicy hashes user keys.
  function UserHash(hash: Bytes -> Word32): Bytes -> Word32 {
    (key: Bytes) => hash(UserKeyOf(key))
  }

  ghost predicate TableOf(file: Bytes, options: TableOptions, pairs: seq<Pair>, t: Layout) {
    && options.interval > 0
    && KeysOk(pairs) && pairs == Flat(t.blocks) && Cut(t.blocks)
    && |t.index| == |t.blocks| == |t.handles| && IndexOk(t.blocks, t.handles, t.index)
    && DataStored(file, options.interval, t.blocks, t.handles)
    && BlockStored(file, 1, t.index, t.indexHandle)
    && BlockStored(file, options.interval, t.meta, t.metaHandle)
    && (if options.filtering then
          && t.meta == [Pair(options.name, EncodeHandle(t.filterHandle))]
          && AllGrouped(t.blocks, t.handles, t.groups)
          && FilterStored(file, options.hash, t.groups, t.filterHandle)
        else
          t.meta == [])
    && EndsWith(file, EncodeFooter(Footer(t.metaHandle, t.indexHandle)))
  }

  ghost predicate FilterStored(file: Bytes, hash: Bytes -> Word32, groups: seq<seq<Bytes>>, h: Handle) {
    exists contents :: StoredAt(file, h, contents) && IsFilterBlock(UserHash(hash), groups, contents)
  }

  lemma FilterStays(file: Bytes, hash: Bytes -> Word32, groups: seq<seq<Bytes>>, h: Handle, more: Bytes)
    requires FilterStored(file, hash, groups, h)
    ensures FilterStored(file + more, hash, groups, h)
  {
    hide StoredAt, IsFilterBlock;
    var contents :| StoredAt(file, h, contents) && IsFilterBlock(UserHash(hash), groups, contents);
    StoredStays(file, h, contents, more);
  }

  ghost predicate EndsWith(file: Bytes, tail: Bytes) {
    |tail| <= |file| && file[|file| - |tail|..] == tail
  }

  // The block with the new pair stays open while it is below the block size, and is written once it is not.
  ghost predicate AddedOrCut(options: TableOptions, done: seq<seq<Pair>>, open: seq<Pair>, done': seq<seq<Pair>>,
                             open': seq<Pair>) {
    && options.interval > 0
    && (BlockSize(open, options.interval) < options.blockSize ==> done' == done && open' == open)
    && (BlockSize(open, options.interval) >= options.blockSize ==> done' == done + [open] && open' == [])
  }

  lemma CutIff(options: TableOptions, done: seq<seq<Pair>>, open: seq<Pair>, done': seq<seq<Pair>>, open': seq<Pair>)
    requires options.interval > 0 && open != []
    requires BlockSize(open, options.interval) < options.blockSize ==> done' == done && open' == open
    requires BlockSize(open, options.interval) >= options.blockSize ==> done' == WithOpen(done, open) && open' == []
    ensures AddedOrCut(options, done, open, done', open')
  {
  }

  // Every block but the last is cut as soon as it reaches the block size.
  ghost predicate CutBySize(options: TableOptions, blocks: seq<seq<Pair>>) {
    && options.interval > 0
    && (forall i :: 0 <= i < |blocks| ==> FillsLate(options, blocks[i]))
    && (forall i :: 0 <= i < |blocks| - 1 ==> BlockSize(blocks[i], options.interval) >= options.blockSize)
  }

  ghost predicate FillsLate(options: TableOptions, block: seq<Pair>)
    requires options.interval > 0
  {
    block != [] && (|block| > 1 ==> BlockSize(block[..|block| - 1], options.interval) < options.blockSize)
  }

  // What the calls of Add keep of the blocks.
  ghost predicate CutSoFar(options: TableOptions, done: seq<seq<Pair>>, open: seq<Pair>) {
    && options.interval > 0
    && (forall i :: 0 <= i < |done| ==>
          FillsLate(options, done[i]) && BlockSize(done[i], options.interval) >= options.blockSize)
    && (open != [] ==> FillsLate(options, open) && BlockSize(open, options.interval) < options.blockSize)
  }

  lemma CutMore(options: TableOptions, done: seq<seq<Pair>>, open: seq<Pair>, p: Pair, done': seq<seq<Pair>>, open': seq<Pair>)
    requires CutSoFar(options, done, open) && AddedOrCut(options, done, open + [p], done', open')
    ensures CutSoFar(options, done', open')
  {
    hide BlockSize;
    assert (open + [p])[..|open|] == open;
  }

  lemma CutEnds(options: TableOptions, done: seq<seq<Pair>>, open: seq<Pair>)
    requires CutSoFar(options, done, open)
    ensures CutBySize(options, WithOpen(done, open))
  {
    hide BlockSize;
  }

  class TableBuilder {
    const options: TableOptions
    const dataBlock: BlockBuilder
    const indexBlock: BlockBuilder
    const filterBlock: FilterBlockBuilder
    var file: Bytes
    var offset: nat
    var lastKey: Bytes
    var pendingIndexEntry: bool
    var pendingHandle: Handle

    ghost var done: seq<seq<Pair>>        // the data blocks written
    ghost var handles: seq<Handle>        // and where they are
    ghost var pairs: seq<Pair>            // everything added

    ghost predicate Parts()
      reads this, dataBlock, indexBlock, filterBlock
    {
      && dataBlock != indexBlock
      && dataBlock.Valid() && indexBlock.Valid() && filterBlock.Valid()
      && options.interval > 0 && dataBlock.interval == options.interval && indexBlock.interval == 1
      && filterBlock.hash == UserHash(options.hash)
    }

    ghost predicate Valid()
      reads this, dataBlock, indexBlock, filterBlock
    {
      && Parts() && offset == |file|
      && Built(file, options.interval, pairs, done, dataBlock.pairs, handles, indexBlock.pairs)
      && lastKey == (if pairs == [] then [] else LastKey(pairs))
      && (pendingIndexEntry <==> done != [] && dataBlock.pairs == [])
      && (pendingIndexEntry ==> |handles| == |done| && pendingHandle == handles[|handles| - 1])
      && (options.filtering ==>
            FilterOk(done, dataBlock.pairs, handles, offset, filterBlock.groups, filterBlock.pending))
    }

    constructor (options: TableOptions)
      requires options.interval > 0
      ensures Valid() && pairs == [] && this.options == options
      ensures done == [] && dataBlock.pairs == []
      ensures fresh(dataBlock) && fresh(indexBlock) && fresh(filterBlock)
    {
      hide Built, FilterOk, UserHash;
      hide BlockBuilder.Valid, FilterBlockBuilder.Valid;
      this.options := options;
      dataBlock := new BlockBuilder(options.interval);
      indexBlock := new BlockBuilder(1);
      filterBlock := new FilterBlockBuilder(UserHash(options.hash), options.bitsPerKey, options.probes);
      file, offset, lastKey, pendingIndexEntry, pendingHandle := [], 0, [], false, Handle(0, 0);
      done, handles, pairs := [], [], [];
      new;
      NothingBuilt(options.interval);
      if options.filtering {
        filterBlock.StartBlock(0);
        assert filterBlock.groups == [];
      }
    }

    method Add(key: Bytes, value: Bytes)
      requires Valid() && |key| >= 8
      requires pairs != [] ==> KeyLess(KeyOf(LastKey(pairs)), KeyOf(key))
      modifies this, dataBlock, indexBlock, filterBlock
      ensures Valid() && pairs == old(pairs) + [Pair(key, value)]
      ensures AddedOrCut(options, old(done), old(dataBlock.pairs) + [Pair(key, value)], done, dataBlock.pairs)
    {
      hide *;
      AddEntry(key, value);
      SizeOfOpen();
      ghost var before, open := done, dataBlock.pairs;
      if dataBlock.CurrentSizeEstimate() >= options.blockSize {
        Flush();
      }
      CutIff(options, before, open, done, dataBlock.pairs);
    }

    lemma SizeOfOpen()
      requires Valid()
      ensures options.interval > 0 && dataBlock.CurrentSizeEstimate() == BlockSize(dataBlock.pairs, options.interval)
    {
      hide FilterOk, Built, UserHash, FilterBlockBuilder.Valid;
      dataBlock.SizeIs();
    }

    // Everything of Add before the size test.
    method AddEntry(key: Bytes, value: Bytes)
      requires Valid() && |key| >= 8
      requires pairs != [] ==> KeyLess(KeyOf(LastKey(pairs)), KeyOf(key))
      modifies this, dataBlock, indexBlock, filterBlock
      ensures Valid() && pairs == old(pairs) + [Pair(key, value)]
      ensures done == old(done) && dataBlock.pairs == old(dataBlock.pairs) + [Pair(key, value)]
    {
      hide KeyOf, KeyLess, Separates, FilterOk, EncodeHandle, UserHash, Built;
      hide BlockBuilder.Valid, FilterBlockBuilder.Valid;
      ghost var p := Pair(key, value);
      HasKeys();
      if pendingIndexEntry {
        lastKey := Separator(lastKey, key);
        var handleEncoding := EncodeHandle(pendingHandle);
        BuiltOpens(file, options.interval, pairs, done, handles, indexBlock.pairs, Pair(lastKey, handleEncoding), p);
        indexBlock.Add(lastKey, handleEncoding);
        pendingIndexEntry := false;
      } else {
        BuiltAdds(file, options.interval, pairs, done, dataBlock.pairs, handles, indexBlock.pairs, p);
      }
      if options.filtering {
        FilterAdds(done, dataBlock.pairs, handles, offset, filterBlock.groups, filterBlock.pending, p);
        filterBlock.AddKey(key);
      }
      lastKey := key;
      ghost var open := dataBlock.pairs;
      dataBlock.Add(key, value);
      assert [] + [p] == [p] && dataBlock.pairs == open + [p];
      pairs := pairs + [p];
    }

    lemma HasKeys()
      requires Valid()
      ensures pendingIndexEntry ==> pairs != [] && |LastKey(pairs)| >= 8
    {
      if pendingIndexEntry {
        LastOfFlat(done);
      }
    }

    method Flush()
      requires Valid()
      modifies this, dataBlock, filterBlock
      ensures Valid() && pairs == old(pairs) && dataBlock.pairs == []
      ensures done == WithOpen(old(done), old(dataBlock.pairs))
    {
      hide FilterOk, UserHash, IsBlock, Built, Trailer;
      hide BlockBuilder.Valid, FilterBlockBuilder.Valid;
      var empty := dataBlock.IsEmpty();
      if empty {
        return;
      }
      var contents := dataBlock.Finish();
      BuiltFlushes(file, options.interval, pairs, done, dataBlock.pairs, handles, indexBlock.pairs, contents);
      Lengths();
      ghost var open, start := dataBlock.pairs, offset;
      ghost var groups, keys := filterBlock.groups, filterBlock.pending;
      pendingHandle := WriteRawBlock(contents);
      dataBlock.Reset();
      pendingIndexEntry := true;
      if options.filtering {
        filterBlock.StartBlock(offset);
        FilterFlushes(done, open, handles, start, |contents|, offset, groups, keys, filterBlock.groups, filterBlock.pending);
      }
      done, handles := done + [open], handles + [pendingHandle];
    }

    lemma Lengths()
      requires Valid()
      ensures |done| == |handles|
      ensures options.filtering ==> |filterBlock.groups| == offset / FILTER_BASE
    {
    }

    method WriteRawBlock(contents: Bytes) returns (handle: Handle)
      requires offset == |file|
      modifies this`file, this`offset
      ensures handle == Handle(old(offset), |contents|)
      ensures file == old(file) + contents + Trailer(contents) && offset == |file|
    {
      hide Trailer;
      handle := Handle(offset, |contents|);
      file := file + contents;
      file := file + Trailer(contents);
      offset := offset + |contents| + TRAILER_SIZE;
    }

    // Every data block is written and its index entry is written or pending.
    ghost predicate Flushed(blocks: seq<seq<Pair>>)
      reads this, dataBlock, indexBlock, filterBlock
    {
      && Parts() && offset == |file| && done == blocks && |handles| == |done|
      && KeysOk(pairs) && pairs == Flat(done) && Cut(done)
      && DataStored(file, options.interval, done, handles)
    }

    // A pending entry is that of the last block written.
    ghost predicate LastPending()
      reads this
    {
      pendingIndexEntry ==>
        && done != [] && |handles| == |done| && pendingHandle == handles[|handles| - 1]
        && done[|done| - 1] != [] && LastKey(done[|done| - 1]) == lastKey && |lastKey| >= 8
    }

    lemma IsFlushed()
      requires Valid() && dataBlock.pairs == []
      ensures Flushed(done) && IndexOk(done, handles, indexBlock.pairs)
      ensures |indexBlock.pairs| + (if pendingIndexEntry then 1 else 0) == |done|
      ensures LastPending()
      ensures options.filtering ==> AllGrouped(done, handles, filterBlock.groups + [filterBlock.pending])
    {
      hide IndexOk, BlockStored, Grouped;
      hide BlockBuilder.Valid, FilterBlockBuilder.Valid;
      if pendingIndexEntry {
        LastOfFlat(done);
      }
    }

    // The layout is what Table::Open has to find again.
    method Finish() returns (ghost t: Layout)
      requires Valid()
      modifies this, dataBlock, indexBlock, filterBlock
      ensures TableOf(file, options, old(pairs), t) && (!options.filtering ==> t.filterHandle.size == 0)
      ensures t.blocks == WithOpen(old(done), old(dataBlock.pairs))
    {
      hide FilterOk, UserHash, Built, IndexOk, BlockStored, DataStored, KeysOk, Flat, AllGrouped, FilterStored, EncodeHandle;
      hide EncodeFooter, Trailer, KeyOf, KeyLeq, TableOf, LastKey;
      hide BlockBuilder.Valid, FilterBlockBuilder.Valid;
      Flush();
      IsFlushed();
      var filterHandle := Handle(0, 0);
      ghost var groups: seq<seq<Bytes>> := [];
      if options.filtering {
        filterHandle, groups := WriteFilter();
      }
      var metaHandle, meta := WriteMeta(filterHandle, groups);
      CloseIndex();
      var indexHandle := WriteIndex(filterHandle, groups, metaHandle, meta);
      t := Layout(done, handles, indexBlock.pairs, indexHandle, meta, metaHandle, filterHandle, groups);
      WriteFooter(metaHandle, indexHandle, t);
    }

    // The pending entry of the last block.
    method CloseIndex()
      requires |indexBlock.pairs| + (if pendingIndexEntry then 1 else 0) == |done| == |handles|
      requires Flushed(done) && IndexOk(done, handles, indexBlock.pairs) && LastPending()
      modifies this`lastKey, this`pendingIndexEntry, indexBlock
      ensures |indexBlock.pairs| == |done| == |handles|
      ensures Flushed(done) && IndexOk(done, handles, indexBlock.pairs)
    {
      hide KeysOk, DataStored, Flat, UserHash, EncodeHandle, IndexOk, KeyOf, KeyLeq;
      hide BlockBuilder.Valid, FilterBlockBuilder.Valid;
      if pendingIndexEntry {
        lastKey := Successor(lastKey);
        var handleEncoding := EncodeHandle(pendingHandle);
        IndexCloses(done, handles, indexBlock.pairs, Pair(lastKey, handleEncoding));
        indexBlock.Add(lastKey, handleEncoding);
        pendingIndexEntry := false;
      }
    }

    method WriteFooter(metaHandle: Handle, indexHandle: Handle, ghost t: Layout)
      requires t.metaHandle == metaHandle && t.indexHandle == indexHandle
      requires Flushed(done) && t.blocks == done && t.handles == handles && t.index == indexBlock.pairs
      requires |t.index| == |done| && IndexOk(done, handles, t.index)
      requires BlockStored(file, 1, t.index, t.indexHandle) && BlockStored(file, options.interval, t.meta, t.metaHandle)
      requires options.filtering ==>
                 && t.meta == [Pair(options.name, EncodeHandle(t.filterHandle))] && AllGrouped(done, handles, t.groups)
                 && FilterStored(file, options.hash, t.groups, t.filterHandle)
      requires !options.filtering ==> t.meta == []
      modifies this`file, this`offset
      ensures TableOf(file, options, pairs, t)
    {
      hide UserHash, IndexOk, BlockStored, DataStored, KeysOk, Flat, AllGrouped, FilterStored, EncodeHandle, EncodeFooter, Cut;
      hide BlockBuilder.Valid, FilterBlockBuilder.Valid;
      var footer := EncodeFooter(Footer(metaHandle, indexHandle));
      DataStays(file, options.interval, done, handles, footer);
      if options.filtering {
        FilterStays(file, options.hash, t.groups, t.filterHandle, footer);
      }
      BlockStays(file, options.interval, t.meta, t.metaHandle, footer);
      BlockStays(file, 1, indexBlock.pairs, t.indexHandle, footer);
      file := file + footer;
      offset := offset + |footer|;
      assert file[|file| - |footer|..] == footer;
    }

    method WriteFilter() returns (handle: Handle, ghost groups: seq<seq<Bytes>>)
      requires Flushed(done)
      requires AllGrouped(done, handles, filterBlock.groups + [filterBlock.pending])
      modifies this`file, this`offset, filterBlock
      ensures Flushed(done)
      ensures AllGrouped(done, handles, groups) && FilterStored(file, options.hash, groups, handle)
    {
      hide KeysOk, BlockStored, Flat, IsFilterBlock, UserHash, StoredAt, Trailer, AllGrouped;
      hide BlockBuilder.Valid, FilterBlockBuilder.Valid;
      ghost var before := filterBlock.groups + [filterBlock.pending];
      var contents := filterBlock.Finish();
      groups := filterBlock.groups;
      if |groups| == |before| - 1 {
        assert groups + [[]] == before;
        GroupedDrop(done, handles, groups);
      }
      StoredHere(file, contents);
      handle := Store(contents);
    }

    // WriteRawBlock, keeping the data blocks.
    method Store(contents: Bytes) returns (handle: Handle)
      requires Flushed(done)
      modifies this`file, this`offset
      ensures Flushed(done) && handle == Handle(old(offset), |contents|)
      ensures file == old(file) + contents + Trailer(contents)
    {
      hide KeysOk, BlockStored, DataStored, Flat, UserHash, Trailer, Cut;
      hide BlockBuilder.Valid, FilterBlockBuilder.Valid;
      DataStays(file, options.interval, done, handles, contents + Trailer(contents));
      assert file + contents + Trailer(contents) == file + (contents + Trailer(contents));
      handle := WriteRawBlock(contents);
    }

    method WriteMeta(filterHandle: Handle, ghost groups: seq<seq<Bytes>>) returns (handle: Handle, ghost meta: seq<Pair>)
      requires Flushed(done) && (options.filtering ==> FilterStored(file, options.hash, groups, filterHandle))
      modifies this`file, this`offset
      ensures Flushed(done) && (options.filtering ==> FilterStored(file, options.hash, groups, filterHandle))
      ensures meta == if options.filtering then [Pair(options.name, EncodeHandle(filterHandle))] else []
      ensures BlockStored(file, options.interval, meta, handle)
    {
      hide KeysOk, DataStored, Flat, UserHash, Trailer, Cut, FilterStored, EncodeHandle, StoredAt, IsBlock;
      hide BlockBuilder.Valid, FilterBlockBuilder.Valid;
      var metaBlock := new BlockBuilder(options.interval);
      if options.filtering {
        metaBlock.Add(options.name, EncodeHandle(filterHandle));
      }
      meta := metaBlock.pairs;
      var contents := metaBlock.Finish();
      StoredHere(file, contents);
      if options.filtering {
        FilterStays(file, options.hash, groups, filterHandle, contents + Trailer(contents));
      }
      assert file + contents + Trailer(contents) == file + (contents + Trailer(contents));
      handle := Store(contents);
    }

    method WriteIndex(ghost filterHandle: Handle, ghost groups: seq<seq<Bytes>>, ghost metaHandle: Handle, ghost meta: seq<Pair>)
      returns (handle: Handle)
      requires Flushed(done) && (options.filtering ==> FilterStored(file, options.hash, groups, filterHandle))
      requires BlockStored(file, options.interval, meta, metaHandle)
      modifies this`file, this`offset, indexBlock
      ensures Flushed(done) && (options.filtering ==> FilterStored(file, options.hash, groups, filterHandle))
      ensures BlockStored(file, options.interval, meta, metaHandle)
      ensures indexBlock.pairs == old(indexBlock.pairs) && BlockStored(file, 1, indexBlock.pairs, handle)
    {
      hide KeysOk, DataStored, Flat, UserHash, Trailer, Cut, FilterStored, StoredAt, IsBlock;
      hide BlockBuilder.Valid, FilterBlockBuilder.Valid;
      var contents := indexBlock.Finish();
      StoredHere(file, contents);
      ghost var more := contents + Trailer(contents);
      if options.filtering {
        FilterStays(file, options.hash, groups, filterHandle, more);
      }
      BlockStays(file, options.interval, meta, metaHandle, more);
      assert file + contents + Trailer(contents) == file + more;
      handle := Store(contents);
    }
  }
}
