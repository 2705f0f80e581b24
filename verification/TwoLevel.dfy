/** TwoLevelIterator (table/two_level_iterator.cc): an index of blocks and a cursor in one block form a cursor in the
    concatenation.  Blocks may be empty.  It serves both tables and the files of a level. */
module TwoLevel {
  import opened InternalKeys
  import opened Cursors

  // Index entry i is at or after every entry up to block i and before every entry of later blocks.
  ghost predicate IndexSeparates(index: seq<Entry>, blocks: seq<seq<Entry>>) {
    && |index| == |blocks|
    && forall i, j, p :: 0 <= i < |index| && 0 <= j < |blocks| && 0 <= p < |blocks[j]| ==>
         if j <= i then !Less(index[i].key, blocks[j][p].key) else Less(index[i].key, blocks[j][p].key)
  }

  lemma LessTransitive(a: IKey, b: IKey, c: IKey)
    requires !Less(b, a) && Less(b, c)
    ensures Less(a, c)
  {
  }

  // Seeking the index and then its block is seeking the concatenation.
  lemma SeekSplits(index: seq<Entry>, blocks: seq<seq<Entry>>, target: IKey)
    requires IndexSeparates(index, blocks)
    ensures var i := SeekPos(index, target);
            SeekPos(Flat(blocks), target) == if i == |index| then |Flat(blocks)| else Base(blocks, i) + SeekPos(blocks[i], target)
  {
    hide Flat, Base, SeekPos, Less;
    var flat := Flat(blocks);
    var i := SeekPos(index, target);
    var m := if i == |index| then |flat| else Base(blocks, i) + SeekPos(blocks[i], target);
    if i < |index| {
      BlockBase(blocks, i);
      BaseOrder(blocks, i + 1, |blocks|);
    }
    forall q | 0 <= q < m ensures Less(flat[q].key, target) {
      var j, p := FlatFind(blocks, q);
      if j < i {
        assert !Less(index[j].key, blocks[j][p].key) && Less(index[j].key, target);
        LessTransitive(blocks[j][p].key, index[j].key, target);
      } else {
        InBlock(blocks, i, j, p, q);
      }
    }
    if m < |flat| {
      var j, p := FlatFind(blocks, m);
      AfterSeek(index, blocks, target, i, j, p);
    }
    SeekIs(flat, target, m);
  }

  lemma InBlock(blocks: seq<seq<Entry>>, i: nat, j: nat, p: nat, q: nat)
    requires i <= j < |blocks| && p < |blocks[j]| && q == Base(blocks, j) + p
    ensures q >= Base(blocks, i) && (q < Base(blocks, i + 1) ==> j == i)
  {
    hide Flat, Base;
    BaseOrder(blocks, i, j);
    if i < j {
      BaseOrder(blocks, i + 1, j);
    }
  }

  lemma AfterSeek(index: seq<Entry>, blocks: seq<seq<Entry>>, target: IKey, i: nat, j: nat, p: nat)
    requires IndexSeparates(index, blocks) && i < |index| && i == SeekPos(index, target)
    requires j < |blocks| && p < |blocks[j]|
    requires Base(blocks, j) + p == Base(blocks, i) + SeekPos(blocks[i], target)
    ensures !Less(blocks[j][p].key, target)
  {
    hide Flat, Base, SeekPos, Less;
    BlockBase(blocks, j);
    if j < i {
      BaseOrder(blocks, j + 1, i);
      assert false;
    }
    if j > i {
      assert Less(index[i].key, blocks[j][p].key) && !Less(index[i].key, target);
      NotLess(index[i].key, blocks[j][p].key, target);
    }
  }

  lemma NotLess(a: IKey, b: IKey, target: IKey)
    requires Less(a, b) && !Less(a, target)
    ensures !Less(b, target)
  {
  }

  lemma SeekIs(run: seq<Entry>, target: IKey, m: nat)
    requires m <= |run| && (forall q :: 0 <= q < m ==> Less(run[q].key, target))
    requires m < |run| ==> !Less(run[m].key, target)
    ensures SeekPos(run, target) == m
  {
    hide Less;
  }

  class TwoLevelIterator {
    const index: seq<Entry>
    const blocks: seq<seq<Entry>>      // what block_function returns for each index value
    var indexAt: nat                   // the position of index_iter
    var data: Option<nat>              // the position of data_iter; None when there is no data_iter
    var dataBlock: nat                 // data_block_handle_

    ghost var row: nat                 // the position in the concatenation

    ghost predicate Shape()
      reads this
    {
      && |index| == |blocks| && IndexSeparates(index, blocks) && indexAt <= |index|
      && (data.Some? ==> dataBlock < |blocks| && data.value <= |blocks[dataBlock]|)
    }

    predicate DataValid()
      requires Shape()
      reads this
    {
      data.Some? && data.value < |blocks[dataBlock]|
    }

    ghost predicate Consistent()
      reads this
    {
      && Shape()
      && if DataValid() then dataBlock == indexAt && row == Base(blocks, dataBlock) + data.value
         else data.None? && row == |Flat(blocks)|
    }

    constructor (index: seq<Entry>, blocks: seq<seq<Entry>>)
      requires IndexSeparates(index, blocks)
      ensures Consistent() && this.index == index && this.blocks == blocks && row == |Flat(blocks)|
    {
      this.index, this.blocks := index, blocks;
      indexAt, data, dataBlock, row := |index|, None, 0, |Flat(blocks)|;
    }

    method Current() returns (e: Entry)
      requires Consistent() && DataValid()
      ensures row < |Flat(blocks)| && e == Flat(blocks)[row]
    {
      FlatAt(blocks, dataBlock, data.value);
      e := blocks[dataBlock][data.value];
    }

    // A data_iter for the block of index_iter; an existing one for the same handle is kept.
    method InitDataBlock()
      requires Shape()
      modifies this`data, this`dataBlock
      ensures Shape() && (if indexAt == |index| then data.None? else data.Some? && dataBlock == indexAt)
    {
      if indexAt == |index| {
        data := None;
      } else if data.Some? && indexAt == dataBlock {
        // already constructed with this handle
      } else {
        data, dataBlock := Some(|blocks[indexAt]|), indexAt;
      }
    }

    // Stands at position m of the concatenation, in the block of index_iter or at its end.
    ghost predicate AtForward(m: nat)
      reads this
    {
      && Shape()
      && if indexAt == |index| then data.None? && m == |Flat(blocks)|
         else data.Some? && dataBlock == indexAt && m == Base(blocks, indexAt) + data.value
    }

    method SkipEmptyDataBlocksForward(ghost m: nat)
      requires AtForward(m)
      modifies this
      ensures Consistent() && row == m
    {
      hide Flat, Base, IndexSeparates;
      while !DataValid()
        invariant AtForward(m)
        decreases |index| - indexAt
      {
        if indexAt == |index| {
          data, row := None, m;
          return;
        }
        BlockBase(blocks, indexAt);
        BaseOrder(blocks, indexAt + 1, |blocks|);
        indexAt := indexAt + 1;
        InitDataBlock();
        if data.Some? {
          data := Some(0);
        }
      }
      row := m;
    }

    // The entry to stand at is the last one of the blocks up to index_iter, or the current one.
    ghost predicate AtBackward(m: int)
      reads this
    {
      && Shape()
      && if indexAt == |index| then data.None? && m == -1
         else
           && data.Some? && dataBlock == indexAt
           && m == if data.value < |blocks[indexAt]| then Base(blocks, indexAt) + data.value else Base(blocks, indexAt) - 1
    }

    method SkipEmptyDataBlocksBackward(ghost m: int)
      requires AtBackward(m)
      modifies this
      ensures Consistent() && row == if m < 0 then |Flat(blocks)| else m
    {
      hide Flat, Base, IndexSeparates;
      while !DataValid()
        invariant AtBackward(m)
        decreases if indexAt == |index| then 0 else indexAt + 1
      {
        if indexAt == |index| {
          data, row := None, |Flat(blocks)|;
          return;
        }
        FirstBase();
        if indexAt > 0 {
          BlockBase(blocks, indexAt - 1);
        }
        indexAt := PrevPos(index, indexAt);
        InitDataBlock();
        if data.Some? {
          data := Some(LastPos(blocks[dataBlock]));
        }
      }
      row := m;
    }

    lemma FirstBase()
      requires |blocks| > 0
      ensures Base(blocks, 0) == 0
    {
    }

    method Seek(target: IKey)
      requires Consistent()
      modifies this
      ensures Consistent() && row == SeekPos(Flat(blocks), target)
    {
      hide Flat, Base, IndexSeparates, SeekPos;
      SeekSplits(index, blocks, target);
      indexAt := SeekPos(index, target);
      InitDataBlock();
      if data.Some? {
        data := Some(SeekPos(blocks[dataBlock], target));
      }
      SkipEmptyDataBlocksForward(SeekPos(Flat(blocks), target));
    }

    method SeekToFirst()
      requires Consistent()
      modifies this
      ensures Consistent() && row == 0
    {
      hide Flat, Base, IndexSeparates;
      BaseOrder(blocks, 0, |blocks|);
      NoEntries();
      indexAt := FirstPos(index);
      InitDataBlock();
      if data.Some? {
        data := Some(FirstPos(blocks[dataBlock]));
      }
      SkipEmptyDataBlocksForward(0);
    }

    lemma NoEntries()
      ensures Base(blocks, 0) == 0 && (blocks == [] ==> Flat(blocks) == [])
    {
    }

    method SeekToLast()
      requires Consistent()
      modifies this
      ensures Consistent() && row == if Flat(blocks) == [] then 0 else |Flat(blocks)| - 1
    {
      hide Flat, Base, IndexSeparates;
      NoEntries();
      indexAt := LastPos(index);
      InitDataBlock();
      if data.Some? {
        data := Some(LastPos(blocks[dataBlock]));
        BlockBase(blocks, indexAt);
        BaseOrder(blocks, indexAt + 1, indexAt + 1);
      }
      SkipEmptyDataBlocksBackward(|Flat(blocks)| - 1);
    }

    method Next()
      requires Consistent() && DataValid()
      modifies this
      ensures Consistent() && row == old(row) + 1
    {
      hide Flat, Base, IndexSeparates;
      data := Some(NextPos(blocks[dataBlock], data.value));
      SkipEmptyDataBlocksForward(row + 1);
    }

    method Prev()
      requires Consistent() && DataValid()
      modifies this
      ensures Consistent() && row == if old(row) == 0 then |Flat(blocks)| else old(row) - 1
    {
      hide Flat, Base, IndexSeparates;
      data := Some(PrevPos(blocks[dataBlock], data.value));
      SkipEmptyDataBlocksBackward(row - 1);
    }
  }

  // For every sequence of calls the two-level iterator is a cursor in the concatenation.
  method Drive(it: TwoLevelIterator, ops: seq<Op<IKey>>)
    requires it.Consistent()
    modifies it
    ensures it.Consistent() && it.row == CursorRun(|Flat(it.blocks)|, SeekIn(Flat(it.blocks)), old(it.row), ops)
  {
    hide Flat, Base, IndexSeparates, SeekPos;
    for i := 0 to |ops|
      invariant it.Consistent() && it.row == CursorRun(|Flat(it.blocks)|, SeekIn(Flat(it.blocks)), old(it.row), ops[..i])
    {
      assert ops[..i + 1][..i] == ops[..i];
      InRange(it);
      match ops[i] {
        case Seek(target) => it.Seek(target);
        case SeekToFirst => it.SeekToFirst();
        case SeekToLast => it.SeekToLast();
        case Next => if it.DataValid() { it.Next(); }
        case Prev => if it.DataValid() { it.Prev(); }
      }
    }
    assert ops[..|ops|] == ops;
  }

  lemma InRange(it: TwoLevelIterator)
    requires it.Consistent()
    ensures it.DataValid() <==> it.row < |Flat(it.blocks)|
  {
    hide Flat, Base;
    if it.DataValid() {
      FlatAt(it.blocks, it.dataBlock, it.data.value);
    }
  }
}
