/** The contents of a table (table/table_builder.cc, table/table.cc): data blocks, index keys that separate them, and
    the answer of a lookup. */
module TableLayout {
  import opened InternalKeys
  import opened Coding
  import opened Separators
  import opened TableFormat
  import opened Bloom
  import opened FilterBlocks
  import opened Blocks
  import opened BlockIters
  import opened Cursors

  // --- What a lookup must answer ---

  ghost predicate SameUser(a: Bytes, b: Bytes) {
    UserKeyOf(a) == UserKeyOf(b)
  }

  // The flat list's first entry at or after the target, when it has the target's user key.
  ghost function Sought(pairs: seq<Pair>, target: Bytes): Option<Pair> {
    var i := FirstAtLeast(InternalRank, pairs, target);
    if i < |pairs| then OfUser(pairs[i], target) else None
  }

  ghost function OfUser(p: Pair, target: Bytes): Option<Pair> {
    if SameUser(p.key, target) then Some(p) else None
  }

  // `r` answers as that entry, possibly with an entry of another user key when there is none.
  ghost predicate Answers(r: Option<Pair>, pairs: seq<Pair>, target: Bytes) {
    && (r.Some? && SameUser(r.value.key, target) <==> Sought(pairs, target).Some?)
    && (Sought(pairs, target).Some? ==> r == Sought(pairs, target))
    && (r.Some? ==> r.value in pairs)
  }

  // --- Blocks and their index keys ---

  ghost predicate KeysOk(pairs: seq<Pair>) {
    SortedBy(InternalRank, pairs) && forall i :: 0 <= i < |pairs| ==> |pairs[i].key| >= 8
  }

  ghost predicate Cut(blocks: seq<seq<Pair>>) {
    forall i :: 0 <= i < |blocks| ==> blocks[i] != []
  }

  function LastKey(pairs: seq<Pair>): Bytes
    requires pairs != []
  {
    pairs[|pairs| - 1].key
  }

  // Index key i is at or after block i and before block i + 1.
  ghost predicate IndexKeyOk(blocks: seq<seq<Pair>>, i: nat, key: Bytes)
    requires Cut(blocks)
  {
    && i < |blocks| && |key| >= 8
    && KeyLeq(KeyOf(LastKey(blocks[i])), KeyOf(key))
    && (i + 1 < |blocks| ==> Separates(KeyOf(LastKey(blocks[i])), KeyOf(key), KeyOf(blocks[i + 1][0].key)))
  }

  ghost predicate IndexOk(blocks: seq<seq<Pair>>, handles: seq<Handle>, index: seq<Pair>)
    requires Cut(blocks) && |index| <= |handles|
  {
    forall i :: 0 <= i < |index| ==> IndexKeyOk(blocks, i, index[i].key) && index[i].value == EncodeHandle(handles[i])
  }

  lemma RankLeq(a: Bytes, b: Bytes)
    ensures KeyLeq(KeyOf(a), KeyOf(b)) ==> InternalRank(a) <= InternalRank(b)
    ensures KeyLess(KeyOf(a), KeyOf(b)) <==> InternalRank(a) < InternalRank(b)
  {
    InternalRankOrder(a, b);
  }

  lemma BlockSorted(blocks: seq<seq<Pair>>, j: nat)
    requires KeysOk(Flat(blocks)) && j < |blocks|
    ensures KeysOk(blocks[j])
  {
    hide InternalRank, Flat, Base;
    forall p | 0 <= p < |blocks[j]|
      ensures Base(blocks, j) + p < |Flat(blocks)| && blocks[j][p] == Flat(blocks)[Base(blocks, j) + p]
    {
      FlatAt(blocks, j, p);
    }
  }

  // The index block is itself sorted.
  lemma IndexSorted(blocks: seq<seq<Pair>>, handles: seq<Handle>, index: seq<Pair>)
    requires Cut(blocks) && |index| <= |handles| && IndexOk(blocks, handles, index)
    requires KeysOk(Flat(blocks))
    ensures SortedBy(InternalRank, index)
  {
    hide InternalRank, KeysOk, Flat, Base, KeyOf;
    forall i, j | 0 <= i < j < |index| ensures InternalRank(index[i].key) < InternalRank(index[j].key) {
      assert IndexKeyOk(blocks, i, index[i].key) && IndexKeyOk(blocks, j, index[j].key);
      var first, last := blocks[i + 1][0].key, LastKey(blocks[j]);
      RankLeq(index[i].key, first);
      RankLeq(last, index[j].key);
      BlocksOrdered(blocks, i + 1, 0, j, |blocks[j]| - 1);
    }
  }

  lemma BlocksOrdered(blocks: seq<seq<Pair>>, j: nat, p: nat, j': nat, p': nat)
    requires KeysOk(Flat(blocks))
    requires j < |blocks| && p < |blocks[j]| && j' < |blocks| && p' < |blocks[j']|
    requires j < j' || (j == j' && p <= p')
    ensures InternalRank(blocks[j][p].key) <= InternalRank(blocks[j'][p'].key)
  {
    hide InternalRank, Flat, Base;
    FlatAt(blocks, j, p);
    FlatAt(blocks, j', p');
    BlockBase(blocks, j);
    if j < j' {
      BaseOrder(blocks, j + 1, j');
    }
  }

  // --- The lookup theorem ---

  // The entries of the blocks before the one the index picks are below the target.
  lemma BeforeBlock(blocks: seq<seq<Pair>>, handles: seq<Handle>, index: seq<Pair>, target: Bytes, j: nat, q: nat)
    requires Cut(blocks) && |index| <= |handles| && IndexOk(blocks, handles, index) && KeysOk(Flat(blocks))
    requires j <= |index| && (j > 0 ==> InternalRank(index[j - 1].key) < InternalRank(target))
    requires j <= |blocks| && q < Base(blocks, j)
    ensures q < |Flat(blocks)| && InternalRank(Flat(blocks)[q].key) < InternalRank(target)
  {
    hide InternalRank, KeysOk, Flat, Base, KeyOf, Separates;
    BaseOrder(blocks, j, |blocks|);
    var b, p := FlatFind(blocks, q);
    if b >= j {
      BaseOrder(blocks, j, b);
      assert false;
    }
    assert IndexKeyOk(blocks, j - 1, index[j - 1].key);
    RankLeq(LastKey(blocks[j - 1]), index[j - 1].key);
    BlocksOrdered(blocks, b, p, j - 1, |blocks[j - 1]| - 1);
  }

  // Seeking the index and then one block finds what seeking the flat list finds.
  lemma LookupSplits(blocks: seq<seq<Pair>>, handles: seq<Handle>, index: seq<Pair>, target: Bytes)
    requires |target| >= 8
    requires Cut(blocks) && |index| == |blocks| <= |handles| && IndexOk(blocks, handles, index)
    requires KeysOk(Flat(blocks))
    ensures var j := FirstAtLeast(InternalRank, index, target);
            && (j == |index| ==> Sought(Flat(blocks), target).None?)
            && (j < |index| ==>
                  var p := FirstAtLeast(InternalRank, blocks[j], target);
                  && (p < |blocks[j]| ==> Sought(Flat(blocks), target) == OfUser(blocks[j][p], target))
                  && (p == |blocks[j]| ==> Sought(Flat(blocks), target).None?))
  {
    hide InternalRank, KeysOk, IndexOk, Flat, Base, FirstAtLeast, KeyOf;
    var flat := Flat(blocks);
    var j := FirstAtLeast(InternalRank, index, target);
    BaseOrder(blocks, j, |blocks|);
    forall q | 0 <= q < Base(blocks, j) ensures InternalRank(flat[q].key) < InternalRank(target) {
      BeforeBlock(blocks, handles, index, target, j, q);
    }
    if j == |index| {
      FirstIs(InternalRank, flat, target, |flat|);
    } else {
      var p := FirstAtLeast(InternalRank, blocks[j], target);
      BlockBase(blocks, j);
      BaseOrder(blocks, j + 1, |blocks|);
      forall q | Base(blocks, j) <= q < Base(blocks, j) + p ensures InternalRank(flat[q].key) < InternalRank(target) {
        FlatAt(blocks, j, q - Base(blocks, j));
      }
      if p < |blocks[j]| {
        FlatAt(blocks, j, p);
        FirstIs(InternalRank, flat, target, Base(blocks, j) + p);
      } else {
        NextBlock(blocks, handles, index, target, j);
      }
    }
  }

  // A target between the last key of a block and its index key: the next block begins with another user key.
  lemma NextBlock(blocks: seq<seq<Pair>>, handles: seq<Handle>, index: seq<Pair>, target: Bytes, j: nat)
    requires |target| >= 8 && KeysOk(Flat(blocks))
    requires Cut(blocks) && |index| == |blocks| <= |handles| && IndexOk(blocks, handles, index) && j < |index|
    requires InternalRank(index[j].key) >= InternalRank(target)
    requires InternalRank(LastKey(blocks[j])) < InternalRank(target)
    requires Base(blocks, j + 1) <= |Flat(blocks)|
    requires forall q :: 0 <= q < Base(blocks, j + 1) ==> InternalRank(Flat(blocks)[q].key) < InternalRank(target)
    ensures Sought(Flat(blocks), target).None?
  {
    hide InternalRank, Flat, Base, KeyOf, LexLess, FirstAtLeast;
    var flat := Flat(blocks);
    assert IndexKeyOk(blocks, j, index[j].key);
    if j + 1 == |blocks| {
      BaseOrder(blocks, j + 1, j + 1);
      FirstIs(InternalRank, flat, target, |flat|);
    } else {
      var first := blocks[j + 1][0];
      FlatAt(blocks, j + 1, 0);
      RankLeq(index[j].key, first.key);
      FirstIs(InternalRank, flat, target, Base(blocks, j + 1));
      RankLeq(index[j].key, target);
      DifferentUser(LastKey(blocks[j]), index[j].key, first.key, target);
    }
  }

  lemma DifferentUser(last: Bytes, sep: Bytes, next: Bytes, target: Bytes)
    requires Separates(KeyOf(last), KeyOf(sep), KeyOf(next)) && |next| >= 8 && |target| >= 8
    requires InternalRank(last) < InternalRank(target) <= InternalRank(sep)
    ensures !SameUser(next, target)
  {
    hide InternalRank;
    var s, t, n := KeyOf(sep), KeyOf(target), KeyOf(next);
    RankLeq(last, target);
    RankLeq(sep, target);
    RankLeq(last, sep);
    KeyTotal(s, t);
    if LexLess(t.user, s.user) {
      LexTransitive(t.user, s.user, n.user);
    }
    LexTotal(t.user, n.user);
    LexTotal(n.user, n.user);
  }
}
