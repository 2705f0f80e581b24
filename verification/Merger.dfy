/** MergingIterator (table/merger.cc): a cursor in the sorted union of its children.

    Each child is a sorted run with a position in it (module Cursors).  `merged` is the sorted union the iterator is
    proved to move in; the code never builds it. */
module Merger {
  import opened InternalKeys
  import opened Cursors

  // merged is the sorted union of children whose keys are pairwise distinct.
  ghost predicate IsMerge(merged: seq<Entry>, lists: seq<seq<Entry>>) {
    && Sorted(merged)
    && (forall d :: 0 <= d < |lists| ==> Sorted(lists[d]))
    && (forall d, i :: 0 <= d < |lists| && 0 <= i < |lists[d]| ==> lists[d][i] in merged)
    && (forall m :: 0 <= m < |merged| ==> Held(lists, merged[m]))
    && (forall d, i, d', i', e :: Holds(lists, d, i, e) && Holds(lists, d', i', e) ==> d == d')
  }

  ghost predicate Held(lists: seq<seq<Entry>>, e: Entry) {
    exists d, i :: Holds(lists, d, i, e)
  }

  ghost predicate Holds(lists: seq<seq<Entry>>, d: int, i: int, e: Entry) {
    0 <= d < |lists| && 0 <= i < |lists[d]| && lists[d][i] == e
  }

  // --- Any children with pairwise distinct sorted keys have a sorted union ---

  predicate Apart(a: IKey, b: IKey) {
    a.user != b.user || a.sequence != b.sequence
  }

  ghost predicate ChildrenOk(lists: seq<seq<Entry>>) {
    && (forall d :: 0 <= d < |lists| ==> Sorted(lists[d]))
    && (forall d, d' :: 0 <= d < d' < |lists| ==> RunsApart(lists[d], lists[d']))
  }

  ghost predicate RunsApart(a: seq<Entry>, b: seq<Entry>) {
    forall e, f :: e in a && f in b ==> Apart(e.key, f.key)
  }

  function InsertEntry(run: seq<Entry>, e: Entry): seq<Entry> {
    if run == [] || Precedes(e.key, run[0].key) then [e] + run else [run[0]] + InsertEntry(run[1..], e)
  }

  function InsertRun(run: seq<Entry>, more: seq<Entry>): seq<Entry> {
    if more == [] then run else InsertEntry(InsertRun(run, more[..|more| - 1]), more[|more| - 1])
  }

  function Union(lists: seq<seq<Entry>>): seq<Entry> {
    if lists == [] then [] else InsertRun(Union(lists[..|lists| - 1]), lists[|lists| - 1])
  }

  lemma {:induction false} InsertEntrySorts(run: seq<Entry>, e: Entry)
    requires Sorted(run) && forall f :: f in run ==> Apart(f.key, e.key)
    ensures Sorted(InsertEntry(run, e)) && forall f :: f in InsertEntry(run, e) <==> f == e || f in run
  {
    if run != [] && !Precedes(e.key, run[0].key) {
      var rest := run[1..];
      assert run == [run[0]] + rest;
      InsertEntrySorts(rest, e);
      assert forall f :: f in InsertEntry(rest, e) ==> Precedes(run[0].key, f.key);
    }
  }

  lemma {:induction false} InsertRunSorts(run: seq<Entry>, more: seq<Entry>)
    requires Sorted(run) && Sorted(more) && RunsApart(run, more)
    ensures Sorted(InsertRun(run, more)) && forall f :: f in InsertRun(run, more) <==> f in run || f in more
    decreases |more|
  {
    if more != [] {
      var n := |more| - 1;
      assert more == more[..n] + [more[n]];
      InsertRunSorts(run, more[..n]);
      assert forall f :: f in more[..n] ==> Precedes(f.key, more[n].key);
      InsertEntrySorts(InsertRun(run, more[..n]), more[n]);
    }
  }

  lemma {:induction false} UnionSorts(lists: seq<seq<Entry>>)
    requires ChildrenOk(lists)
    ensures Sorted(Union(lists)) && forall e :: e in Union(lists) <==> exists d :: 0 <= d < |lists| && e in lists[d]
    decreases |lists|
  {
    hide InsertRun;
    if lists != [] {
      var n := |lists| - 1;
      UnionSorts(lists[..n]);
      forall e, f | e in Union(lists[..n]) && f in lists[n] ensures Apart(e.key, f.key) {
        var d :| 0 <= d < n && e in lists[d];
        assert RunsApart(lists[d], lists[n]);
      }
      InsertRunSorts(Union(lists[..n]), lists[n]);
    }
  }

  lemma UnionIsMerge(lists: seq<seq<Entry>>)
    requires ChildrenOk(lists)
    ensures IsMerge(Union(lists), lists)
  {
    UnionSorts(lists);
    SameMembersMerge(Union(lists), lists);
  }

  lemma SameMembersMerge(merged: seq<Entry>, lists: seq<seq<Entry>>)
    requires ChildrenOk(lists) && Sorted(merged)
    requires forall e :: e in merged <==> exists d :: 0 <= d < |lists| && e in lists[d]
    ensures IsMerge(merged, lists)
  {
    hide Sorted;
    forall d, i | 0 <= d < |lists| && 0 <= i < |lists[d]| ensures lists[d][i] in merged {
      assert lists[d][i] in lists[d];
    }
    forall m | 0 <= m < |merged| ensures Held(lists, merged[m]) {
      assert merged[m] in merged;
      var d :| 0 <= d < |lists| && merged[m] in lists[d];
      var i :| 0 <= i < |lists[d]| && lists[d][i] == merged[m];
      assert Holds(lists, d, i, merged[m]);
    }
    forall d, i, d', i', e | Holds(lists, d, i, e) && Holds(lists, d', i', e) ensures d == d' {
      assert e in lists[d] && e in lists[d'];
    }
  }

  ghost predicate Positions(lists: seq<seq<Entry>>, at: seq<nat>) {
    |at| == |lists| && forall d :: 0 <= d < |lists| ==> at[d] <= |lists[d]|
  }

  // Forward: every child stands at its first entry not before merged[m].
  ghost predicate AheadOf(run: seq<Entry>, p: nat, merged: seq<Entry>, m: nat) {
    && p <= |run| && m <= |merged|
    && forall i :: 0 <= i < |run| ==> (i < p <==> (m == |merged| || Precedes(run[i].key, merged[m].key)))
  }

  ghost predicate Aligned(lists: seq<seq<Entry>>, at: seq<nat>, merged: seq<Entry>, m: nat) {
    Positions(lists, at) && m <= |merged| && forall d :: 0 <= d < |lists| ==> AheadOf(lists[d], at[d], merged, m)
  }

  // Reverse: every child stands at its last entry not after merged[m], or is invalid when it has none.
  ghost predicate BehindOf(run: seq<Entry>, p: nat, merged: seq<Entry>, m: int) {
    && p <= |run| && -1 <= m < |merged| && (p < |run| ==> m >= 0)
    && forall i :: 0 <= i < |run| ==> (i <= p < |run| <==> m >= 0 && !Precedes(merged[m].key, run[i].key))
  }

  ghost predicate AlignedBack(lists: seq<seq<Entry>>, at: seq<nat>, merged: seq<Entry>, m: int) {
    Positions(lists, at) && -1 <= m < |merged| && forall d :: 0 <= d < |lists| ==> BehindOf(lists[d], at[d], merged, m)
  }

  // A child that is valid and whose entry no other valid child's entry precedes.
  ghost predicate IsSmallest(lists: seq<seq<Entry>>, at: seq<nat>, c: nat)
    requires Positions(lists, at)
  {
    && c < |lists| && at[c] < |lists[c]|
    && forall d :: 0 <= d < |lists| && at[d] < |lists[d]| ==> !Less(lists[d][at[d]].key, lists[c][at[c]].key)
  }

  ghost predicate IsLargest(lists: seq<seq<Entry>>, at: seq<nat>, c: nat)
    requires Positions(lists, at)
  {
    && c < |lists| && at[c] < |lists[c]|
    && forall d :: 0 <= d < |lists| && at[d] < |lists[d]| ==> !Less(lists[c][at[c]].key, lists[d][at[d]].key)
  }

  ghost predicate AllInvalid(lists: seq<seq<Entry>>, at: seq<nat>)
    requires Positions(lists, at)
  {
    forall d :: 0 <= d < |lists| ==> at[d] == |lists[d]|
  }

  lemma Order(run: seq<Entry>, i: nat, j: nat)
    requires Sorted(run) && i < |run| && j < |run|
    ensures i < j <==> Precedes(run[i].key, run[j].key)
    ensures j < i <==> Precedes(run[j].key, run[i].key)
    ensures i == j <==> run[i].key == run[j].key
  {
    if i != j {
      assert Precedes(run[i].key, run[j].key) || Precedes(run[j].key, run[i].key);
    }
  }

  // --- The smallest aligned child holds merged[m] ---

  lemma SmallestIsMerged(lists: seq<seq<Entry>>, at: seq<nat>, merged: seq<Entry>, m: nat, c: nat)
    requires IsMerge(merged, lists) && Aligned(lists, at, merged, m) && IsSmallest(lists, at, c)
    ensures m < |merged| && lists[c][at[c]] == merged[m]
  {
    var e := lists[c][at[c]];
    assert AheadOf(lists[c], at[c], merged, m);
    var d, i :| Holds(lists, d, i, merged[m]);
    assert AheadOf(lists[d], at[d], merged, m);
    Order(lists[d], at[d], i);
    assert e in merged;
    var k :| 0 <= k < |merged| && merged[k] == e;
    Order(merged, k, m);
  }

  lemma InvalidIsEnd(lists: seq<seq<Entry>>, at: seq<nat>, merged: seq<Entry>, m: nat)
    requires IsMerge(merged, lists) && Aligned(lists, at, merged, m) && AllInvalid(lists, at)
    ensures m == |merged|
  {
    if m < |merged| {
      var d, i := HeldBy(lists, merged, m);
      assert false;
    }
  }

  lemma LargestIsMerged(lists: seq<seq<Entry>>, at: seq<nat>, merged: seq<Entry>, m: int, c: nat)
    requires IsMerge(merged, lists) && AlignedBack(lists, at, merged, m) && IsLargest(lists, at, c)
    ensures m >= 0 && lists[c][at[c]] == merged[m]
  {
    var e := lists[c][at[c]];
    assert BehindOf(lists[c], at[c], merged, m);
    var d, i :| Holds(lists, d, i, merged[m]);
    assert BehindOf(lists[d], at[d], merged, m);
    Order(lists[d], i, at[d]);
    assert e in merged;
    var k :| 0 <= k < |merged| && merged[k] == e;
    Order(merged, k, m);
  }

  lemma HeldBy(lists: seq<seq<Entry>>, merged: seq<Entry>, m: nat) returns (d: int, i: int)
    requires IsMerge(merged, lists) && m < |merged|
    ensures Holds(lists, d, i, merged[m])
  {
    assert Held(lists, merged[m]);
    d, i :| Holds(lists, d, i, merged[m]);
  }

  lemma InvalidIsStart(lists: seq<seq<Entry>>, at: seq<nat>, merged: seq<Entry>, m: int)
    requires IsMerge(merged, lists) && AlignedBack(lists, at, merged, m) && AllInvalid(lists, at)
    ensures m == -1
  {
    if m >= 0 {
      var d, i := HeldBy(lists, merged, m);
      assert false;
    }
  }

  // --- Moving one row ---

  lemma StepAhead(lists: seq<seq<Entry>>, at: seq<nat>, at': seq<nat>, merged: seq<Entry>, m: nat, c: nat)
    requires IsMerge(merged, lists) && Aligned(lists, at, merged, m) && m < |merged|
    requires c < |lists| && at[c] < |lists[c]| && lists[c][at[c]] == merged[m]
    requires at' == at[c := NextPos(lists[c], at[c])]
    ensures Aligned(lists, at', merged, m + 1)
  {
    forall d | 0 <= d < |lists| ensures AheadOf(lists[d], at'[d], merged, m + 1) {
      assert AheadOf(lists[d], at[d], merged, m);
      forall i | 0 <= i < |lists[d]|
        ensures i < at'[d] <==> (m + 1 == |merged| || Precedes(lists[d][i].key, merged[m + 1].key))
      {
        MergedNeighbours(lists, merged, m, d, i);
        if lists[d][i] == merged[m] {
          assert Holds(lists, d, i, merged[m]) && Holds(lists, c, at[c], merged[m]);
          Order(lists[c], i, at[c]);
        } else if d == c && i == at[c] {
          assert false;
        }
      }
    }
  }

  // An entry of a child is merged[m], or before it, or at or after merged[m + 1].
  lemma MergedNeighbours(lists: seq<seq<Entry>>, merged: seq<Entry>, m: nat, d: nat, i: nat)
    requires IsMerge(merged, lists) && m < |merged| && d < |lists| && i < |lists[d]|
    ensures (m + 1 == |merged| || Precedes(lists[d][i].key, merged[m + 1].key))
            <==> lists[d][i] == merged[m] || Precedes(lists[d][i].key, merged[m].key)
  {
    var e := lists[d][i];
    assert e in merged && Sorted(merged);
    hide IsMerge, Sorted;
    var k :| 0 <= k < |merged| && merged[k] == e;
    Order(merged, k, m);
    if m + 1 < |merged| {
      Order(merged, k, m + 1);
    }
  }

  lemma StepBehind(lists: seq<seq<Entry>>, at: seq<nat>, at': seq<nat>, merged: seq<Entry>, m: nat, c: nat)
    requires IsMerge(merged, lists) && AlignedBack(lists, at, merged, m)
    requires c < |lists| && at[c] < |lists[c]| && lists[c][at[c]] == merged[m]
    requires at' == at[c := PrevPos(lists[c], at[c])]
    ensures AlignedBack(lists, at', merged, m - 1)
  {
    forall d | 0 <= d < |lists| ensures BehindOf(lists[d], at'[d], merged, m - 1) {
      assert BehindOf(lists[d], at[d], merged, m);
      StepBehindChild(lists, at, at', merged, m, c, d);
    }
  }

  lemma StepBehindChild(lists: seq<seq<Entry>>, at: seq<nat>, at': seq<nat>, merged: seq<Entry>, m: nat, c: nat, d: nat)
    requires IsMerge(merged, lists) && Positions(lists, at) && d < |lists| && BehindOf(lists[d], at[d], merged, m)
    requires c < |lists| && at[c] < |lists[c]| && lists[c][at[c]] == merged[m]
    requires at' == at[c := PrevPos(lists[c], at[c])]
    ensures BehindOf(lists[d], at'[d], merged, m - 1)
  {
    var run, p := lists[d], at'[d];
    forall i | 0 <= i < |run|
      ensures i <= p < |run| <==> m - 1 >= 0 && !Precedes(merged[m - 1].key, run[i].key)
    {
      NotAfterPrevious(lists, merged, m, d, i);
      assert i <= at[d] < |run| <==> !Precedes(merged[m].key, run[i].key);
      if run[i] == merged[m] {
        assert Holds(lists, d, i, merged[m]) && Holds(lists, c, at[c], merged[m]);
        Order(lists[c], i, at[c]);
      }
      assert i <= p < |run| <==> i <= at[d] < |run| && run[i] != merged[m];
    }
    if p < |run| {
      NotAfterPrevious(lists, merged, m, d, p);
    }
  }

  // An entry of a child is merged[m], or after it, or at or before merged[m - 1].
  lemma NotAfterPrevious(lists: seq<seq<Entry>>, merged: seq<Entry>, m: nat, d: nat, i: nat)
    requires IsMerge(merged, lists) && m < |merged| && d < |lists| && i < |lists[d]|
    ensures (m > 0 && !Precedes(merged[m - 1].key, lists[d][i].key))
            <==> lists[d][i] != merged[m] && !Precedes(merged[m].key, lists[d][i].key)
  {
    var e := lists[d][i];
    assert e in merged;
    var k :| 0 <= k < |merged| && merged[k] == e;
    Order(merged, k, m);
    if m > 0 {
      Order(merged, k, m - 1);
    }
  }

  // --- Positioning a child ---

  lemma SeekIsAhead(run: seq<Entry>, merged: seq<Entry>, target: IKey)
    requires Sorted(run) && Sorted(merged) && forall i :: 0 <= i < |run| ==> run[i] in merged
    ensures AheadOf(run, SeekPos(run, target), merged, SeekPos(merged, target))
  {
    var p, m := SeekPos(run, target), SeekPos(merged, target);
    forall i | 0 <= i < |run| ensures i < p <==> (m == |merged| || Precedes(run[i].key, merged[m].key)) {
      var k :| 0 <= k < |merged| && merged[k] == run[i];
      assert k < m < |merged| ==> Precedes(merged[k].key, merged[m].key);
      assert m < k ==> Precedes(merged[m].key, merged[k].key);
      assert p < i ==> Precedes(run[p].key, run[i].key);
    }
  }

  // Next after a reverse step: Seek(key()) puts a child ahead of the current row.
  lemma SeekKeyIsAhead(lists: seq<seq<Entry>>, merged: seq<Entry>, m: nat, d: nat)
    requires IsMerge(merged, lists) && m < |merged| && d < |lists|
    ensures AheadOf(lists[d], SeekPos(lists[d], merged[m].key), merged, m)
  {
    SeekOwnKey(merged, m);
    SeekIsAhead(lists[d], merged, merged[m].key);
  }

  lemma SeekOwnKey(merged: seq<Entry>, m: nat)
    requires Sorted(merged) && m < |merged|
    ensures SeekPos(merged, merged[m].key) == m
  {
    var p := SeekPos(merged, merged[m].key);
    assert p < m ==> Precedes(merged[p].key, merged[m].key);
  }

  // Prev after a forward step: Seek(key()) and one step back, or the last entry.
  lemma SeekBackIsBehind(lists: seq<seq<Entry>>, merged: seq<Entry>, m: nat, d: nat)
    requires IsMerge(merged, lists) && m < |merged| && d < |lists|
    requires forall i :: !Holds(lists, d, i, merged[m])
    ensures var run := lists[d];
            var p := SeekPos(run, merged[m].key);
            BehindOf(run, if p < |run| then PrevPos(run, p) else LastPos(run), merged, m)
  {
    var run := lists[d];
    SeekKeyIsAhead(lists, merged, m, d);
    forall i | 0 <= i < |run| ensures Precedes(run[i].key, merged[m].key) <==> !Precedes(merged[m].key, run[i].key) {
      assert run[i] in merged;
      var k :| 0 <= k < |merged| && merged[k] == run[i];
      Order(merged, k, m);
      assert !Holds(lists, d, i, merged[m]);
    }
  }

  lemma FirstIsAhead(run: seq<Entry>, merged: seq<Entry>)
    requires Sorted(merged) && forall i :: 0 <= i < |run| ==> run[i] in merged
    ensures AheadOf(run, FirstPos(run), merged, 0)
  {
    forall i | 0 <= i < |run| ensures |merged| > 0 && !Precedes(run[i].key, merged[0].key) {
      var k :| 0 <= k < |merged| && merged[k] == run[i];
      Order(merged, k, 0);
    }
  }

  lemma LastIsBehind(run: seq<Entry>, merged: seq<Entry>)
    requires Sorted(merged) && forall i :: 0 <= i < |run| ==> run[i] in merged
    ensures BehindOf(run, LastPos(run), merged, |merged| - 1)
  {
    forall i | 0 <= i < |run| ensures |merged| > 0 && !Precedes(merged[|merged| - 1].key, run[i].key) {
      assert run[i] in merged;
      var k :| 0 <= k < |merged| && merged[k] == run[i];
      Order(merged, k, |merged| - 1);
    }
    assert run != [] ==> run[0] in merged;
  }

  lemma LastAligned(lists: seq<seq<Entry>>, at: seq<nat>, merged: seq<Entry>)
    requires IsMerge(merged, lists) && |at| == |lists| && forall d :: 0 <= d < |lists| ==> at[d] == LastPos(lists[d])
    ensures AlignedBack(lists, at, merged, |merged| - 1)
  {
    forall d | 0 <= d < |lists| ensures BehindOf(lists[d], at[d], merged, |merged| - 1) {
      LastIsBehind(lists[d], merged);
    }
  }

  // The scan of FindSmallest (lines 148-161).
  method SmallestChild(lists: seq<seq<Entry>>, at: seq<nat>) returns (smallest: Option<nat>)
    requires Positions(lists, at)
    ensures smallest.None? ==> AllInvalid(lists, at)
    ensures smallest.Some? ==> IsSmallest(lists, at, smallest.value)
  {
    smallest := None;
    for i := 0 to |lists|
      invariant smallest.None? ==> forall d :: 0 <= d < i ==> at[d] == |lists[d]|
      invariant smallest.Some? ==>
                  && smallest.value < |lists| && at[smallest.value] < |lists[smallest.value]|
                  && forall d :: 0 <= d < i && at[d] < |lists[d]|
                                 ==> !Less(lists[d][at[d]].key, lists[smallest.value][at[smallest.value]].key)
    {
      if at[i] < |lists[i]| {
        if smallest.None? {
          smallest := Some(i);
        } else if Less(lists[i][at[i]].key, lists[smallest.value][at[smallest.value]].key) {
          smallest := Some(i);
        }
      }
    }
  }

  // The scan of FindLargest (lines 163-176), from the last child down.
  method LargestChild(lists: seq<seq<Entry>>, at: seq<nat>) returns (largest: Option<nat>)
    requires Positions(lists, at)
    ensures largest.None? ==> AllInvalid(lists, at)
    ensures largest.Some? ==> IsLargest(lists, at, largest.value)
  {
    largest := None;
    for i := |lists| downto 0
      invariant largest.None? ==> forall d :: i <= d < |lists| ==> at[d] == |lists[d]|
      invariant largest.Some? ==>
                  && largest.value < |lists| && at[largest.value] < |lists[largest.value]|
                  && forall d :: i <= d < |lists| && at[d] < |lists[d]|
                                 ==> !Less(lists[largest.value][at[largest.value]].key, lists[d][at[d]].key)
    {
      if at[i] < |lists[i]| {
        if largest.None? {
          largest := Some(i);
        } else if Less(lists[largest.value][at[largest.value]].key, lists[i][at[i]].key) {
          largest := Some(i);
        }
      }
    }
  }

  datatype Direction = Forward | Reverse

  class MergingIterator {
    const lists: seq<seq<Entry>>
    var at: seq<nat>                 // the position of each child
    var current: Option<nat>         // the child that supplies the current entry
    var direction: Direction

    ghost const merged: seq<Entry>

    ghost var row: nat               // the current row of merged; |merged| when not valid

    ghost predicate Consistent()
      reads this
    {
      && IsMerge(merged, lists) && Positions(lists, at) && row <= |merged|
      && (current.None? <==> row == |merged|)
      && (current.Some? ==>
            && current.value < |lists| && at[current.value] < |lists[current.value]|
            && lists[current.value][at[current.value]] == merged[row]
            && (direction.Forward? ==> Aligned(lists, at, merged, row))
            && (direction.Reverse? ==> AlignedBack(lists, at, merged, row)))
    }

    constructor (lists: seq<seq<Entry>>)
      requires ChildrenOk(lists)
      ensures Consistent() && this.lists == lists && merged == Union(lists) && row == |merged|
    {
      UnionIsMerge(lists);
      ghost var union := Union(lists);
      this.lists, merged := lists, union;
      at := seq(|lists|, d requires 0 <= d < |lists| => |lists[d]|);
      current, direction, row := None, Forward, |union|;
    }

    method Current() returns (e: Entry)
      requires Consistent() && current.Some?
      ensures row < |merged| && e == merged[row]
    {
      e := lists[current.value][at[current.value]];
    }

    // FindSmallest and the row it stands for, given aligned children.
    method FindSmallest(ghost m: nat)
      requires IsMerge(merged, lists) && Aligned(lists, at, merged, m)
      modifies this`current, this`row, this`direction
      ensures Consistent() && row == m && direction.Forward?
    {
      var smallest := SmallestChild(lists, at);
      current, direction, row := smallest, Forward, m;
      if smallest.Some? {
        SmallestIsMerged(lists, at, merged, m, smallest.value);
      } else {
        InvalidIsEnd(lists, at, merged, m);
      }
    }

    method FindLargest(ghost m: int)
      requires IsMerge(merged, lists) && AlignedBack(lists, at, merged, m)
      modifies this`current, this`row, this`direction
      ensures Consistent() && row == (if m < 0 then |merged| else m) && direction.Reverse?
    {
      var largest := LargestChild(lists, at);
      current, direction, row := largest, Reverse, if m < 0 then |merged| else m;
      if largest.Some? {
        LargestIsMerged(lists, at, merged, m, largest.value);
      } else {
        InvalidIsStart(lists, at, merged, m);
      }
    }

    method SeekToFirst()
      requires Consistent()
      modifies this
      ensures Consistent() && row == 0
    {
      at := seq(|lists|, d requires 0 <= d < |lists| => FirstPos(lists[d]));
      forall d | 0 <= d < |lists| ensures AheadOf(lists[d], at[d], merged, 0) {
        FirstIsAhead(lists[d], merged);
      }
      FindSmallest(0);
    }

    method SeekToLast()
      requires Consistent()
      modifies this
      ensures Consistent() && row == if merged == [] then 0 else |merged| - 1
    {
      at := seq(|lists|, d requires 0 <= d < |lists| => LastPos(lists[d]));
      LastAligned(lists, at, merged);
      FindLargest(|merged| - 1);
    }

    // Seek: the first row at or after the target.
    method Seek(target: IKey)
      requires Consistent()
      modifies this
      ensures Consistent() && row == SeekPos(merged, target)
    {
      at := seq(|lists|, d requires 0 <= d < |lists| => SeekPos(lists[d], target));
      forall d | 0 <= d < |lists| ensures AheadOf(lists[d], at[d], merged, SeekPos(merged, target)) {
        SeekIsAhead(lists[d], merged, target);
      }
      FindSmallest(SeekPos(merged, target));
    }

    method Next()
      requires Consistent() && current.Some?
      modifies this
      ensures Consistent() && row == old(row) + 1
    {
      var c := current.value;
      if direction.Reverse? {
        PutAhead(c);
        direction := Forward;
      }
      ghost var before := at;
      at := at[c := NextPos(lists[c], at[c])];
      StepAhead(lists, before, at, merged, row, c);
      FindSmallest(row + 1);
    }

    // Positions the non-current children after key() (lines 63-75).
    method PutAhead(c: nat)
      requires Consistent() && current == Some(c)
      modifies this`at
      ensures Aligned(lists, at, merged, row) && at[c] == old(at[c])
    {
      var key := lists[c][at[c]].key;
      for i := 0 to |lists|
        invariant Positions(lists, at) && at[c] == old(at[c])
        invariant forall d :: 0 <= d < i ==> AheadOf(lists[d], at[d], merged, row)
      {
        SeekKeyIsAhead(lists, merged, row, i);
        if i != c {
          at := at[i := SeekPos(lists[i], key)];
          KeysDiffer(lists, merged, row, c, at[c], i);
          if at[i] < |lists[i]| && lists[i][at[i]].key == key {
            assert false;  // the code steps over an equal key; distinct children have none
          }
        } else {
          SeekOwnKey(lists[c], at[c]);
        }
      }
    }

    method Prev()
      requires Consistent() && current.Some?
      modifies this
      ensures Consistent() && row == if old(row) == 0 then |merged| else old(row) - 1
    {
      var c := current.value;
      if direction.Forward? {
        PutBehind(c);
        direction := Reverse;
      }
      ghost var before := at;
      at := at[c := PrevPos(lists[c], at[c])];
      StepBehind(lists, before, at, merged, row, c);
      FindLargest(row - 1);
    }

    // Positions the non-current children before key() (lines 89-104).
    method PutBehind(c: nat)
      requires Consistent() && current == Some(c)
      modifies this`at
      ensures AlignedBack(lists, at, merged, row) && at[c] == old(at[c])
    {
      var key := lists[c][at[c]].key;
      for i := 0 to |lists|
        invariant Positions(lists, at) && at[c] == old(at[c])
        invariant forall d :: 0 <= d < i ==> BehindOf(lists[d], at[d], merged, row)
      {
        if i != c {
          forall j ensures !Holds(lists, i, j, merged[row]) {
            assert Holds(lists, c, at[c], merged[row]);
          }
          SeekBackIsBehind(lists, merged, row, i);
          at := at[i := SeekPos(lists[i], key)];
          if at[i] < |lists[i]| {
            at := at[i := PrevPos(lists[i], at[i])];
          } else {
            at := at[i := LastPos(lists[i])];
          }
        } else {
          assert forall j :: at[c] < j < |lists[c]| ==> Precedes(lists[c][at[c]].key, lists[c][j].key);
        }
      }
    }
  }

  // Children with pairwise distinct keys never meet the current key.
  lemma KeysDiffer(lists: seq<seq<Entry>>, merged: seq<Entry>, m: nat, c: nat, i: nat, d: nat)
    requires IsMerge(merged, lists) && m < |merged| && Holds(lists, c, i, merged[m]) && d != c && d < |lists|
    ensures forall j :: 0 <= j < |lists[d]| ==> lists[d][j].key != merged[m].key
  {
    forall j | 0 <= j < |lists[d]| ensures lists[d][j].key != merged[m].key {
      assert lists[d][j] in merged;
      var k :| 0 <= k < |merged| && merged[k] == lists[d][j];
      Order(merged, k, m);
      assert !Holds(lists, d, j, merged[m]);
    }
  }

  // --- Every interleaving of calls ---

  // For every sequence of calls the merging iterator is a cursor in the sorted union.
  method Drive(it: MergingIterator, ops: seq<Op<IKey>>)
    requires it.Consistent()
    modifies it
    ensures it.Consistent() && it.row == CursorRun(|it.merged|, SeekIn(it.merged), old(it.row), ops)
  {
    hide IsMerge, Aligned, AlignedBack, SeekPos;
    for i := 0 to |ops|
      invariant it.Consistent() && it.row == CursorRun(|it.merged|, SeekIn(it.merged), old(it.row), ops[..i])
    {
      assert ops[..i + 1][..i] == ops[..i];
      match ops[i] {
        case Seek(target) => it.Seek(target);
        case SeekToFirst => it.SeekToFirst();
        case SeekToLast => it.SeekToLast();
        case Next => if it.current.Some? { it.Next(); }
        case Prev => if it.current.Some? { it.Prev(); }
      }
    }
    assert ops[..|ops|] == ops;
  }
}
